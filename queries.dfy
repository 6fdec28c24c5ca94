/**
  The pure decisions inside the route handlers: the comment filter that
  `Comment.find` applies, the login decision and the role branch of the
  comment listing, each a function of records already looked up from the
  tables, together with the invariants of the user table.
 */
module Queries {
  import opened Records

  /** The filter object passed to `Comment.find`: `{comicId}` or `{comicId, userId}`. */
  datatype CommentFilter = ByComic(comicId: Id) | ByComicAndUser(comicId: Id, userId: Id)

  predicate Matches(c: Comment, f: CommentFilter)
  {
    match f
    case ByComic(comic) => c.comicId == comic
    case ByComicAndUser(comic, user) => c.comicId == comic && c.userId == user
  }

  /** `Comment.find(filter)`: every stored comment that matches the filter,
      unchanged and under its own id, and nothing else. */
  function Find(comments: map<Id, Comment>, f: CommentFilter): (r: map<Id, Comment>)
    ensures forall id :: id in r ==> id in comments && r[id] == comments[id] && Matches(r[id], f)
    ensures forall id :: id in comments && Matches(comments[id], f) ==> id in r
  {
    map id | id in comments && Matches(comments[id], f) :: comments[id]
  }

  /** The role branch of `GET /comments/:comicId`, once the caller's user
      record has been found: a regular user sees only their own comments on
      the comic, an admin sees every comment on it, and any other stored
      role is refused. */
  function VisibleComments(comments: map<Id, Comment>, comicId: Id, caller: Id, role: int)
    : (r: Reply<map<Id, Comment>>)
    ensures r.Ok? <==> role == RoleUser || role == RoleAdmin
    ensures !r.Ok? ==> r == BadRequest(InvalidRole)
    ensures role == RoleUser ==>
      forall id :: id in r.value <==>
        id in comments && comments[id].comicId == comicId && comments[id].userId == caller
    ensures role == RoleAdmin ==>
      forall id :: id in r.value <==> id in comments && comments[id].comicId == comicId
    ensures r.Ok? ==> forall id :: id in r.value ==> r.value[id] == comments[id]
  {
    if role == RoleUser then Ok(Find(comments, ByComicAndUser(comicId, caller)))
    else if role == RoleAdmin then Ok(Find(comments, ByComic(comicId)))
    else BadRequest(InvalidRole)
  }

  /** Everything a regular user is shown on a comic, an admin is shown too. */
  lemma AdminSeesWhatUserSees(comments: map<Id, Comment>, comicId: Id, caller: Id, admin: Id)
    ensures VisibleComments(comments, comicId, caller, RoleUser).value.Keys
         <= VisibleComments(comments, comicId, admin, RoleAdmin).value.Keys
  {
  }

  /** The admin's listing of a comic is the union, over the authors of its
      comments, of what each author is shown as a regular user. */
  lemma AdminListingIsUnionOfOwnListings(comments: map<Id, Comment>, comicId: Id, admin: Id, id: Id)
    ensures id in VisibleComments(comments, comicId, admin, RoleAdmin).value <==>
      id in comments && id in VisibleComments(comments, comicId, comments[id].userId, RoleUser).value
  {
  }

  /** A regular user is never shown more comments on a comic than an admin. */
  lemma UserSeesNoMoreThanAdmin(comments: map<Id, Comment>, comicId: Id, caller: Id, admin: Id)
    ensures |VisibleComments(comments, comicId, caller, RoleUser).value|
         <= |VisibleComments(comments, comicId, admin, RoleAdmin).value|
  {
    var own := VisibleComments(comments, comicId, caller, RoleUser).value;
    var all := VisibleComments(comments, comicId, admin, RoleAdmin).value;
    SubsetSize(own.Keys, all.Keys);
  }

  /** A subset is no larger than the set that contains it. */
  lemma {:induction false} SubsetSize<T>(a: set<T>, b: set<T>)
    requires a <= b
    ensures |a| <= |b|
    decreases a
  {
    if a != {} {
      var x :| x in a;
      SubsetSize(a - {x}, b - {x});
    }
  }

  /** The login decision, given what `User.findOne({username})` returned:
      no record, a record whose password differs, or a matching record whose
      role is echoed when it is 1 or 2 and that gets no reply otherwise. */
  function LoginDecision(found: Option<(Id, User)>, password: string): (r: LoginReply)
    ensures r == AccountNotFound <==> found.None?
    ensures r == WrongPassword <==> found.Some? && found.value.1.password != password
    ensures r.LoggedIn? <==>
      found.Some? && found.value.1.password == password
      && (found.value.1.role == RoleUser || found.value.1.role == RoleAdmin)
    ensures r.LoggedIn? ==>
      r.id == found.value.0 && r.role == found.value.1.role
      && r.fullname == found.value.1.fullname && r.email == found.value.1.email
    ensures r == NoResponse <==>
      found.Some? && found.value.1.password == password
      && found.value.1.role != RoleUser && found.value.1.role != RoleAdmin
    ensures r != NoResponse ==> (r.Exists() <==> found.Some?)
  {
    match found
    case None => AccountNotFound
    case Some((id, user)) =>
      if user.password == password then
        if user.role == RoleUser then LoggedIn(id, RoleUser, user.fullname, user.email)
        else if user.role == RoleAdmin then LoggedIn(id, RoleAdmin, user.fullname, user.email)
        else NoResponse
      else WrongPassword
  }

  /** A successful login reveals nothing that tells two passwords apart:
      the reply is the same for every stored password that matches. */
  lemma LoginReplyHidesPassword(id: Id, u: User, secret: string)
    requires LoginDecision(Some((id, u)), u.password).LoggedIn?
    ensures LoginDecision(Some((id, u)), u.password)
         == LoginDecision(Some((id, u.(password := secret))), secret)
  {
  }

  /** The unique index on `username`. */
  ghost predicate UniqueUsernames(users: map<Id, User>)
  {
    forall a, b :: a in users && b in users && users[a].username == users[b].username ==> a == b
  }

  /** The unique index on `email`. */
  ghost predicate UniqueEmails(users: map<Id, User>)
  {
    forall a, b :: a in users && b in users && users[a].email == users[b].email ==> a == b
  }

  predicate UsernameTaken(users: map<Id, User>, username: string)
  {
    exists id :: id in users && users[id].username == username
  }

  /** Writing `u` under `id` would violate a unique index: some other user
      already has its username or its email. */
  predicate Clashes(users: map<Id, User>, id: Id, u: User)
  {
    exists other :: other in users && other != id
      && (users[other].username == u.username || users[other].email == u.email)
  }

  /** A write that the unique indexes accept keeps them satisfied. */
  lemma WriteKeepsUnique(users: map<Id, User>, id: Id, u: User)
    requires UniqueUsernames(users) && UniqueEmails(users)
    requires !Clashes(users, id, u)
    ensures UniqueUsernames(users[id := u]) && UniqueEmails(users[id := u])
  {
  }

  /** Under the unique index, a username names at most one user. */
  lemma {:induction false} AtMostOneUserPerUsername(users: map<Id, User>, username: string)
    requires UniqueUsernames(users)
    ensures |set id | id in users && users[id].username == username| <= 1
  {
    var named := set id | id in users && users[id].username == username;
    if named != {} {
      var id :| id in named;
      assert named == {id};
    }
  }
}
