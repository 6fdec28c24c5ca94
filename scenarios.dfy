/**
  Properties that relate several requests to the comic server, stated over
  the store's handlers and over the registration outcome.
 */
module Scenarios {
  import opened Records
  import opened Queries
  import opened Server

  /** Registering a username a second time, by either endpoint and with any
      other fields, reports that it exists and leaves the user table as the
      first registration left it. */
  lemma SecondRegistrationFindsFirst(
    u0: map<Id, User>, u1: map<Id, User>, u2: map<Id, User>,
    username: string,
    password1: string, email1: string, fullname1: string, role1: int, r1: Reply<Registration>,
    password2: string, email2: string, fullname2: string, role2: int, r2: Reply<Registration>)
    requires RegisterOutcome(u0, u1, username, password1, email1, fullname1, role1, r1)
    requires r1.Ok?
    requires RegisterOutcome(u1, u2, username, password2, email2, fullname2, role2, r2)
    ensures r2 == Ok(UsernameExists) && r2.value.Exists()
    ensures u2 == u1
  {
    if r1.value.Saved? {
      assert u1[r1.value.id].username == username;
    }
  }

  /** A comic created by POST /comics is returned by GET /comics/:id, removed
      by DELETE /comics/:id, and then no longer found. */
  method ComicLifecycle(s: Store, title: string, description: string, author: string, year: int,
                        coverImage: string, images: seq<string>)
    returns (created: Comic, fetched: Reply<Comic>, deleted: Reply<Notice>, refetched: Reply<Comic>)
    requires s.Valid()
    modifies s
    ensures s.Valid()
    ensures created == Comic(title, description, author, year, coverImage, images)
    ensures fetched == Ok(created)
    ensures deleted == Ok(ComicDeleted)
    ensures refetched == NotFound
  {
    var id;
    id, created := s.CreateComic(title, description, author, year, coverImage, images);
    fetched := s.GetComic(id);
    deleted := s.DeleteComic(id);
    refetched := s.GetComic(id);
  }

  /** Deleting a comic, a user or a comment twice: the second delete finds nothing. */
  method DeleteTwice(s: Store, comicId: Id, userId: Id, commentId: Id)
    returns (comic2: Reply<Notice>, user2: Reply<Notice>, comment2: Reply<Notice>)
    requires s.Valid()
    modifies s
    ensures s.Valid()
    ensures comic2 == NotFound && user2 == NotFound && comment2 == NotFound
  {
    var first := s.DeleteComic(comicId);
    comic2 := s.DeleteComic(comicId);
    first := s.DeleteUser(userId);
    user2 := s.DeleteUser(userId);
    first := s.DeleteComment(commentId);
    comment2 := s.DeleteComment(commentId);
  }

  /** A user registered through POST /users/user logs in with the same
      credentials as a regular user, and the reply echoes their record. */
  method RegisterThenLogin(s: Store, username: string, password: string, email: string, fullname: string)
    returns (registered: Reply<Registration>, login: LoginReply)
    requires s.Valid()
    requires !UsernameTaken(s.users, username)
    requires forall id :: id in s.users ==> s.users[id].email != email
    modifies s
    ensures s.Valid()
    ensures registered.Ok? && registered.value.Saved?
    ensures login == LoggedIn(registered.value.id, RoleUser, fullname, email)
  {
    registered := s.RegisterUser(username, password, email, fullname);
    assert s.users[registered.value.id].username == username;
    login := s.Login(username, password);
  }

  /** A user whose role was set outside {1, 2} by PUT /users/:id gets no
      reply from a correct login and a 400 from the comment listing. */
  method RoleOutsideRange(s: Store, id: Id, role: int, comicId: Id)
    returns (updated: Reply<User>, login: LoginReply, listed: Reply<map<Id, Comment>>)
    requires s.Valid() && id in s.users
    requires role != RoleUser && role != RoleAdmin
    modifies s
    ensures s.Valid()
    ensures updated.Ok? && updated.value.role == role
    ensures login == NoResponse && listed == BadRequest(InvalidRole)
  {
    var u := s.users[id];
    assert !Clashes(s.users, id, u.(role := role));
    updated := s.UpdateUser(id, u.username, u.password, u.email, u.fullname, role);
    login := s.Login(u.username, u.password);
    listed := s.ListCommentsForCaller(comicId, Some(id));
  }

  /** Two comments on one comic by two users: each user, as a regular user,
      is shown only their own; an admin is shown both. Comments on the comic
      survive the deletion of the comic (no cascade). */
  method CommentVisibility(s: Store, comicId: Id, a: Id, b: Id, admin: Id, now: int)
    returns (c1: Reply<(Id, Comment)>, c2: Reply<(Id, Comment)>,
             seenByA: Reply<map<Id, Comment>>, seenByAdmin: Reply<map<Id, Comment>>)
    requires s.Valid()
    requires comicId in s.comics && a in s.users && b in s.users && admin in s.users
    requires a != b
    requires s.users[a].role == RoleUser && s.users[admin].role == RoleAdmin
    modifies s
    ensures s.Valid()
    ensures c1.Ok? && c2.Ok?
    ensures seenByA.Ok? && c1.value.0 in seenByA.value && c2.value.0 !in seenByA.value
    ensures seenByAdmin.Ok? && c1.value.0 in seenByAdmin.value && c2.value.0 in seenByAdmin.value
    ensures c1.value.0 in s.comments && c2.value.0 in s.comments
  {
    c1 := s.CreateComment(comicId, a, "first", now);
    c2 := s.CreateComment(comicId, b, "second", now);
    seenByA := s.ListCommentsForCaller(comicId, Some(a));
    seenByAdmin := s.ListCommentsForCaller(comicId, Some(admin));
    var gone := s.DeleteComic(comicId);
  }
}
