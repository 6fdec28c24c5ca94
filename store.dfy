/**
  The route handlers of the comic server, as methods of one in-memory store
  that holds the comic, user and comment collections as maps from id to
  record. Each method reads and changes the tables as its handler does and
  returns the handler's outcome.
 */
module Server {
  import opened Records
  import opened Queries

  /** The outcome of registering `username` with a fixed `role`, as a relation
      between the user table before and after: an existing username is
      reported and nothing is written; a new username whose email is already
      used is refused by the unique index on email (HTTP 500) and nothing is
      written; otherwise exactly one user is added under a fresh id. */
  ghost predicate RegisterOutcome(
    before: map<Id, User>, after: map<Id, User>,
    username: string, password: string, email: string, fullname: string, role: int,
    r: Reply<Registration>)
  {
    if UsernameTaken(before, username) then
      r == Ok(UsernameExists) && after == before
    else if exists id :: id in before && before[id].email == email then
      r == InternalError && after == before
    else
      && r.Ok? && r.value.Saved?
      && r.value.id !in before
      && r.value.user == User(username, password, email, fullname, role)
      && after == before[r.value.id := r.value.user]
  }

  class Store {
    var comics: map<Id, Comic>
    var users: map<Id, User>
    var comments: map<Id, Comment>
    /** Every id handed out so far is below `nextId`. */
    var nextId: Id

    /** The store's invariant: ids are below the counter, and the unique
        indexes on username and email hold. */
    ghost predicate Valid()
      reads this
    {
      && (forall id :: id in comics ==> id < nextId)
      && (forall id :: id in users ==> id < nextId)
      && (forall id :: id in comments ==> id < nextId)
      && UniqueUsernames(users)
      && UniqueEmails(users)
    }

    constructor ()
      ensures Valid()
      ensures comics == map[] && users == map[] && comments == map[]
    {
      comics, users, comments := map[], map[], map[];
      nextId := 0;
    }

    /** Draws a document id that no collection uses. */
    method NewId() returns (id: Id)
      requires Valid()
      modifies this`nextId
      ensures Valid()
      ensures id !in comics && id !in users && id !in comments
      ensures id < nextId
    {
      id := nextId;
      nextId := nextId + 1;
    }

    // ---------------------------------------------------------------- comics

    /** GET /comics */
    method ListComics() returns (r: map<Id, Comic>)
      ensures r.Keys == comics.Keys
      ensures forall id :: id in r ==> r[id] == comics[id]
    {
      r := comics;
    }

    /** GET /comics/:id */
    method GetComic(id: Id) returns (r: Reply<Comic>)
      ensures r.Ok? <==> id in comics
      ensures r.Ok? ==> r.value == comics[id]
      ensures !r.Ok? ==> r == NotFound
    {
      if id in comics {
        r := Ok(comics[id]);
      } else {
        r := NotFound;
      }
    }

    /** POST /comics */
    method CreateComic(title: string, description: string, author: string, year: int,
                       coverImage: string, images: seq<string>)
      returns (id: Id, created: Comic)
      requires Valid()
      modifies this
      ensures Valid()
      ensures id !in old(comics) && id !in old(users) && id !in old(comments)
      ensures created == Comic(title, description, author, year, coverImage, images)
      ensures comics == old(comics)[id := created]
      ensures users == old(users) && comments == old(comments)
    {
      id := NewId();
      created := Comic(title, description, author, year, coverImage, images);
      comics := comics[id := created];
    }

    /** PUT /comics/:id: rewrites the five descriptive fields and never `images`. */
    method UpdateComic(id: Id, title: string, description: string, author: string, year: int,
                       coverImage: string)
      returns (r: Reply<Comic>)
      requires Valid()
      modifies this
      ensures Valid()
      ensures id !in old(comics) ==> r == NotFound && comics == old(comics)
      ensures id in old(comics) ==>
        && r.Ok?
        && r.value == Comic(title, description, author, year, coverImage, old(comics)[id].images)
        && comics == old(comics)[id := r.value]
      ensures users == old(users) && comments == old(comments) && nextId == old(nextId)
    {
      if id in comics {
        var updated := comics[id].(title := title, description := description, author := author,
                                   year := year, coverImage := coverImage);
        comics := comics[id := updated];
        r := Ok(updated);
      } else {
        r := NotFound;
      }
    }

    /** DELETE /comics/:id: removes the comic and nothing else; comments on it stay. */
    method DeleteComic(id: Id) returns (r: Reply<Notice>)
      requires Valid()
      modifies this
      ensures Valid()
      ensures r == (if id in old(comics) then Ok(ComicDeleted) else NotFound)
      ensures comics == old(comics) - {id}
      ensures users == old(users) && comments == old(comments) && nextId == old(nextId)
    {
      if id in comics {
        comics := comics - {id};
        r := Ok(ComicDeleted);
      } else {
        r := NotFound;
      }
    }

    // ----------------------------------------------------------------- users

    /** GET /users */
    method ListUsers() returns (r: map<Id, User>)
      ensures r.Keys == users.Keys
      ensures forall id :: id in r ==> r[id] == users[id]
    {
      r := users;
    }

    /** GET /users/:id */
    method GetUser(id: Id) returns (r: Reply<User>)
      ensures r.Ok? <==> id in users
      ensures r.Ok? ==> r.value == users[id]
      ensures !r.Ok? ==> r == NotFound
    {
      if id in users {
        r := Ok(users[id]);
      } else {
        r := NotFound;
      }
    }

    /** `User.findOne({username})`: the user holding that username, if any. */
    method FindUserByName(username: string) returns (found: Option<(Id, User)>)
      ensures found.None? <==> !UsernameTaken(users, username)
      ensures found.Some? ==>
        found.value.0 in users && users[found.value.0] == found.value.1
        && found.value.1.username == username
    {
      if exists id | id in users :: users[id].username == username {
        var id :| id in users && users[id].username == username;
        found := Some((id, users[id]));
      } else {
        found := None;
      }
    }

    /** The body shared by POST /users/user and POST /users/admin. */
    method Register(username: string, password: string, email: string, fullname: string, role: int)
      returns (r: Reply<Registration>)
      requires Valid()
      modifies this
      ensures Valid()
      ensures RegisterOutcome(old(users), users, username, password, email, fullname, role, r)
      ensures comics == old(comics) && comments == old(comments)
    {
      var existing := FindUserByName(username);
      if existing.Some? {
        r := Ok(UsernameExists);
      } else if exists id | id in users :: users[id].email == email {
        // the unique index on email rejects the insert
        r := InternalError;
      } else {
        var id := NewId();
        var user := User(username, password, email, fullname, role);
        WriteKeepsUnique(users, id, user);
        users := users[id := user];
        r := Ok(Saved(id, user));
      }
    }

    /** POST /users/user: registers with role 1. */
    method RegisterUser(username: string, password: string, email: string, fullname: string)
      returns (r: Reply<Registration>)
      requires Valid()
      modifies this
      ensures Valid()
      ensures RegisterOutcome(old(users), users, username, password, email, fullname, RoleUser, r)
      ensures comics == old(comics) && comments == old(comments)
    {
      r := Register(username, password, email, fullname, RoleUser);
    }

    /** POST /users/admin: registers with role 2. */
    method RegisterAdmin(username: string, password: string, email: string, fullname: string)
      returns (r: Reply<Registration>)
      requires Valid()
      modifies this
      ensures Valid()
      ensures RegisterOutcome(old(users), users, username, password, email, fullname, RoleAdmin, r)
      ensures comics == old(comics) && comments == old(comments)
    {
      r := Register(username, password, email, fullname, RoleAdmin);
    }

    /** POST /users/login. Changes no table. */
    method Login(username: string, password: string) returns (r: LoginReply)
      requires Valid()
      ensures r == AccountNotFound <==> !UsernameTaken(users, username)
      ensures r == WrongPassword <==>
        exists id :: id in users && users[id].username == username && users[id].password != password
      ensures r == NoResponse <==>
        exists id :: id in users && users[id].username == username && users[id].password == password
          && users[id].role != RoleUser && users[id].role != RoleAdmin
      ensures r.LoggedIn? <==>
        exists id :: id in users && users[id].username == username && users[id].password == password
          && (users[id].role == RoleUser || users[id].role == RoleAdmin)
      ensures r.LoggedIn? ==>
        && r.id in users
        && users[r.id].username == username && users[r.id].password == password
        && r.role == users[r.id].role && (r.role == RoleUser || r.role == RoleAdmin)
        && r.fullname == users[r.id].fullname && r.email == users[r.id].email
    {
      var found := FindUserByName(username);
      r := LoginDecision(found, password);
    }

    /** PUT /users/:id: stores all five fields as given, `role` included;
        a username or email held by another user is refused by the unique
        indexes (HTTP 500) and nothing is written. */
    method UpdateUser(id: Id, username: string, password: string, email: string, fullname: string,
                      role: int)
      returns (r: Reply<User>)
      requires Valid()
      modifies this
      ensures Valid()
      ensures id !in old(users) ==> r == NotFound && users == old(users)
      ensures id in old(users) && Clashes(old(users), id, User(username, password, email, fullname, role)) ==>
        r == InternalError && users == old(users)
      ensures id in old(users) && !Clashes(old(users), id, User(username, password, email, fullname, role)) ==>
        r == Ok(User(username, password, email, fullname, role)) && users == old(users)[id := r.value]
      ensures comics == old(comics) && comments == old(comments) && nextId == old(nextId)
    {
      var user := User(username, password, email, fullname, role);
      if id !in users {
        r := NotFound;
      } else if exists other | other in users :: other != id
                  && (users[other].username == username || users[other].email == email) {
        r := InternalError;
      } else {
        WriteKeepsUnique(users, id, user);
        users := users[id := user];
        r := Ok(user);
      }
    }

    /** DELETE /users/:id: removes the user and nothing else; their comments stay. */
    method DeleteUser(id: Id) returns (r: Reply<Notice>)
      requires Valid()
      modifies this
      ensures Valid()
      ensures r == (if id in old(users) then Ok(UserDeleted) else NotFound)
      ensures users == old(users) - {id}
      ensures comics == old(comics) && comments == old(comments) && nextId == old(nextId)
    {
      if id in users {
        users := users - {id};
        r := Ok(UserDeleted);
      } else {
        r := NotFound;
      }
    }

    // -------------------------------------------------------------- comments

    /** GET /comments/comic/:comicId/user/:userId */
    method ListCommentsOfComicByUser(comicId: Id, userId: Id) returns (r: Reply<map<Id, Comment>>)
      ensures r.Ok? || r == NotFound
      ensures r == NotFound <==> comicId !in comics || userId !in users
      ensures r.Ok? ==> forall id :: id in r.value <==>
        id in comments && comments[id].comicId == comicId && comments[id].userId == userId
      ensures r.Ok? ==> forall id :: id in r.value ==> r.value[id] == comments[id]
    {
      if comicId !in comics || userId !in users {
        r := NotFound;
      } else {
        r := Ok(Find(comments, ByComicAndUser(comicId, userId)));
      }
    }

    /** GET /comments/:comicId with the caller's id in the `userId` header
        (`None` when the header is missing or empty). The comic's existence is
        not checked. */
    method ListCommentsForCaller(comicId: Id, header: Option<Id>) returns (r: Reply<map<Id, Comment>>)
      ensures header.None? ==> r == BadRequest(MissingUserId)
      ensures header.Some? && header.value !in users ==> r == NotFound
      ensures header.Some? && header.value in users ==>
        r == VisibleComments(comments, comicId, header.value, users[header.value].role)
    {
      if header.None? {
        r := BadRequest(MissingUserId);
      } else if header.value !in users {
        r := NotFound;
      } else {
        var caller := header.value;
        r := VisibleComments(comments, comicId, caller, users[caller].role);
      }
    }

    /** POST /comments: both the user and the comic must exist; `now` is the
        creation time the store stamps on the comment. */
    method CreateComment(comicId: Id, userId: Id, content: string, now: int)
      returns (r: Reply<(Id, Comment)>)
      requires Valid()
      modifies this
      ensures Valid()
      ensures r.Ok? || r == NotFound
      ensures r == NotFound <==> userId !in old(users) || comicId !in old(comics)
      ensures r == NotFound ==> comments == old(comments)
      ensures r.Ok? ==>
        && r.value.0 !in old(comments) && r.value.0 !in old(users) && r.value.0 !in old(comics)
        && r.value.1 == Comment(comicId, userId, content, now)
        && comments == old(comments)[r.value.0 := r.value.1]
        && |comments| == |old(comments)| + 1
      ensures comics == old(comics) && users == old(users)
    {
      if userId !in users || comicId !in comics {
        r := NotFound;
      } else {
        var id := NewId();
        var comment := Comment(comicId, userId, content, now);
        comments := comments[id := comment];
        r := Ok((id, comment));
      }
    }

    /** PUT /comments/:id: rewrites the content and nothing else. */
    method UpdateComment(id: Id, content: string) returns (r: Reply<Comment>)
      requires Valid()
      modifies this
      ensures Valid()
      ensures id !in old(comments) ==> r == NotFound && comments == old(comments)
      ensures id in old(comments) ==>
        && r.Ok?
        && r.value.content == content
        && r.value.comicId == old(comments)[id].comicId
        && r.value.userId == old(comments)[id].userId
        && r.value.createdAt == old(comments)[id].createdAt
        && comments == old(comments)[id := r.value]
      ensures comics == old(comics) && users == old(users) && nextId == old(nextId)
    {
      if id in comments {
        var updated := comments[id].(content := content);
        comments := comments[id := updated];
        r := Ok(updated);
      } else {
        r := NotFound;
      }
    }

    /** DELETE /comments/:id */
    method DeleteComment(id: Id) returns (r: Reply<Notice>)
      requires Valid()
      modifies this
      ensures Valid()
      ensures r == (if id in old(comments) then Ok(CommentDeleted) else NotFound)
      ensures comments == old(comments) - {id}
      ensures comics == old(comics) && users == old(users) && nextId == old(nextId)
    {
      if id in comments {
        comments := comments - {id};
        r := Ok(CommentDeleted);
      } else {
        r := NotFound;
      }
    }
  }
}
