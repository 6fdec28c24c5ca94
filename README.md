# Comic server: a verified model of its route handlers

The comic server is a small Express/Mongoose backend with three collections:
comics, users and per-comic comments. It has create, read, update and delete
endpoints for each, two registration endpoints (role 1 "user" and role 2
"admin"), a login endpoint, and a comment listing whose visibility depends on
the caller's stored role.

This project models that server without Express and Mongoose: an in-memory
store (`Server.Store`) holds the three collections as maps from document id
to record, and each route handler is a method of the store that reads and
changes those maps and returns the handler's outcome (`Reply`: `Ok`,
`NotFound`, `BadRequest`, `InternalError`; `Registration`; `LoginReply`).
The decisions inside the handlers — the login decision, the role branch of
the comment listing and the `Comment.find` filters — are pure functions over
records already looked up from the tables (module `Queries`).

Files:

- `records.dfy` (module `Records`): ids, the Comic, User and Comment record
  shapes, and the reply datatypes.
- `queries.dfy` (module `Queries`): the comment filter, the role branch, the
  login decision, the unique-index predicates, and lemmas about them.
- `store.dfy` (module `Server`): the `Store` class, its invariant `Valid()`
  (ids below the id counter; usernames unique; emails unique), one method
  per route handler, and `RegisterOutcome`, the contract shared by the two
  registration endpoints.
- `scenarios.dfy` (module `Scenarios`): properties that span several requests.

Modelling choices:

- Ids are naturals drawn from one counter, so every new document gets an id
  no collection uses.
- The schema's `unique: true` on `username` and `email` is modelled as a
  unique index that the store enforces on every write. A write that would
  break it is the handler's HTTP 500 (`InternalError`) and changes nothing.
  So a registration with a new username but an email already in use answers
  `InternalError`. So does a user update that takes another user's username
  or email.
- `PUT /users/:id` stores `role` as given, so a stored role outside {1, 2} is
  reachable. For such a user, a login with the right password gets no reply
  at all (`NoResponse`), and the role-filtered comment listing answers
  `BadRequest(InvalidRole)`. `Scenarios.RoleOutsideRange` shows both.
- A login reply never holds a password: `LoggedIn` has no field for one.
- The `userId` header of `GET /comments/:comicId` is an `Option<Id>`. `None`
  stands for a header that is missing or empty, which the handler treats
  alike.
- The schema comment on `role` (server.js:76) lists only 1 and 2, but
  `PUT /users/:id` (server.js:330-333) can store any number, so `role` stays
  an `int`. The login handler (server.js:283-301) replies only for role 1 or
  2: with the right password and any other stored role it sends no reply.
  The role-filtered comment listing keeps its invalid-role branch
  (server.js:411-412).

## Model

| member | source | states |
|---|---|---|
| `Queries.Find` | server.js:376 | `Comment.find(filter)` returns every stored comment that matches the filter, unchanged and under its own id, and no other |
| `Queries.VisibleComments` | server.js:403-413 | role 1 gets exactly the comments on the comic written by the caller; role 2 gets exactly all comments on the comic; any other role gets `BadRequest(InvalidRole)`; results are the stored records |
| `Queries.AdminSeesWhatUserSees` | server.js:403-410 | what a role-1 caller is shown on a comic is a subset of what an admin is shown on it |
| `Queries.AdminListingIsUnionOfOwnListings` | server.js:403-410 | a comment is in the admin's listing of a comic exactly when its own author, as a regular user, is shown it |
| `Queries.UserSeesNoMoreThanAdmin` | server.js:403-410 | a role-1 caller is never shown more comments on a comic than an admin |
| `Queries.LoginDecision` | server.js:280-317 | no record gives AccountNotFound (`exists` false); a wrong password gives WrongPassword (`exists` true); a match with role 1 or 2 echoes the stored id, role, fullname and email; a match with any other role gives no response |
| `Queries.LoginReplyHidesPassword` | server.js:283-300 | a successful login reply is the same whatever the matching password is, so it reveals nothing about the password |
| `Queries.WriteKeepsUnique` | server.js:56-69 | a user write that the unique indexes accept keeps usernames unique and emails unique |
| `Queries.AtMostOneUserPerUsername` | server.js:56-60 | under the unique index a username names at most one user, so `findOne({username})` has at most one candidate |
| `Server.Store.ListComics` | server.js:120-127 | returns every comic record, unfiltered |
| `Server.Store.GetComic` | server.js:130-142 | the stored comic when the id is present, NotFound otherwise |
| `Server.Store.CreateComic` | server.js:145-161 | adds exactly one comic, with the six given fields, under an id no collection used (comic, user or comment); users and comments unchanged |
| `Server.Store.UpdateComic` | server.js:164-181 | absent id: NotFound, nothing changes; present: the five given fields are written, `images` keeps its old value, no other comic changes, users and comments unchanged |
| `Server.Store.DeleteComic` | server.js:184-196 | removes exactly that comic and answers ComicDeleted, or NotFound if absent; users and comments unchanged (no cascade) |
| `Server.Store.ListUsers` | server.js:201-208 | returns every user record, unfiltered |
| `Server.Store.GetUser` | server.js:211-223 | the stored user when the id is present, NotFound otherwise |
| `Server.Store.FindUserByName` | server.js:229 | returns a user holding the username exactly when one exists |
| `Server.Store.Register` | server.js:226-272 | existing username: `exists` true and users unchanged; new username with a used email: InternalError, users unchanged; otherwise exactly one user added with the given fields and role; unique indexes kept; comics and comments unchanged |
| `Server.Store.RegisterUser` | server.js:226-247 | registration outcome with role 1 |
| `Server.Store.RegisterAdmin` | server.js:250-272 | registration outcome with role 2 |
| `Server.Store.Login` | server.js:276-322 | AccountNotFound exactly when no user has the username; WrongPassword exactly when that user's password differs; LoggedIn exactly when it matches and the role is 1 or 2, echoing that user's id, role, fullname and email; NoResponse exactly when it matches and the role is anything else; no table changes |
| `Server.Store.UpdateUser` | server.js:326-343 | absent id: NotFound; a username or email held by another user: InternalError; otherwise all five fields, `role` included, are stored as given; nothing else changes |
| `Server.Store.DeleteUser` | server.js:346-358 | removes exactly that user and answers UserDeleted, or NotFound if absent; comics and comments unchanged (no cascade) |
| `Server.Store.ListCommentsOfComicByUser` | server.js:363-381 | NotFound exactly when the comic or the user is absent; otherwise exactly the stored comments with both ids |
| `Server.Store.ListCommentsForCaller` | server.js:387-417 | missing header: BadRequest(MissingUserId); unknown caller: NotFound; otherwise the role branch on the caller's stored role; the comic's existence is never checked; no table changes |
| `Server.Store.CreateComment` | server.js:423-446 | user or comic absent: NotFound and comments unchanged; otherwise exactly one comment added under an id no collection used, with the given comicId, userId, content and creation time; users and comics unchanged |
| `Server.Store.UpdateComment` | server.js:451-468 | absent id: NotFound, nothing changes; present: only `content` changes, comicId, userId and createdAt keep their values |
| `Server.Store.DeleteComment` | server.js:473-485 | removes exactly that comment and answers CommentDeleted, or NotFound if absent; comics and users unchanged |
| `Scenarios.SecondRegistrationFindsFirst` | server.js:229-232 | after a registration succeeds, registering the same username again, by either endpoint, answers `exists` true and leaves the user table as it was |
| `Scenarios.ComicLifecycle` | server.js:145-196 | a created comic is returned by GET, deleted with ComicDeleted, and then not found |
| `Scenarios.DeleteTwice` | server.js:187-191 | a second delete of the same comic, user or comment answers NotFound |
| `Scenarios.RegisterThenLogin` | server.js:234-291 | a user registered through `/users/user` logs in with role 1 and gets back their id, fullname and email |
| `Scenarios.RoleOutsideRange` | server.js:330-333 | an update can store a role outside {1, 2}; that user then gets no login reply and a BadRequest from the role-filtered listing |
| `Scenarios.CommentVisibility` | server.js:403-410 | with comments by users A and B on one comic, A (role 1) is shown only A's comment, an admin is shown both, and both survive deleting the comic |

## Left out

- Process bootstrap and transport: the database connection, the JSON body parser and the listening port.
- Generic store failures: the model has no connection or driver errors. `InternalError` appears only where a unique index rejects a write.
- Id casting: a malformed id makes Mongoose throw, which the server answers with 500, not 404. Here ids are abstract values, so every id is well formed.
- Schema validation on save: required fields, number coercion of `year`, and the role enum. Every payload field is taken as present and well typed. The registration endpoints only ever store role 1 or 2, so the enum never rejects them.
- Undefined fields in update payloads: what Mongoose does with an `undefined` value depends on its version (newer versions leave the field unchanged; older ones, without `omitUndefined`, store `null`). The model writes every field it is given as a defined value.
- Unique index timing: the model assumes both unique indexes are always in force. Mongoose builds them in the background when the server starts.
- The order of arrays returned by `find`: results are maps, so list order is not modelled.
- Concurrency: several requests can interleave between an existence check and the write or query that follows it. The model runs each handler as one atomic step.
- The clock: a comment's `createdAt` is handed in as a parameter rather than read from a clock.
- Message strings: they become distinct tags (`Notice`, `BadReason` and the constructors of `LoginReply`).
- `year` is an integer; JavaScript numbers are floating point.
