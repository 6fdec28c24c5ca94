/**
  The record shapes of the comic server's three collections (comic, user,
  comment) and the outcomes its route handlers answer with.
 */
module Records {

  /** A document id. The store generates ids; the model only compares them
      and draws fresh ones, so they are kept abstract as naturals. */
  type Id = nat

  datatype Option<+T> = None | Some(value: T)

  /** The user roles the handlers branch on. The stored `role` is a plain
      number: an update may store any value. */
  const RoleUser: int := 1
  const RoleAdmin: int := 2

  datatype Comic = Comic(
    title: string,
    description: string,
    author: string,
    year: int,
    coverImage: string,
    images: seq<string>)

  /** `password` is stored and compared in clear text, as the server does. */
  datatype User = User(
    username: string,
    password: string,
    email: string,
    fullname: string,
    role: int)

  /** `createdAt` is the timestamp the store assigns when the comment is
      saved; it is handed in by the caller of the model. */
  datatype Comment = Comment(
    comicId: Id,
    userId: Id,
    content: string,
    createdAt: int)

  /** Why a request was answered with HTTP 400. */
  datatype BadReason = MissingUserId | InvalidRole

  /** The HTTP outcome of a handler: 200 with a body, 404, 400, or the
      handler's catch-all 500. */
  datatype Reply<+T> = Ok(value: T) | NotFound | BadRequest(reason: BadReason) | InternalError

  /** The success message of each delete endpoint. */
  datatype Notice = ComicDeleted | UserDeleted | CommentDeleted

  /** The body of a registration: `{exists: true}` or `{exists: false, savedUser}`. */
  datatype Registration = UsernameExists | Saved(id: Id, user: User)
  {
    predicate Exists() { UsernameExists? }
  }

  /** The outcome of a login. `LoggedIn` carries the fields the server echoes;
      there is no password field, so a reply never carries one.
      `NoResponse` is the case in which the handler sends nothing at all. */
  datatype LoginReply =
    | AccountNotFound
    | WrongPassword
    | LoggedIn(id: Id, role: int, fullname: string, email: string)
    | NoResponse
  {
    /** The `exists` flag of the JSON body, for the replies that have one. */
    predicate Exists()
      requires !NoResponse?
    {
      !AccountNotFound?
    }
  }
}
