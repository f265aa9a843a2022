/** Types that cross the client/server boundary. */
module Api {
  import opened Wrappers
  import opened Schema

  /** JavaScript truthiness of an optional numeric id: `undefined` and `0` are
      falsy. */
  predicate IsTruthy(id: Option<Id>) {
    id.Some? && id.value != 0
  }

  /** A folder or tag reference in a request body: `{id}` for an existing row,
      `{name}` for one to create. */
  datatype Ref = Ref(id: Option<Id>, name: Option<string>)

  /** An `{id, name}` pair as the queries return it. */
  datatype NamedRef = NamedRef(id: Id, name: string)

  /** The errors a server function lets reach its caller. */
  datatype ApiError =
    | ValidationError      // the request body fails its schema
    | InvalidBookmark      // "Invalid bookmark" / "Invalid Bookmark"
    | InvalidFolder        // "Invalid folder"
    | Unauthorized         // "Unauthorized request"
    | Database(cause: DbError)

  /** What the caller of a mutating server function observes. */
  datatype Response = Done | Failed(error: ApiError)
}
