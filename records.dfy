/** The values exchanged between the browser, the Express routes and the two
    MongoDB collections (`users`, `todos`). */
module Records {

  datatype Option<+T> = None | Some(value: T)

  /** A todo's `_id`. The driver's ObjectId is modelled as a number. */
  type Id = nat

  /** A todo document as a request body carries it: every field may be absent.
      `task` stands for the client's own payload (every field other than
      `_id`, `userEmail` and `completed`). */
  datatype Doc = Doc(id: Option<Id>, task: Option<string>, userEmail: Option<string>, completed: Option<bool>)

  /** A document of the `todos` collection: the store has given it an `_id`. */
  datatype Todo = Todo(id: Id, task: Option<string>, userEmail: Option<string>, completed: Option<bool>)

  /** A document of the `users` collection, stored as registered (plaintext password). */
  datatype User = User(email: string, password: string, userName: string)

  /** What a route handler answers: `res.redirect`, `res.status(s).send(text)`,
      `res.sendStatus(code)` or `res.json(body)`. */
  datatype Response<T> =
    | Redirect(location: string)
    | Text(status: nat, message: string)
    | Status(code: nat)
    | Json(body: T)

  const LoginPage := "/login"
  const ServerError := "Internal Server Error"

  /** `{...undefined}`: spreading a missing body field yields an empty object. */
  const EmptyDoc := Doc(None, None, None, None)

  /** The stored form of `d` once the store has settled on `_id` `id`. */
  function WithId(d: Doc, id: Id): Todo
  {
    Todo(id, d.task, d.userEmail, d.completed)
  }

  /** A stored todo echoed back by the browser as JSON. */
  function ToDoc(t: Todo): Doc
  {
    Doc(Some(t.id), t.task, t.userEmail, t.completed)
  }

  /** `{ ...d, userEmail: email }`. */
  function Restamp(d: Doc, email: string): Doc
  {
    d.(userEmail := Some(email))
  }

  /** `t` keeps every field of `d`, `_id` included when `d` names one. */
  predicate Fits(t: Todo, d: Doc)
  {
    && t.task == d.task
    && t.userEmail == d.userEmail
    && t.completed == d.completed
    && (d.id.Some? ==> t.id == d.id.value)
  }
}
