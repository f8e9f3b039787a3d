/** The todo page's script, Client/todos.js: the page-global `todos` list and
    what each event handler does to it. Rendering, alerts and the user banner
    are not part of the model; a handler's request is the response it is
    handed. */
module Client {
  import opened Records
  import opened TodoStore

  /** The list inside the Save button's body `JSON.stringify({ todos })`: every
      record goes out as it is held, `_id` included, so the store can rebuild
      each one from its document under the id it names. */
  function Outgoing(local: seq<Todo>): (r: seq<Doc>)
    ensures |r| == |local|
    ensures forall k :: 0 <= k < |local| ==> r[k].id == Some(local[k].id) && WithId(r[k], local[k].id) == local[k]
  {
    seq(|local|, k requires 0 <= k < |local| => ToDoc(local[k]))
  }

  class TodoPage {
    /** The global `todos`. It is never declared: `None` until the first
        fetch assigns it, and any handler that reads it before then throws a
        ReferenceError. */
    var todos: Option<seq<Todo>>

    constructor ()
      ensures todos == None
    {
      todos := None;
    }

    /** The page-load `fetch("/api/todos")`: the server's list replaces the
        local one wholesale. Only a JSON answer parses; the login page a
        redirect leads to, or a 500 text, makes `response.json()` reject and
        the list stays as it was. */
    method Load(resp: Response<seq<Todo>>)
      modifies this
      ensures todos == if resp.Json? then Some(resp.body) else old(todos)
    {
      if resp.Json? {
        todos := Some(resp.body);
      }
    }

    /** The add form, once `POST /api/todos` has answered: the record the
        server returned goes at the end and the earlier items stay. `done` is
        false when the answer is not JSON or `todos` is still unassigned. */
    method Append(resp: Response<Todo>) returns (done: bool)
      modifies this
      ensures done <==> resp.Json? && old(todos).Some?
      ensures done ==> todos == Some(old(todos).value + [resp.body])
      ensures !done ==> todos == old(todos)
    {
      if !resp.Json? || todos.None? {
        return false;
      }
      todos := Some(todos.value + [resp.body]);
      done := true;
    }

    /** The checkbox handler: `completed` is set on the first item with that
        `_id` and nothing else changes. No request is sent. When no item has
        the id, `todo` is undefined and the handler throws (`done` is false). */
    method Toggle(id: Id, checked: bool) returns (done: bool)
      modifies this
      ensures done <==> old(todos).Some? && id in Ids(old(todos).value)
      ensures !done ==> todos == old(todos)
      ensures done ==>
        && todos.Some? && |todos.value| == |old(todos).value|
        && (forall k :: 0 <= k < |todos.value| ==>
              todos.value[k] == if FirstWithId(old(todos).value, id, k)
                                then old(todos).value[k].(completed := Some(checked))
                                else old(todos).value[k])
    {
      if todos.None? || id !in Ids(todos.value) {
        return false;
      }
      UpdateFirstShape(todos.value, id, Some(checked));
      todos := Some(UpdateFirst(todos.value, id, Some(checked)));
      done := true;
    }

    /** The delete button, once the `DELETE` request has resolved (whatever its
        status): every item with that `_id` goes, the rest keep their order.
        `done` is false when `todos` is still unassigned. */
    method Remove(id: Id) returns (done: bool)
      modifies this
      ensures done <==> old(todos).Some?
      ensures !done ==> todos == old(todos)
      ensures done ==>
        && todos == Some(RemoveAll(old(todos).value, id))
        && (forall t :: t in todos.value <==> t in old(todos).value && t.id != id)
    {
      if todos.None? {
        return false;
      }
      FilterMembers(todos.value, (t: Todo) => t.id != id);
      todos := Some(RemoveAll(todos.value, id));
      done := true;
    }

    /** The Save button: the body of `PUT /api/todos` carries the whole list.
        With `todos` unassigned the handler throws before any request. */
    method SaveBody() returns (body: Option<seq<Doc>>)
      ensures body.Some? <==> todos.Some?
      ensures body.Some? ==> |body.value| == |todos.value|
      ensures body.Some? ==> forall k :: 0 <= k < |body.value| ==> body.value[k] == ToDoc(todos.value[k])
    {
      if todos.None? {
        return None;
      }
      body := Some(Outgoing(todos.value));
    }
  }
}
