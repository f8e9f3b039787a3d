/** The Express application of server.js: the two collections, the
    requester's session slot, and one method per route. Each route body is
    the source's sequence of driver calls, here made on the sequences. */
module Server {
  import opened Records
  import opened TodoStore
  import opened Accounts

  /** `{ ...todo, userEmail: email, completed: false }`: the spread comes first,
      so the owner and the flag overwrite whatever the client sent. */
  function NewTodo(todo: Option<Doc>, email: string): Doc
  {
    var d := if todo.Some? then todo.value else EmptyDoc;
    d.(userEmail := Some(email), completed := Some(false))
  }

  /** `todos.map((todo) => ({ ...todo, userEmail: email }))`: every item,
      in order, now carries `email` and keeps every other field it had. */
  function Restamped(docs: seq<Doc>, email: string): (r: seq<Doc>)
    ensures |r| == |docs|
    ensures forall k :: 0 <= k < |docs| ==>
      r[k].userEmail == Some(email) && r[k].(userEmail := docs[k].userEmail) == docs[k]
  {
    seq(|docs|, k requires 0 <= k < |docs| => Restamp(docs[k], email))
  }

  /** The bulk replace of `POST /todos` and `PUT /api/todos` on the store:
      `deleteMany` of the user's partition first, then the mapped list goes to
      `insertMany`. A body without a `todos` list makes `todos.map` throw
      after the delete, so the route fails with the partition already gone. */
  function ReplaceAll(ts: seq<Todo>, next: nat, email: string, input: Option<seq<Doc>>): Batch
  {
    var kept := Others(ts, email);
    if input.None? then Batch(kept, next, false)
    else InsertAll(kept, next, Restamped(input.value, email))
  }

  /** The store after a bulk replace is what `deleteMany` kept followed by
      the inserted documents, each of them carrying the user's email. */
  lemma ReplaceAllShape(ts: seq<Todo>, next: nat, email: string, input: Option<seq<Doc>>)
    ensures var r := ReplaceAll(ts, next, email, input); var kept := Others(ts, email);
      && |kept| <= |r.ts|
      && r.ts == kept + r.ts[|kept|..]
      && (forall k :: |kept| <= k < |r.ts| ==> Owns(r.ts[k], email))
      && (input.None? ==> r.ts == kept && !r.ok)
      && (input.Some? ==>
            && |r.ts| <= |kept| + |input.value|
            && (forall k :: |kept| <= k < |r.ts| ==> Fits(r.ts[k], Restamp(input.value[k - |kept|], email)))
            && (r.ok <==> |r.ts| == |kept| + |input.value|))
  {
    var kept := Others(ts, email);
    var r := ReplaceAll(ts, next, email, input);
    if input.Some? {
      InsertAllAppends(kept, next, Restamped(input.value, email));
      assert r.ts == r.ts[..|kept|] + r.ts[|kept|..];
    }
  }

  /** A bulk replace keeps the store's key invariant. */
  lemma ReplaceAllKeyed(ts: seq<Todo>, next: nat, email: string, input: Option<seq<Doc>>)
    requires Keyed(ts, next)
    ensures Keyed(ReplaceAll(ts, next, email, input).ts, ReplaceAll(ts, next, email, input).next)
  {
    var kept := Others(ts, email);
    FilterUnique(ts, (t: Todo) => !Owns(t, email));
    FilterIds(ts, (t: Todo) => !Owns(t, email));
    assert Keyed(kept, next) by {
      forall t | t in kept ensures t.id < next {
        assert t.id in Ids(kept);
      }
    }
    if input.Some? {
      InsertAllKeyed(kept, next, Restamped(input.value, email));
    }
  }

  /** Partition isolation: whatever the body and however the write ends,
      a bulk replace leaves every other user's partition exactly as it was. */
  lemma ReplaceAllIsolation(ts: seq<Todo>, next: nat, email: string, input: Option<seq<Doc>>, other: string)
    requires other != email
    ensures Owned(ReplaceAll(ts, next, email, input).ts, other) == Owned(ts, other)
  {
    var r := ReplaceAll(ts, next, email, input);
    var kept := Others(ts, email);
    ReplaceAllShape(ts, next, email, input);
    var added := r.ts[|kept|..];
    FilterAppend(kept, added, (t: Todo) => Owns(t, other));
    PartitionAfterDeleteMany(ts, email, other);
    forall k | 0 <= k < |added| ensures !Owns(added[k], other) {
      assert added[k] == r.ts[|kept| + k];
    }
    FilterDropsAll(added, (t: Todo) => Owns(t, other));
  }

  /** After a bulk replace the user's partition is exactly what `insertMany` stored. */
  lemma ReplaceAllOwnIsAdded(ts: seq<Todo>, next: nat, email: string, input: Option<seq<Doc>>)
    ensures var r := ReplaceAll(ts, next, email, input);
      |Others(ts, email)| <= |r.ts| && Owned(r.ts, email) == r.ts[|Others(ts, email)|..]
  {
    var r := ReplaceAll(ts, next, email, input);
    var kept := Others(ts, email);
    ReplaceAllShape(ts, next, email, input);
    var added := r.ts[|kept|..];
    FilterAppend(kept, added, (t: Todo) => Owns(t, email));
    PartitionAfterDeleteMany(ts, email, email);
    forall k | 0 <= k < |added| ensures Owns(added[k], email) {
      assert added[k] == r.ts[|kept| + k];
    }
    FilterKeepsAll(added, (t: Todo) => Owns(t, email));
  }

  /** The user's own partition after a bulk replace: empty when the body had
      no list (the non-atomic failure); otherwise the k-th record keeps every
      field of the k-th item (`_id` and `completed` included) under the
      user's email, and the write succeeded exactly when every item is there. */
  lemma ReplaceAllPartition(ts: seq<Todo>, next: nat, email: string, input: Option<seq<Doc>>)
    ensures var r := ReplaceAll(ts, next, email, input); var mine := Owned(r.ts, email);
      && (input.None? ==> !r.ok && mine == [])
      && (input.Some? ==>
            && |mine| <= |input.value|
            && (forall k :: 0 <= k < |mine| ==> Fits(mine[k], Restamp(input.value[k], email)))
            && (r.ok <==> |mine| == |input.value|))
  {
    var r := ReplaceAll(ts, next, email, input);
    var n := |Others(ts, email)|;
    ReplaceAllShape(ts, next, email, input);
    ReplaceAllOwnIsAdded(ts, next, email, input);
    var mine := Owned(r.ts, email);
    if input.Some? {
      forall k | 0 <= k < |mine| ensures Fits(mine[k], Restamp(input.value[k], email)) {
        assert mine[k] == r.ts[n + k];
      }
    }
  }

  class App {
    var users: seq<User>
    var todos: seq<Todo>
    var nextId: nat
    /** `req.session.user` of the client making the requests. */
    var session: Option<User>

    ghost predicate Valid()
      reads this
    {
      UniqueEmails(users) && Keyed(todos, nextId)
    }

    constructor ()
      ensures Valid()
      ensures users == [] && todos == [] && nextId == 0 && session == None
    {
      users, todos, nextId, session := [], [], 0, None;
    }

    /** `POST /register`. */
    method Register(form: RegisterForm) returns (r: Response<()>)
      requires Valid()
      modifies this`users
      ensures Valid()
      ensures RegisterCheck(form).Some? ==> r == Text(400, RegisterCheck(form).value) && users == old(users)
      ensures RegisterCheck(form).None? && EmailTaken(old(users), form.email.value) ==>
        r == Text(400, EmailExists) && users == old(users)
      ensures RegisterCheck(form).None? && !EmailTaken(old(users), form.email.value) ==>
        && r == Redirect(LoginPage)
        && users == old(users) + [User(form.email.value, form.password.value, form.userName.value)]
    {
      var check := RegisterCheck(form);
      if check.Some? {
        return Text(400, check.value);
      }
      var email := form.email.value;
      if EmailTaken(users, email) {
        return Text(400, EmailExists);
      }
      var u := User(email, form.password.value, form.userName.value);
      AppendFreshEmail(users, u);
      users := users + [u];
      r := Redirect(LoginPage);
    }

    /** `POST /login`, with the string check of `LoginDecision`: a match
        becomes the session user; a failure leaves the session as it was. */
    method Login(email: Value, password: Value) returns (r: Response<User>)
      requires Valid()
      modifies this`session
      ensures Valid()
      ensures r == LoginDecision(users, email, password)
      ensures session == if r.Json? then Some(r.body) else old(session)
    {
      r := LoginDecision(users, email, password);
      if r.Json? {
        session := Some(r.body);
      }
    }

    /** `GET /logout`: not behind `isAuthenticated`; with no session it still
        just redirects. */
    method Logout() returns (r: Response<()>)
      modifies this`session
      ensures session == None && r == Redirect(LoginPage)
    {
      session := None;
      r := Redirect(LoginPage);
    }

    /** `GET /api/todos`: exactly the session user's records, in storage order. */
    method List() returns (r: Response<seq<Todo>>)
      requires Valid()
      ensures session.None? ==> r == Redirect(LoginPage)
      ensures session.Some? ==> r.Json?
      ensures session.Some? ==> forall t :: t in r.body <==> t in todos && Owns(t, session.value.email)
      ensures session.Some? ==> r.body == Owned(todos, session.value.email)
    {
      if session.None? {
        return Redirect(LoginPage);
      }
      var userTodos := Owned(todos, session.value.email);
      PartitionSplits(todos, session.value.email);
      r := Json(userTodos);
    }

    /** `POST /api/todos`: one new record owned by the session user, not
        completed, with the id `insertOne` gave it. */
    method Add(todo: Option<Doc>) returns (r: Response<Todo>)
      requires Valid()
      modifies this`todos, this`nextId
      ensures Valid()
      ensures session.None? ==> r == Redirect(LoginPage) && todos == old(todos) && nextId == old(nextId)
      ensures session.Some? ==>
        var d := NewTodo(todo, session.value.email);
        && (r.Json? <==> AssignedId(d, old(nextId)) !in Ids(old(todos)))
        && (d.id.None? ==> r.Json? && r.body.id == old(nextId))
        && (r.Json? ==>
              && todos == old(todos) + [r.body]
              && r.body.id !in Ids(old(todos))
              && Owns(r.body, session.value.email)
              && r.body.completed == Some(false)
              && r.body.task == d.task
              && (d.id.Some? ==> r.body.id == d.id.value))
        && (!r.Json? ==> r == Text(500, ServerError) && todos == old(todos) && nextId == old(nextId))
        && (r.Json? ==> nextId == Bump(old(nextId), r.body.id) && r.body.id < nextId)
    {
      if session.None? {
        return Redirect(LoginPage);
      }
      var newTodo := NewTodo(todo, session.value.email);
      InsertOneKeyed(todos, nextId, newTodo);
      var b := InsertOne(todos, nextId, newTodo);
      if !b.ok {
        return Text(500, ServerError);
      }
      var stored := WithId(newTodo, AssignedId(newTodo, nextId));
      todos, nextId := b.ts, b.next;
      r := Json(stored);
    }

    /** `PUT /api/todos/:id`: the record with that id, whoever owns it, gets
        the new `completed`; nothing else changes, and a missing id is still 200. */
    method SetCompletion(id: Id, completed: Option<bool>) returns (r: Response<()>)
      requires Valid()
      modifies this`todos
      ensures Valid()
      ensures session.None? ==> r == Redirect(LoginPage) && todos == old(todos)
      ensures session.Some? ==>
        && r == Status(200)
        && |todos| == |old(todos)|
        && (forall k :: 0 <= k < |todos| ==>
              todos[k] == if old(todos)[k].id == id then old(todos)[k].(completed := completed) else old(todos)[k])
      ensures id !in Ids(old(todos)) ==> todos == old(todos)
    {
      if session.None? {
        return Redirect(LoginPage);
      }
      UpdateByKey(todos, id, completed);
      UpdateKeepsKeys(todos, nextId, id, completed);
      if id !in Ids(todos) {
        UpdateMissingId(todos, id, completed);
      }
      todos := UpdateFirst(todos, id, completed);
      r := Status(200);
    }

    /** `DELETE /api/todos/:id`: removes the record with that id, whoever owns
        it; a missing id changes nothing and is still 200. */
    method Delete(id: Id) returns (r: Response<()>)
      requires Valid()
      modifies this`todos
      ensures Valid()
      ensures session.None? ==> r == Redirect(LoginPage) && todos == old(todos)
      ensures session.Some? ==>
        && r == Status(200)
        && todos == RemoveAll(old(todos), id)
        && (forall t :: t in todos <==> t in old(todos) && t.id != id)
      ensures id !in Ids(old(todos)) ==> todos == old(todos)
    {
      if session.None? {
        return Redirect(LoginPage);
      }
      DeleteKeepsKeys(todos, nextId, id);
      DeleteFirstIsRemoveAll(todos, id);
      if id !in Ids(todos) {
        DeleteMissingId(todos, id);
      }
      todos := DeleteFirst(todos, id);
      r := Status(200);
    }

    /** `POST /todos`: the first copy of the bulk replace. */
    method SaveTodos(input: Option<seq<Doc>>) returns (r: Response<()>)
      requires Valid()
      modifies this`todos, this`nextId
      ensures Valid()
      ensures session.None? ==> r == Redirect(LoginPage) && todos == old(todos) && nextId == old(nextId)
      ensures session.Some? ==>
        var b := ReplaceAll(old(todos), old(nextId), session.value.email, input);
        todos == b.ts && nextId == b.next && r == (if b.ok then Status(200) else Text(500, ServerError))
      ensures session.Some? ==>
        forall other :: other != session.value.email ==> Owned(todos, other) == Owned(old(todos), other)
    {
      if session.None? {
        return Redirect(LoginPage);
      }
      var email := session.value.email;
      ReplaceAllKeyed(todos, nextId, email, input);
      forall other | other != email
        ensures Owned(ReplaceAll(todos, nextId, email, input).ts, other) == Owned(todos, other)
      {
        ReplaceAllIsolation(todos, nextId, email, input, other);
      }
      todos := Others(todos, email);
      if input.None? {
        return Text(500, ServerError);
      }
      var b := InsertAll(todos, nextId, Restamped(input.value, email));
      todos, nextId := b.ts, b.next;
      r := if b.ok then Status(200) else Text(500, ServerError);
    }

    /** `PUT /api/todos`: the second copy of the bulk replace, the one the
        browser's Save button calls. Its contract is the same as SaveTodos's. */
    method ReplaceTodos(input: Option<seq<Doc>>) returns (r: Response<()>)
      requires Valid()
      modifies this`todos, this`nextId
      ensures Valid()
      ensures session.None? ==> r == Redirect(LoginPage) && todos == old(todos) && nextId == old(nextId)
      ensures session.Some? ==>
        var b := ReplaceAll(old(todos), old(nextId), session.value.email, input);
        todos == b.ts && nextId == b.next && r == (if b.ok then Status(200) else Text(500, ServerError))
      ensures session.Some? ==>
        forall other :: other != session.value.email ==> Owned(todos, other) == Owned(old(todos), other)
    {
      if session.None? {
        return Redirect(LoginPage);
      }
      var email := session.value.email;
      ReplaceAllKeyed(todos, nextId, email, input);
      forall other | other != email
        ensures Owned(ReplaceAll(todos, nextId, email, input).ts, other) == Owned(todos, other)
      {
        ReplaceAllIsolation(todos, nextId, email, input, other);
      }
      todos := Others(todos, email);
      if input.None? {
        return Text(500, ServerError);
      }
      var b := InsertAll(todos, nextId, Restamped(input.value, email));
      todos, nextId := b.ts, b.next;
      r := if b.ok then Status(200) else Text(500, ServerError);
    }
  }
}
