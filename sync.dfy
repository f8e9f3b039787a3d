/** How the page's local list and the user's partition on the server are
    reconciled: the Save button's bulk replace, and the add and delete round
    trips. */
module Sync {
  import opened Records
  import opened TodoStore
  import opened Server
  import opened Client

  /** The stored form of the local list once the server has re-stamped its
      documents: each record now belongs to `email` and keeps its `_id` and
      every other field. */
  function Stamped(local: seq<Todo>, email: string): (r: seq<Todo>)
    ensures |r| == |local|
    ensures forall k :: 0 <= k < |local| ==>
      Owns(r[k], email) && r[k].(userEmail := local[k].userEmail) == local[k]
  {
    seq(|local|, k requires 0 <= k < |local| => WithId(Restamp(ToDoc(local[k]), email), local[k].id))
  }

  /** Save followed by the server's bulk replace. The write succeeds exactly
      when the local ids are pairwise distinct and no other user's record
      holds one of them; then the user's partition is the local list, in its
      order, stamped with the user's email. Other partitions never change. */
  lemma {:induction false} SaveReplacesPartition(ts: seq<Todo>, next: nat, email: string, local: seq<Todo>)
    ensures var r := ReplaceAll(ts, next, email, Some(Outgoing(local)));
      r.ok <==> UniqueIds(local) && forall k :: 0 <= k < |local| ==> local[k].id !in Ids(Others(ts, email))
    ensures var r := ReplaceAll(ts, next, email, Some(Outgoing(local)));
      r.ok ==> Owned(r.ts, email) == Stamped(local, email)
    ensures var r := ReplaceAll(ts, next, email, Some(Outgoing(local)));
      forall other :: other != email ==> Owned(r.ts, other) == Owned(ts, other)
  {
    var body := Outgoing(local);
    var docs := Restamped(body, email);
    var kept := Others(ts, email);
    var r := ReplaceAll(ts, next, email, Some(body));
    assert forall k :: 0 <= k < |docs| ==> docs[k].id == Some(local[k].id);
    InsertAllOwnIds(kept, next, docs);
    assert DistinctDocIds(docs) <==> UniqueIds(local) by {
      assert forall i, j :: 0 <= i < j < |docs| ==> (docs[i].id != docs[j].id <==> local[i].id != local[j].id);
    }
    ReplaceAllPartition(ts, next, email, Some(body));
    var mine := Owned(r.ts, email);
    if r.ok {
      forall k | 0 <= k < |local| ensures mine[k] == local[k].(userEmail := Some(email)) {
        assert Fits(mine[k], Restamp(body[k], email));
      }
    }
    forall other | other != email ensures Owned(r.ts, other) == Owned(ts, other) {
      ReplaceAllIsolation(ts, next, email, Some(body), other);
    }
  }

  /** Loading the partition and saving it back unchanged succeeds and leaves
      the partition as `GET /api/todos` returns it. */
  lemma LoadThenSaveKeepsPartition(ts: seq<Todo>, next: nat, email: string)
    requires Keyed(ts, next)
    ensures var r := ReplaceAll(ts, next, email, Some(Outgoing(Owned(ts, email))));
      r.ok && Owned(r.ts, email) == Owned(ts, email)
  {
    var local := Owned(ts, email);
    FilterUnique(ts, (t: Todo) => Owns(t, email));
    ComplementsDisjoint(ts, (t: Todo) => Owns(t, email), (t: Todo) => !Owns(t, email));
    forall k | 0 <= k < |local| ensures local[k].id !in Ids(Others(ts, email)) {
      assert local[k] in local;
      assert local[k].id in Ids(local);
    }
    PartitionSplits(ts, email);
    forall k | 0 <= k < |local| ensures local[k].(userEmail := Some(email)) == local[k] {
      assert local[k] in local;
    }
    SaveReplacesPartition(ts, next, email, local);
  }

  /** A checkbox change reaches the server only through Save: after loading
      the partition, toggling an item and saving, the partition is the
      page's toggled list. */
  lemma ToggleThenSave(ts: seq<Todo>, next: nat, email: string, id: Id, checked: bool)
    requires Keyed(ts, next)
    ensures var local := UpdateFirst(Owned(ts, email), id, Some(checked));
      var r := ReplaceAll(ts, next, email, Some(Outgoing(local)));
      r.ok && Owned(r.ts, email) == local
  {
    var owned := Owned(ts, email);
    var local := UpdateFirst(owned, id, Some(checked));
    FilterUnique(ts, (t: Todo) => Owns(t, email));
    FilterIds(ts, (t: Todo) => Owns(t, email));
    assert Keyed(owned, next) by {
      forall t | t in owned ensures t.id < next {
        assert t.id in Ids(owned);
      }
    }
    UpdateKeepsKeys(owned, next, id, Some(checked));
    UpdateFirstShape(owned, id, Some(checked));
    ComplementsDisjoint(ts, (t: Todo) => Owns(t, email), (t: Todo) => !Owns(t, email));
    PartitionSplits(ts, email);
    forall k | 0 <= k < |local| ensures local[k].id !in Ids(Others(ts, email)) && Owns(local[k], email) {
      assert owned[k] in owned;
      assert local[k].id == owned[k].id;
      assert local[k] in local;
    }
    SaveReplacesPartition(ts, next, email, local);
  }

  /** Adding on the server and appending the answer on the page keeps a
      loaded list equal to the partition. */
  lemma AddKeepsInSync(ts: seq<Todo>, next: nat, email: string, todo: Option<Doc>)
    requires Keyed(ts, next)
    ensures var d := NewTodo(todo, email); var b := InsertOne(ts, next, d);
      b.ok ==> Owned(b.ts, email) == Owned(ts, email) + [WithId(d, AssignedId(d, next))]
  {
    var d := NewTodo(todo, email);
    var w := WithId(d, AssignedId(d, next));
    FilterAppend(ts, [w], (t: Todo) => Owns(t, email));
  }

  /** Deleting on the server and filtering on the page keeps a loaded list
      equal to the partition. */
  lemma DeleteKeepsInSync(ts: seq<Todo>, email: string, id: Id)
    requires UniqueIds(ts)
    ensures Owned(DeleteFirst(ts, id), email) == RemoveAll(Owned(ts, email), id)
  {
    DeleteFirstIsRemoveAll(ts, id);
    FilterCommutes(ts, (t: Todo) => t.id != id, (t: Todo) => Owns(t, email));
  }
}

/** A verified walkthrough of one session: register, log in, add one todo,
    list it, save an empty list, list nothing. Every step is read off the
    routes' contracts alone. */
module Scenario {
  import opened Records
  import opened TodoStore
  import opened Accounts
  import opened Server

  method AliceSession()
  {
    var app := new App();
    var email, password := "alice@example.com", "pw12345678";
    var form := RegisterForm(Some(email), Some(password), Some(password), Some("Alice"));
    var registered := app.Register(form);
    assert registered == Redirect(LoginPage);

    var loggedIn := app.Login(Str(email), Str(password));
    RegisteredUserCanLogIn([], User(email, password, "Alice"));
    assert loggedIn == Json(User(email, password, "Alice"));
    assert app.session == Some(User(email, password, "Alice"));

    var added := app.Add(Some(Doc(None, Some("buy milk"), None, None)));
    assert added.Json?;
    var milk := added.body;
    assert milk.task == Some("buy milk") && milk.completed == Some(false) && Owns(milk, email);

    var listed := app.List();
    assert app.todos == [milk];
    FilterKeepsAll([milk], (t: Todo) => Owns(t, email));
    assert listed == Json([milk]);

    var saved := app.ReplaceTodos(Some([]));
    // 200 because the model counts an empty `insertMany` batch as a success.
    assert saved == Status(200);
    PartitionAfterDeleteMany([milk], email, email);
    var relisted := app.List();
    assert relisted == Json([]);
  }
}
