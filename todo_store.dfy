/** The `todos` collection as a plain sequence in storage (insertion) order,
    and the driver calls the routes make on it: `find` and `deleteMany` by
    `userEmail`, `updateOne` and `deleteOne` by `_id`, `insertOne` and an
    ordered `insertMany`. The store knows nothing about sessions or owners:
    those rules live with the routes. */
module TodoStore {
  import opened Records

  function Ids(ts: seq<Todo>): set<Id>
  {
    set t | t in ts :: t.id
  }

  /** `_id` is the collection's key. */
  predicate UniqueIds(ts: seq<Todo>)
  {
    forall i, j :: 0 <= i < j < |ts| ==> ts[i].id != ts[j].id
  }

  /** The id generator's next value is above every id in use. */
  predicate IdsBelow(ts: seq<Todo>, next: nat)
  {
    forall t :: t in ts ==> t.id < next
  }

  /** The store's invariant. */
  predicate Keyed(ts: seq<Todo>, next: nat)
  {
    UniqueIds(ts) && IdsBelow(ts, next)
  }

  // ---------------------------------------------------------------------------
  // Filtering: `find`, `deleteMany` and the browser's `Array.prototype.filter`

  function Filter(ts: seq<Todo>, p: Todo -> bool): seq<Todo>
  {
    if ts == [] then []
    else if p(ts[0]) then [ts[0]] + Filter(ts[1..], p)
    else Filter(ts[1..], p)
  }

  predicate Owns(t: Todo, email: string)
  {
    t.userEmail == Some(email)
  }

  /** `find({ userEmail: email }).toArray()`: one user's partition, in storage order. */
  function Owned(ts: seq<Todo>, email: string): seq<Todo>
  {
    Filter(ts, (t: Todo) => Owns(t, email))
  }

  /** What `deleteMany({ userEmail: email })` leaves behind. */
  function Others(ts: seq<Todo>, email: string): seq<Todo>
  {
    Filter(ts, (t: Todo) => !Owns(t, email))
  }

  /** `ts.filter((todo) => todo._id !== id)`. */
  function RemoveAll(ts: seq<Todo>, id: Id): seq<Todo>
  {
    Filter(ts, (t: Todo) => t.id != id)
  }

  lemma {:induction false} FilterMembers(ts: seq<Todo>, p: Todo -> bool)
    ensures forall t :: t in Filter(ts, p) <==> t in ts && p(t)
  {
    if ts != [] {
      FilterMembers(ts[1..], p);
      assert ts == [ts[0]] + ts[1..];
    }
  }

  lemma {:induction false} FilterAppend(a: seq<Todo>, b: seq<Todo>, p: Todo -> bool)
    ensures Filter(a + b, p) == Filter(a, p) + Filter(b, p)
  {
    if a == [] {
      assert a + b == b;
    } else {
      assert (a + b)[0] == a[0];
      assert (a + b)[1..] == a[1..] + b;
      FilterAppend(a[1..], b, p);
    }
  }

  lemma {:induction false} FilterKeepsAll(ts: seq<Todo>, p: Todo -> bool)
    requires forall k :: 0 <= k < |ts| ==> p(ts[k])
    ensures Filter(ts, p) == ts
  {
    if ts != [] {
      FilterKeepsAll(ts[1..], p);
      assert ts == [ts[0]] + ts[1..];
    }
  }

  lemma {:induction false} FilterDropsAll(ts: seq<Todo>, p: Todo -> bool)
    requires forall k :: 0 <= k < |ts| ==> !p(ts[k])
    ensures Filter(ts, p) == []
  {
    if ts != [] {
      FilterDropsAll(ts[1..], p);
    }
  }

  /** Filtering by a weaker test first changes nothing. */
  lemma {:induction false} FilterNarrow(ts: seq<Todo>, p: Todo -> bool, q: Todo -> bool)
    requires forall t :: q(t) ==> p(t)
    ensures Filter(Filter(ts, p), q) == Filter(ts, q)
  {
    if ts != [] {
      FilterNarrow(ts[1..], p, q);
    }
  }

  lemma {:induction false} FilterCommutes(ts: seq<Todo>, p: Todo -> bool, q: Todo -> bool)
    ensures Filter(Filter(ts, p), q) == Filter(Filter(ts, q), p)
  {
    if ts != [] {
      FilterCommutes(ts[1..], p, q);
    }
  }

  lemma IdsCons(t: Todo, ts: seq<Todo>)
    ensures Ids([t] + ts) == {t.id} + Ids(ts)
  {
    assert forall u :: u in [t] + ts <==> u == t || u in ts;
  }

  lemma IdsAppend(a: seq<Todo>, b: seq<Todo>)
    ensures Ids(a + b) == Ids(a) + Ids(b)
  {
    assert forall u :: u in a + b <==> u in a || u in b;
  }

  lemma UniqueCons(t: Todo, ts: seq<Todo>)
    ensures UniqueIds([t] + ts) <==> t.id !in Ids(ts) && UniqueIds(ts)
  {
    var s := [t] + ts;
    assert forall k :: 0 <= k < |ts| ==> s[k + 1] == ts[k];
    if UniqueIds(s) {
      forall i, j | 0 <= i < j < |ts| ensures ts[i].id != ts[j].id {
        assert s[i + 1] == ts[i] && s[j + 1] == ts[j];
      }
    }
    if t.id in Ids(ts) {
      var u :| u in ts && u.id == t.id;
      var k :| 0 <= k < |ts| && ts[k] == u;
      assert s[0].id == s[k + 1].id;
    }
  }

  lemma {:induction false} FilterIds(ts: seq<Todo>, p: Todo -> bool)
    ensures Ids(Filter(ts, p)) <= Ids(ts)
  {
    FilterMembers(ts, p);
  }

  lemma {:induction false} FilterUnique(ts: seq<Todo>, p: Todo -> bool)
    requires UniqueIds(ts)
    ensures UniqueIds(Filter(ts, p))
  {
    if ts != [] {
      assert ts == [ts[0]] + ts[1..];
      UniqueCons(ts[0], ts[1..]);
      FilterUnique(ts[1..], p);
      if p(ts[0]) {
        FilterIds(ts[1..], p);
        UniqueCons(ts[0], Filter(ts[1..], p));
      }
    }
  }

  /** With `_id` as key, a record kept by a test and one kept by its
      complement never share an id. */
  lemma {:induction false} ComplementsDisjoint(ts: seq<Todo>, p: Todo -> bool, q: Todo -> bool)
    requires UniqueIds(ts)
    requires forall t :: q(t) <==> !p(t)
    ensures Ids(Filter(ts, p)) !! Ids(Filter(ts, q))
  {
    if ts != [] {
      assert ts == [ts[0]] + ts[1..];
      UniqueCons(ts[0], ts[1..]);
      ComplementsDisjoint(ts[1..], p, q);
      FilterIds(ts[1..], p);
      FilterIds(ts[1..], q);
      if p(ts[0]) {
        IdsCons(ts[0], Filter(ts[1..], p));
      } else {
        IdsCons(ts[0], Filter(ts[1..], q));
      }
    }
  }

  /** A user's partition and the records of everybody else split the store. */
  lemma {:induction false} PartitionSplits(ts: seq<Todo>, email: string)
    ensures forall t :: t in Owned(ts, email) <==> t in ts && Owns(t, email)
    ensures forall t :: t in Others(ts, email) <==> t in ts && !Owns(t, email)
    ensures |Owned(ts, email)| + |Others(ts, email)| == |ts|
  {
    FilterMembers(ts, (t: Todo) => Owns(t, email));
    FilterMembers(ts, (t: Todo) => !Owns(t, email));
    if ts != [] {
      PartitionSplits(ts[1..], email);
    }
  }

  /** Owners are disjoint: removing one user's records leaves every other
      user's partition as it was, and leaves that user's partition empty. */
  lemma PartitionAfterDeleteMany(ts: seq<Todo>, email: string, other: string)
    ensures Owned(Others(ts, email), email) == []
    ensures other != email ==> Owned(Others(ts, email), other) == Owned(ts, other)
  {
    var keep := Others(ts, email);
    FilterMembers(ts, (t: Todo) => !Owns(t, email));
    assert forall k :: 0 <= k < |keep| ==> keep[k] in keep;
    FilterDropsAll(keep, (t: Todo) => Owns(t, email));
    if other != email {
      FilterNarrow(ts, (t: Todo) => !Owns(t, email), (t: Todo) => Owns(t, other));
    }
  }

  // ---------------------------------------------------------------------------
  // `updateOne({ _id: id }, { $set: { completed } })` and the browser's
  // `todos.find(...).completed = completed`: the first record with that id

  function UpdateFirst(ts: seq<Todo>, id: Id, completed: Option<bool>): seq<Todo>
  {
    if ts == [] then []
    else if ts[0].id == id then [ts[0].(completed := completed)] + ts[1..]
    else [ts[0]] + UpdateFirst(ts[1..], id, completed)
  }

  /** Index `k` holds the first record whose id is `id`. */
  predicate FirstWithId(ts: seq<Todo>, id: Id, k: int)
  {
    0 <= k < |ts| && ts[k].id == id && forall j :: 0 <= j < k ==> ts[j].id != id
  }

  /** Only the `completed` field of the first record with that id changes. */
  lemma {:induction false} UpdateFirstShape(ts: seq<Todo>, id: Id, completed: Option<bool>)
    ensures |UpdateFirst(ts, id, completed)| == |ts|
    ensures forall k :: 0 <= k < |ts| ==>
      UpdateFirst(ts, id, completed)[k] == if FirstWithId(ts, id, k) then ts[k].(completed := completed) else ts[k]
  {
    if ts != [] {
      var r := UpdateFirst(ts, id, completed);
      if ts[0].id == id {
        forall k | 0 < k < |ts| ensures !FirstWithId(ts, id, k) {
          assert ts[0].id == id;
        }
      } else {
        UpdateFirstShape(ts[1..], id, completed);
        forall k | 0 < k < |ts| ensures FirstWithId(ts, id, k) <==> FirstWithId(ts[1..], id, k - 1) {
          if FirstWithId(ts[1..], id, k - 1) {
            forall j | 0 <= j < k ensures ts[j].id != id {
              if j > 0 { assert ts[j] == ts[1..][j - 1]; }
            }
          }
          if FirstWithId(ts, id, k) {
            forall j | 0 <= j < k - 1 ensures ts[1..][j].id != id {
              assert ts[1..][j] == ts[j + 1];
            }
          }
        }
        assert !FirstWithId(ts, id, 0);
      }
    }
  }

  /** An id that is not in the store leaves it unchanged (`updateOne` matches nothing). */
  lemma UpdateMissingId(ts: seq<Todo>, id: Id, completed: Option<bool>)
    requires id !in Ids(ts)
    ensures UpdateFirst(ts, id, completed) == ts
  {
    UpdateFirstShape(ts, id, completed);
    forall k | 0 <= k < |ts| ensures !FirstWithId(ts, id, k) {
      assert ts[k] in ts;
    }
  }

  /** With `_id` a key, the record with that id, and no other, gets the new flag;
      ids, owners and every other field stay as they were. */
  lemma UpdateByKey(ts: seq<Todo>, id: Id, completed: Option<bool>)
    requires UniqueIds(ts)
    ensures |UpdateFirst(ts, id, completed)| == |ts|
    ensures forall k :: 0 <= k < |ts| ==>
      UpdateFirst(ts, id, completed)[k] == if ts[k].id == id then ts[k].(completed := completed) else ts[k]
  {
    UpdateFirstShape(ts, id, completed);
    forall k | 0 <= k < |ts| && ts[k].id == id ensures FirstWithId(ts, id, k) {
    }
  }

  /** The update keeps the store's key invariant. */
  lemma UpdateKeepsKeys(ts: seq<Todo>, next: nat, id: Id, completed: Option<bool>)
    requires Keyed(ts, next)
    ensures Keyed(UpdateFirst(ts, id, completed), next)
    ensures Ids(UpdateFirst(ts, id, completed)) == Ids(ts)
  {
    var r := UpdateFirst(ts, id, completed);
    UpdateFirstShape(ts, id, completed);
    assert forall k :: 0 <= k < |ts| ==> r[k].id == ts[k].id;
    forall t | t in r ensures t.id in Ids(ts) && t.id < next {
      var k :| 0 <= k < |r| && r[k] == t;
      assert ts[k] in ts;
    }
    forall t | t in ts ensures t.id in Ids(r) {
      var k :| 0 <= k < |ts| && ts[k] == t;
      assert r[k] in r;
    }
  }

  // ---------------------------------------------------------------------------
  // `deleteOne({ _id: id })`: the first record with that id

  function DeleteFirst(ts: seq<Todo>, id: Id): seq<Todo>
  {
    if ts == [] then []
    else if ts[0].id == id then ts[1..]
    else [ts[0]] + DeleteFirst(ts[1..], id)
  }

  /** Deleting an id that is not in the store changes nothing. */
  lemma {:induction false} DeleteMissingId(ts: seq<Todo>, id: Id)
    requires id !in Ids(ts)
    ensures DeleteFirst(ts, id) == ts
  {
    if ts != [] {
      assert ts[0] in ts;
      assert ts == [ts[0]] + ts[1..];
      IdsCons(ts[0], ts[1..]);
      DeleteMissingId(ts[1..], id);
    }
  }

  /** With `_id` a key, `deleteOne` removes exactly the records with that id:
      the same list the browser's `filter` computes. */
  lemma {:induction false} DeleteFirstIsRemoveAll(ts: seq<Todo>, id: Id)
    requires UniqueIds(ts)
    ensures DeleteFirst(ts, id) == RemoveAll(ts, id)
  {
    if ts != [] {
      assert ts == [ts[0]] + ts[1..];
      UniqueCons(ts[0], ts[1..]);
      if ts[0].id == id {
        forall k | 0 <= k < |ts[1..]| ensures ts[1..][k].id != id {
          assert ts[1..][k] in ts[1..];
        }
        FilterKeepsAll(ts[1..], (t: Todo) => t.id != id);
      } else {
        DeleteFirstIsRemoveAll(ts[1..], id);
      }
    }
  }

  /** `deleteOne` keeps the store's key invariant and removes only records with that id. */
  lemma DeleteKeepsKeys(ts: seq<Todo>, next: nat, id: Id)
    requires Keyed(ts, next)
    ensures Keyed(DeleteFirst(ts, id), next)
    ensures forall t :: t in DeleteFirst(ts, id) <==> t in ts && t.id != id
  {
    DeleteFirstIsRemoveAll(ts, id);
    FilterUnique(ts, (t: Todo) => t.id != id);
    FilterMembers(ts, (t: Todo) => t.id != id);
  }

  // ---------------------------------------------------------------------------
  // `insertOne` and the ordered `insertMany`

  /** The outcome of a write: the new collection, the id generator, and
      whether the driver reported success. */
  datatype Batch = Batch(ts: seq<Todo>, next: nat, ok: bool)

  /** A document that carries `_id` keeps it; one without is given a fresh ObjectId. */
  function AssignedId(d: Doc, next: nat): Id
  {
    if d.id.Some? then d.id.value else next
  }

  function Bump(next: nat, id: Id): nat
  {
    if id < next then next else id + 1
  }

  /** `insertOne(d)`: a duplicate `_id` is a write error and stores nothing. */
  function InsertOne(ts: seq<Todo>, next: nat, d: Doc): Batch
  {
    var id := AssignedId(d, next);
    if id in Ids(ts) then Batch(ts, next, false)
    else Batch(ts + [WithId(d, id)], Bump(next, id), true)
  }

  /** `insertMany(docs)` (ordered): documents go in one by one; the first
      duplicate `_id` stops the batch with those before it already stored. */
  function InsertAll(ts: seq<Todo>, next: nat, docs: seq<Doc>): Batch
    decreases |docs|
  {
    if docs == [] then Batch(ts, next, true)
    else
      var b := InsertOne(ts, next, docs[0]);
      if b.ok then InsertAll(b.ts, b.next, docs[1..]) else b
  }

  /** `insertOne` keeps the key invariant; a document without `_id` always
      goes in, under the generator's fresh id. */
  lemma InsertOneKeyed(ts: seq<Todo>, next: nat, d: Doc)
    requires Keyed(ts, next)
    ensures Keyed(InsertOne(ts, next, d).ts, InsertOne(ts, next, d).next)
    ensures d.id.None? ==> InsertOne(ts, next, d) == Batch(ts + [WithId(d, next)], next + 1, true)
  {
    var id := AssignedId(d, next);
    if id !in Ids(ts) {
      var s := ts + [WithId(d, id)];
      forall i, j | 0 <= i < j < |s| ensures s[i].id != s[j].id {
        if j == |ts| {
          assert s[i] == ts[i] && ts[i] in ts;
        } else {
          assert s[i] == ts[i] && s[j] == ts[j];
        }
      }
    }
    if d.id.None? {
      assert next !in Ids(ts);
    }
  }

  lemma {:induction false} InsertAllKeyed(ts: seq<Todo>, next: nat, docs: seq<Doc>)
    requires Keyed(ts, next)
    ensures Keyed(InsertAll(ts, next, docs).ts, InsertAll(ts, next, docs).next)
    decreases |docs|
  {
    if docs != [] {
      var b := InsertOne(ts, next, docs[0]);
      InsertOneKeyed(ts, next, docs[0]);
      if b.ok {
        InsertAllKeyed(b.ts, b.next, docs[1..]);
      }
    }
  }

  /** Whatever happens, the batch only appends: the old records stay in
      place, the k-th new record keeps every field of the k-th document, and
      the batch reports success exactly when all documents went in. */
  lemma {:induction false} InsertAllAppends(ts: seq<Todo>, next: nat, docs: seq<Doc>)
    ensures var r := InsertAll(ts, next, docs);
      && |ts| <= |r.ts| <= |ts| + |docs|
      && r.ts[..|ts|] == ts
      && (forall k :: |ts| <= k < |r.ts| ==> Fits(r.ts[k], docs[k - |ts|]))
      && (r.ok <==> |r.ts| == |ts| + |docs|)
    decreases |docs|
  {
    if docs != [] {
      var b := InsertOne(ts, next, docs[0]);
      if b.ok {
        var w := WithId(docs[0], AssignedId(docs[0], next));
        assert b.ts == ts + [w];
        InsertAllAppends(b.ts, b.next, docs[1..]);
        var r := InsertAll(b.ts, b.next, docs[1..]);
        assert r.ts[..|ts|] == r.ts[..|ts| + 1][..|ts|];
        assert r.ts[|ts|] == b.ts[|ts|];
        forall k | |ts| < k < |r.ts| ensures Fits(r.ts[k], docs[k - |ts|]) {
          assert docs[1..][k - (|ts| + 1)] == docs[k - |ts|];
        }
      }
    }
  }

  predicate DistinctDocIds(docs: seq<Doc>)
  {
    forall i, j :: 0 <= i < j < |docs| ==> docs[i].id != docs[j].id
  }

  /** When every document carries its own `_id`, the batch succeeds exactly
      when those ids are pairwise distinct and none is already stored. */
  lemma {:induction false} InsertAllOwnIds(ts: seq<Todo>, next: nat, docs: seq<Doc>)
    requires forall k :: 0 <= k < |docs| ==> docs[k].id.Some?
    ensures InsertAll(ts, next, docs).ok <==>
      DistinctDocIds(docs) && forall k :: 0 <= k < |docs| ==> docs[k].id.value !in Ids(ts)
    decreases |docs|
  {
    if docs != [] {
      var id0 := docs[0].id.value;
      var b := InsertOne(ts, next, docs[0]);
      if b.ok {
        var rest := docs[1..];
        assert forall k :: 0 <= k < |rest| ==> rest[k] == docs[k + 1];
        InsertAllOwnIds(b.ts, b.next, rest);
        IdsAppend(ts, [WithId(docs[0], id0)]);
        assert Ids([WithId(docs[0], id0)]) == {id0};
        assert Ids(b.ts) == Ids(ts) + {id0};
        if DistinctDocIds(rest) && (forall k :: 0 <= k < |rest| ==> rest[k].id.value !in Ids(b.ts)) {
          forall i, j | 0 <= i < j < |docs| ensures docs[i].id != docs[j].id {
            if i == 0 {
              assert docs[j] == rest[j - 1];
            } else {
              assert docs[i] == rest[i - 1] && docs[j] == rest[j - 1];
            }
          }
        }
        if DistinctDocIds(docs) && (forall k :: 0 <= k < |docs| ==> docs[k].id.value !in Ids(ts)) {
          forall k | 0 <= k < |rest| ensures rest[k].id.value !in Ids(b.ts) {
            assert rest[k] == docs[k + 1];
            assert docs[0].id != docs[k + 1].id;
          }
          forall i, j | 0 <= i < j < |rest| ensures rest[i].id != rest[j].id {
            assert rest[i] == docs[i + 1] && rest[j] == docs[j + 1];
          }
        }
      }
    }
  }
}
