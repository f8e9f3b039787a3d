# Todo synchronisation and authorisation, in Dafny

A model of the server and the todo page of a session-authenticated todo
list. The server (`server.js`) is an Express application over two MongoDB
collections, `users` and `todos`. The page (`Client/todos.js`) keeps a local
`todos` list and reconciles it with the server.

The model turns each collection into a sequence in storage order. Each driver
call (`find`, `findOne`, `insertOne`, ordered `insertMany`, `deleteMany`,
`deleteOne`, `updateOne`) becomes a function on those sequences. The
requester's `req.session.user` becomes an `Option<User>` slot. Each route is
a method of the class `Server.App` and makes its driver calls in the
source's order. The page is the class `Client.TodoPage`, and each event
handler is one method on the page's list.

Files and modules:

- `records.dfy` (`Records`): documents, users and responses. `Doc` is a todo as
  a request body carries it, with every field optional. `Todo` is a stored
  todo, which always has an `_id`. `Response` is a redirect, a status with
  text, a bare status, or JSON.
- `todo_store.dfy` (`TodoStore`): the driver calls on the `todos` collection and
  their lemmas. These cover partitions by owner, update and delete of the
  first record with an id, and ordered insertion that stops at a duplicate
  `_id`. The store's invariant `Keyed` says that `_id` is a key and that the
  id generator's next value is unused.
- `accounts.dfy` (`Accounts`): registration's validation chain and login's
  credential lookup. Login is modelled both as written and with the string
  check it needs (see "Findings").
- `server.dfy` (`Server`): the bulk-replace function `ReplaceAll` and its
  lemmas, and the class `App` with one method per route.
- `client.dfy` (`Client`): the page's list and its handlers.
- `sync.dfy` (`Sync`, `Scenario`): lemmas that connect the page's Save, add and
  delete with the server's routes. `Scenario.AliceSession` is a verified
  walkthrough of one session, read off the route contracts alone: register,
  log in, add, list, save an empty list, list again.

The authentication gate `isAuthenticated` (server.js:29-35) is the first step
of every todo route method. With no session user, the method answers
`Redirect("/login")` and changes nothing.

Facts about the code that a reader of the page scripts might not expect:

- `POST /register` answers 400 with a text message, or redirects to `/login`
  (server.js:53-92). `Client/register.js` parses the answer as JSON and looks
  for `error` or `success` fields (register.js:22-27), which the route never
  sends.
- `PUT /api/todos/:id` answers 200 even when no record has the id
  (server.js:179-184).
- The bulk replace is not atomic: it deletes the user's records before it
  maps the body's list (server.js:271-278). It stores each item's
  `completed` exactly as sent.
- `POST /todos` and `PUT /api/todos` hold the same body (server.js:141-167,
  261-287). Both call `insertMany` even for an empty list.
- The todo's payload field is `task` (todos.js:45-46).

## Model

| member | source | states |
|---|---|---|
| Accounts.RegisterCheck | server.js:53-65 | The form passes iff all four fields are non-empty, password equals repeatPassword and it has at least 8 characters. Otherwise the 400 message follows the source's order: missing fields, then mismatch, then too short. |
| Accounts.EmailTaken | server.js:73-78 | `findOne({ email })` finds a user. Its properties are carried by `Accounts.AppendFreshEmail`, `Accounts.RegisteredUserCanLogIn` and `Server.App.Register`. |
| Accounts.AppendFreshEmail | server.js:73-88 | Appending a user whose email is not yet stored keeps emails unique. |
| Accounts.FindMatch | server.js:114 | `findOne` with two query values finds a user iff some stored user's email and password both match them (equality for a string, inequality for `{"$ne": s}`); the user found is stored and matches both. |
| Accounts.FindUser | server.js:114 | With two strings, finds a user iff some stored user has exactly that email and that password; the user found is stored and matches both. |
| Accounts.LoginAsWritten | server.js:101-121 | The route as written on any JSON field values: a falsy field gives 400 before any lookup, no match gives 401, and success holds iff both fields are truthy and some user's fields match both query values. |
| Accounts.NotEqualBypassesPassword | server.js:104-121 | As written, a body whose password is `{"$ne": ""}` logs in as the registered user with the given email, without that user's password. |
| Accounts.LoginDecision | server.js:104-121 | The corrected login: a field that is not a non-empty string gives 400 before any lookup. No match gives 401 "Invalid email or password". Success holds iff both fields are non-empty strings and a stored user has exactly both, and returns that record. |
| Accounts.LoginAgreesOnStrings | server.js:104-121 | On string fields the corrected login gives the same answer as the route as written. |
| Accounts.UnknownEmailLooksLikeWrongPassword | server.js:114-116 | An unknown email and a known email with a wrong password get the identical 401 answer. |
| Accounts.RegisteredUserCanLogIn | server.js:81-88 | A user appended under a free email logs in with the registered credentials and gets exactly that record back. |
| Accounts.LoginIdentifiesUser | server.js:114 | With unique emails, two successful logins for one email used the same password and found the same record. |
| TodoStore.Owned | server.js:201-203 | `find({ userEmail })` in storage order. Its properties are carried by `TodoStore.PartitionSplits` and `TodoStore.PartitionAfterDeleteMany`. |
| TodoStore.Others | server.js:271 | What `deleteMany({ userEmail })` keeps. Its properties are carried by `TodoStore.PartitionSplits` and `TodoStore.PartitionAfterDeleteMany`. |
| TodoStore.RemoveAll | Client/todos.js:80 | The page's filter by `_id`. Its properties are carried by `TodoStore.DeleteFirstIsRemoveAll` and `Client.TodoPage.Remove`. |
| TodoStore.UpdateFirst | server.js:179-182 | `updateOne` by `_id`, and the page's find-and-set at Client/todos.js:68-69. Its properties are carried by `TodoStore.UpdateFirstShape`, `TodoStore.UpdateMissingId`, `TodoStore.UpdateByKey` and `TodoStore.UpdateKeepsKeys`. |
| TodoStore.DeleteFirst | server.js:249 | `deleteOne` by `_id`. Its properties are carried by `TodoStore.DeleteMissingId`, `TodoStore.DeleteFirstIsRemoveAll` and `TodoStore.DeleteKeepsKeys`. |
| TodoStore.InsertOne | server.js:229-230 | `insertOne`: a duplicate `_id` fails and stores nothing. Its properties are carried by `TodoStore.InsertOneKeyed` and `Server.App.Add`. |
| TodoStore.InsertAll | server.js:278 | The ordered `insertMany`. Its properties are carried by `TodoStore.InsertAllKeyed`, `TodoStore.InsertAllAppends` and `TodoStore.InsertAllOwnIds`. |
| TodoStore.PartitionSplits | server.js:201-203 | A record is in a user's partition iff it is stored with that `userEmail`. The partition and the rest split the store. |
| TodoStore.PartitionAfterDeleteMany | server.js:271 | After `deleteMany` by email, that user's partition is empty and every other user's partition is unchanged. |
| TodoStore.UpdateFirstShape | server.js:179-182 | `updateOne` by `_id` changes only the `completed` field, and only of the first record with that id. Length and all other records are kept. |
| TodoStore.UpdateMissingId | server.js:179-184 | Updating an id that is not stored leaves the store unchanged. |
| TodoStore.UpdateByKey | server.js:179-182 | With unique ids, exactly the record with that id gets the new `completed`, whoever owns it. There is no owner check. |
| TodoStore.UpdateKeepsKeys | server.js:179-182 | The update keeps the set of ids and the store invariant. |
| TodoStore.DeleteMissingId | server.js:249-251 | Deleting an id that is not stored leaves the store unchanged. |
| TodoStore.DeleteFirstIsRemoveAll | server.js:249 | With unique ids, `deleteOne` by `_id` removes exactly the records with that id. This is the list the page's filter computes. |
| TodoStore.DeleteKeepsKeys | server.js:249 | `deleteOne` keeps the store invariant. A record survives iff it was stored and has another id. |
| TodoStore.InsertOneKeyed | server.js:229-230 | `insertOne` keeps the store invariant. A document without `_id` always goes in, under a fresh id. |
| TodoStore.InsertAllKeyed | server.js:278 | The ordered `insertMany` keeps the store invariant. |
| TodoStore.InsertAllAppends | server.js:278 | `insertMany` only appends, and stored records stay in place. The k-th new record keeps every field of the k-th document. It reports success iff every document went in. |
| TodoStore.InsertAllOwnIds | server.js:278 | When every document carries an `_id`, `insertMany` succeeds iff those ids are pairwise distinct and none is already stored. |
| Server.NewTodo | server.js:223-227 | The spread of the added todo with the owner and `completed = false` written last. Its properties are carried by `Server.App.Add` and `Sync.AddKeepsInSync`. |
| Server.Restamped | server.js:274-277 | Every item, in order, carries the session email and keeps every other field it had. |
| Server.ReplaceAll | server.js:271-278 | The bulk replace on the store. Its properties are carried by `Server.ReplaceAllShape`, `Server.ReplaceAllKeyed`, `Server.ReplaceAllIsolation`, `Server.ReplaceAllOwnIsAdded` and `Server.ReplaceAllPartition`. |
| Server.ReplaceAllShape | server.js:271-278 | After a bulk replace, the store is what `deleteMany` kept followed by the inserted records, all owned by the user. A body without a list fails after the delete. |
| Server.ReplaceAllKeyed | server.js:271-278 | A bulk replace keeps the store invariant. |
| Server.ReplaceAllIsolation | server.js:271-278 | Whatever the body and however the write ends, every other user's partition is unchanged. |
| Server.ReplaceAllOwnIsAdded | server.js:271-278 | After a bulk replace, the user's partition is exactly what `insertMany` stored. |
| Server.ReplaceAllPartition | server.js:271-278 | With no list in the body, the write fails and the user's partition is empty (not atomic). Otherwise the k-th record keeps every field of the k-th item, re-stamped with the session email, and success holds iff every item is stored. |
| Server.App.Register | server.js:49-97 | A failed validation answers 400 and stores nothing. A taken email answers 400 and stores nothing. Otherwise exactly `{email, password, userName}` is appended and the answer redirects to `/login`. |
| Server.App.Login | server.js:100-128 | The answer is the corrected `LoginDecision` on the body's JSON values. Only a match sets the session user, to the stored record. A failure keeps the session. |
| Server.App.Logout | server.js:131-134 | The session is destroyed and the answer redirects to `/login`, with or without a session. |
| Server.App.List | server.js:193-211 | Without a session, redirects. Otherwise answers exactly the session user's records, in storage order. |
| Server.App.Add | server.js:214-239 | Without a session, redirects. Otherwise appends one record owned by the session email with `completed = false`, overriding client values, and leaves the others unchanged. A missing `_id` gets a fresh one. A duplicate `_id` answers 500 and stores nothing and leaves the id generator as it was. On success the generator has moved past the new id. |
| Server.App.SetCompletion | server.js:169-191 | Without a session, redirects. Otherwise only the `completed` field of the record with that id changes, with no owner check. A missing id changes nothing. The answer is 200 either way. |
| Server.App.Delete | server.js:240-258 | Without a session, redirects. Otherwise only the record with that id is removed, with no owner check. A missing id changes nothing. The answer is 200 either way. |
| Server.App.SaveTodos | server.js:141-167 | Without a session, redirects. Otherwise the new store is `ReplaceAll` of the old one: 200 on success, 500 on failure. Other users' partitions never change. |
| Server.App.ReplaceTodos | server.js:261-287 | The same contract as `SaveTodos`. The two copies of the route behave identically. |
| Client.Outgoing | Client/todos.js:93 | The Save body holds the whole local list in order. Each document names its record's `_id`, and the record is rebuilt exactly from the document under that id. |
| Client.TodoPage.Load | Client/todos.js:35-40 | A JSON answer replaces the local list wholesale. Any other answer leaves it as it was. |
| Client.TodoPage.Append | Client/todos.js:56-58 | The returned record goes at the end and earlier items are unchanged. A non-JSON answer or an unassigned list changes nothing. |
| Client.TodoPage.Toggle | Client/todos.js:64-70 | Sets `completed` only on the first item with that `_id` and sends nothing. An absent id throws and changes nothing. |
| Client.TodoPage.Remove | Client/todos.js:77-81 | After the DELETE resolves (any status), every item with that `_id` goes and the rest keep their order. |
| Client.TodoPage.SaveBody | Client/todos.js:87-94 | The request body is the entire current list. With the list unassigned, no request is sent. |
| Sync.SaveReplacesPartition | Client/todos.js:87-94 | Save then bulk replace succeeds iff the local ids are distinct and unused by other users. Then the user's partition is the local list stamped with the user's email. Other partitions are unchanged. |
| Sync.LoadThenSaveKeepsPartition | Client/todos.js:35-40 | Saving back the list as loaded succeeds and leaves the partition as `GET /api/todos` returns it. |
| Sync.ToggleThenSave | Client/todos.js:64-70 | A checkbox change reaches the server only through Save. After load, toggle and save, the partition is the toggled list. |
| Sync.AddKeepsInSync | Client/todos.js:56-58 | When the server adds a record and the page appends the answer, a loaded list still equals the partition. |
| Sync.DeleteKeepsInSync | Client/todos.js:77-81 | When the server deletes by id and the page filters by id, a loaded list still equals the partition. |

## Findings

| source | as written | input that shows it | evidently intended | confidence | as-written member | corrected member |
|---|---|---|---|---|---|---|
| server.js:101-114 | `email` and `password` come from the JSON body untyped; an object passes `!password` and reaches `findOne({ email, password })` as a query operator | `{"email": "alice@example.com", "password": {"$ne": ""}}` logs in as the registered user alice@example.com | only a user whose stored email and password equal the two strings logs in | high; not executed | Accounts.NotEqualBypassesPassword | Accounts.LoginDecision |

## Left out

- Page and static serving: the `sendFile` routes, `express.static`, body parsers, session middleware options, `app.listen` and console logging.
- Connection handling: the per-request `client.connect()`/`client.close()` and storage faults. The 500 that a lost connection causes is not modelled. The only 500s modelled are a missing `todos` list and a duplicate `_id`.
- `new ObjectId(todoId)` throwing on a malformed id (server.js:180, 249). The routes take an id that has already been parsed.
- Id encoding: the model treats an `_id` echoed back by the page as the same id as the one the server sent. An ObjectId crosses JSON as a hex string, and the bulk replace stores that string as the `_id` (server.js:274-278).
- Sync.SaveReplacesPartition, and the 500 answers of Server.App.Add, Server.App.SaveTodos and Server.App.ReplaceTodos for an `_id` the page sent: in the source that `_id` is the hex string `res.json` made of an ObjectId (server.js:204, todos.js:93), and `insertOne`/`insertMany` (server.js:229, 278) compare `_id`s by type and value. A page-sent `_id` therefore blocks the write only when a record is already stored under that same string, by an earlier bulk replace; it never collides with a record that still carries the ObjectId `insertOne` gave it. The model counts an ObjectId and its hex string as one id, so it also reports a duplicate in that second case (for instance a Save from a tab whose session has switched to another user holding the original records).
- Sync.LoadThenSaveKeepsPartition: the first Save re-stores every record of the partition under the hex-string form of its `_id` (server.js:271-278). The partition then lists the same, but the stored records are no longer the ones loaded: their `_id`s have changed type, with the consequence in the next line. The model counts the two forms of an id as one id.
- Sync.DeleteKeepsInSync, Server.App.Delete and Server.App.SetCompletion: once a list has been saved, its records carry string `_id`s, and `deleteOne`/`updateOne` on `new ObjectId(id)` (server.js:180, 249) match none of them while still answering 200. The page drops the item anyway (todos.js:80), and it comes back on the next load. The model keeps saved records reachable by id, so these contracts hold only for records that still carry the driver's ObjectId.
- The driver's treatment of an empty `insertMany` batch. The model counts it as a success. The store state is the same either way, but the driver may answer 500 instead of 200.
- Id generation: the driver's ObjectId generator is a counter `nextId`. A client-supplied `_id` at or above it moves it forward.
- Body value types outside login. A `todos` value that is not an array is treated like a missing one (both make `todos.map` throw). Array items that are not objects are not modelled. An item's fields, and `completed` in `PUT /api/todos/:id`, are modelled with their intended types (a string `task`, a boolean `completed`, an id `_id`).
- Server.App.Register: registration fields are strings in the model. A non-string value is not modelled. A number passes every check: with `{"password": 1, "repeatPassword": 1}`, `!1` and `1 !== 1` are false and `(1).length < 8` is `undefined < 8`, also false, so a one-digit password registers. An object email would reach `findOne({ email })` (server.js:73) as a query operator: `{"$ne": ""}` matches any stored user.
- Accounts.LoginAsWritten: query operators other than `$ne` (`$gt`, `$regex`, `$in`, …) are not modelled, nor `$ne` with a value that is not a string (`{"$ne": null}`, `{"$ne": 1}`), which matches every stored string; `NotEqual(s)` with a string `s` is enough to show the bypass.
- Server.App.Login: models the corrected `LoginDecision`; the route as written is `Accounts.LoginAsWritten` (see Findings).
- `Accounts.RegisterCheck`: the password length counts Unicode scalar values. JavaScript's `length` counts UTF-16 code units, so the two differ for characters outside the Basic Multilingual Plane.
- The user record's `_id`. The login answer is the whole stored user, plaintext password included. No hashing exists in the source.
- Concurrency: several clients, several sessions, and races between a bulk replace and single-item requests. The model has one session slot and runs requests one at a time.
- The page's rendering, user banner, alerts, logout button, and the `register.js`/`login.js` scripts. Those scripts contain no logic beyond DOM reads and `fetch`.
- Network failure of the page's `fetch` (the promise rejects, so no handler continuation runs).
