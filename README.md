# Conversation store: a Dafny model

This project models the conversation store of a chat application. A
conversation is an ordered list of messages plus an id, a creation time and a
last-append time. The store creates conversations, reads one or all of them,
appends a message to one, and (in the owner-scoped contract) deletes one.
Three backends are modelled:

- `MemoryStore.InMemoryStorage` (storage.ts). A JavaScript `Map` from id to
  conversation object, with no owners. The objects are `ConversationRecord`
  instances held by reference. The store returns the same object it keeps, and
  an append pushes onto that object's messages and overwrites its `latest`.
  The Map's iteration order is its insertion order, kept as the key sequence
  `order`.
- `DeprecatedMemoryStore.InMemoryStorage` (deprecated/inMemoryStorage.ts). The
  same logic, plus a `deleteConversation` stub that always answers `false`.
- `SqlLite.SqlLiteStorage` (storage/SqlLiteStorage.ts). An owner-scoped
  backend with two tables, `conversations(id, userId, created, latest)` and
  `messages(id, conversationId, role, content, created)`. Each table is a
  sequence of rows in insertion order. The writes (create, append, delete) are
  methods that change the tables. The reads are the pure queries of module
  `SqliteTables` over them. Module `SqliteLaws` proves what each write does to
  later reads.

The shared data model of storage/storage.ts (`Role`, `Message`,
`Conversation`, and `Option` for `null`) lives in `StorageContract`.
`StorageScenarios` replays the cases of tests/storage.test.ts against the
in-memory store, and the owner lifecycle against the SQLite store. Each
scenario is proved from the store contracts alone.

Fresh ids (`randomUUID()`) and the clock (`Date.now()`) are parameters of the
writes. The in-memory create requires that its id is not already a key. The
SQLite create takes any id: an id that is already a key makes the insert fail,
and the result is `None`, as the source's `catch` returns `null`. The same
holds for the fresh message id of an append.

The row order of the SQLite queries is an assumption. The `SELECT`s have no
`ORDER BY`, and the model takes the engine to return rows in insertion order.

## Model

| member | source | states |
|---|---|---|
| `StorageContract.ConversationRecord.constructor` | storage.ts:28-33 | a new conversation object has no messages, the given id, and `created` and `latest` equal to the call time |
| `MemoryStore.InMemoryStorage.constructor` | storage.ts:23-25 | a new store holds no conversations |
| `MemoryStore.InMemoryStorage.CreateConversation` | storage.ts:27-36 | stores a fresh empty conversation under its id; the map gains exactly that key; every other conversation is unchanged; the stored object is the returned one |
| `MemoryStore.InMemoryStorage.GetConversation` | storage.ts:38-42 | null exactly when the id is not a key; otherwise the very object stored under that id, which carries that id |
| `MemoryStore.InMemoryStorage.GetConversations` | storage.ts:44-46 | one entry per key, as many as the map holds, in insertion order; every stored conversation is listed, and only stored ones |
| `MemoryStore.InMemoryStorage.AddMessageToConversation` | storage.ts:48-54 | null and no change for an absent id; otherwise the stored object now has the old messages followed by the new one, `latest` set to the call time, id and `created` kept, and every other conversation unchanged |
| `DeprecatedMemoryStore.InMemoryStorage.constructor` | deprecated/inMemoryStorage.ts:9-11 | a new store holds no conversations |
| `DeprecatedMemoryStore.InMemoryStorage.CreateConversation` | deprecated/inMemoryStorage.ts:13-22 | stores a fresh empty conversation under its id; the map gains exactly that key |
| `DeprecatedMemoryStore.InMemoryStorage.GetConversation` | deprecated/inMemoryStorage.ts:24-28 | null exactly when the id is not a key, otherwise the stored object |
| `DeprecatedMemoryStore.InMemoryStorage.GetConversations` | deprecated/inMemoryStorage.ts:30-32 | every stored object once, as many as the map holds |
| `DeprecatedMemoryStore.InMemoryStorage.AddMessageToConversation` | deprecated/inMemoryStorage.ts:34-40 | null and no change for an absent id; otherwise the message is appended at the end and `latest` set to the call time |
| `DeprecatedMemoryStore.InMemoryStorage.DeleteConversation` | deprecated/inMemoryStorage.ts:42-45 | always false, and the store is unchanged (the method may change nothing) |
| `SqliteTables.FindOwned` | storage/SqlLiteStorage.ts:47-52 | the ownership query `id = ? AND userId = ?`: a row it returns is stored and matches both id and owner; it returns none exactly when no stored row matches both |
| `SqliteTables.MessagesOf` | storage/SqlLiteStorage.ts:54-62 | the messages query yields at most one message per message row |
| `SqliteTables.GetConversationOf` | storage/SqlLiteStorage.ts:46-72 | `None` exactly when no row matches both id and owner, so a foreign conversation looks like a missing one; otherwise the conversation hydrated from a matching row, with that row's `created` and `latest` |
| `SqliteTables.CollectOwned` | storage/SqlLiteStorage.ts:80-83 | each kept result is a conversation hydrated from a stored row that the caller owns |
| `SqliteTables.GetConversationsOf` | storage/SqlLiteStorage.ts:74-85 | every listed conversation is hydrated from a row of that owner; none belongs to another owner |
| `SqliteTables.OwnedBy` | storage/SqlLiteStorage.ts:75-79 | exactly the rows whose `userId` is the caller |
| `SqliteTables.SetLatest` | storage/SqlLiteStorage.ts:103-105 | the update sets `latest` on the rows with that id and leaves every other row as it was |
| `SqliteTables.RemoveMessagesOf` | storage/SqlLiteStorage.ts:111-113 | keeps exactly the message rows of other conversations |
| `SqliteTables.RemoveOwned` | storage/SqlLiteStorage.ts:114-116 | keeps exactly the conversation rows that do not match both id and owner |
| `SqliteLaws.MessagesOfMembers` | storage/SqlLiteStorage.ts:54-62 | a message is in a conversation's list exactly when some message row with that conversation id carries its role and content |
| `SqliteLaws.MessagesOfAppend` | storage/SqlLiteStorage.ts:92-101 | inserting a message row appends its message at the end of its own conversation's list and of no other |
| `SqliteLaws.MessagesOfNone` | storage/SqlLiteStorage.ts:54-58 | a conversation with no message rows reads as having no messages |
| `SqliteLaws.RemovedMessagesGone` | storage/SqlLiteStorage.ts:111-113 | after the message delete, that conversation has no messages |
| `SqliteLaws.RemoveKeepsOtherMessages` | storage/SqlLiteStorage.ts:111-113 | the message delete leaves the messages of every other conversation unchanged |
| `SqliteLaws.FindOwnedUnique` | storage/SqlLiteStorage.ts:10-15 | with `id` as primary key, the ownership query finds each stored row by its own id and owner |
| `SqliteLaws.ForeignOwnerSeesNothing` | storage/SqlLiteStorage.ts:47-52 | a conversation is invisible to every owner but its own: another owner gets `None`, the answer for a missing id |
| `SqliteLaws.FindOwnedAppend` | storage/SqlLiteStorage.ts:36-41 | after a row insert, the ownership query gives the old match if there was one, else the new row if it matches |
| `SqliteLaws.FindOwnedSetLatest` | storage/SqlLiteStorage.ts:103-105 | the `latest` update keeps ids and owners, so the ownership query finds the same row, with the new `latest` |
| `SqliteLaws.FindOwnedRemoveOwned` | storage/SqlLiteStorage.ts:114-116 | deleting one id's owned row leaves the ownership query for every other id unchanged |
| `SqliteLaws.AppendRereads` | storage/SqlLiteStorage.ts:92-106 | after the insert and the update, the re-read conversation is the old one with the message at the end and `latest` equal to the call time |
| `SqliteLaws.AppendLeavesOthers` | storage/SqlLiteStorage.ts:92-105 | an append leaves every other conversation, for every reader, exactly as it was |
| `SqliteLaws.DeleteEffects` | storage/SqlLiteStorage.ts:111-116 | after the two deletes, the owner reads `None`, and every other conversation reads as before |
| `SqliteLaws.UniqueTail` | storage/SqlLiteStorage.ts:11 | under the primary key, the rows after the first have distinct ids, all different from the first row's |
| `SqliteLaws.RemoveOwnedChanges` | storage/SqlLiteStorage.ts:114-119 | under the primary key, the owned delete removes exactly one row when the ownership query matches and none otherwise |
| `SqliteLaws.RemoveOwnedUnique` | storage/SqlLiteStorage.ts:114-116 | the owned delete keeps conversation ids distinct |
| `SqliteLaws.SetLatestUnique` | storage/SqlLiteStorage.ts:103-105 | the `latest` update keeps conversation ids distinct |
| `SqliteLaws.MessageInsertUnique` | storage/SqlLiteStorage.ts:92-101 | inserting a message under an unused id keeps message ids distinct |
| `SqliteLaws.RemoveMessagesUnique` | storage/SqlLiteStorage.ts:111-113 | the message delete keeps message ids distinct |
| `SqliteLaws.CollectOwnedExact` | storage/SqlLiteStorage.ts:80-83 | for rows the caller owns, no `getConversation` call returns null, so the filter drops nothing and the result is each row hydrated, in order |
| `SqliteLaws.GetConversationsExact` | storage/SqlLiteStorage.ts:74-85 | the listing is exactly one hydrated conversation per row the owner holds, in row order; it contains every one of them |
| `SqliteLaws.AppendKeepsNoOrphans` | storage/SqlLiteStorage.ts:88-105 | an append to an existing conversation keeps every message row attached to a stored conversation |
| `SqliteLaws.DeleteKeepsNoOrphans` | storage/SqlLiteStorage.ts:111-116 | the two deletes keep every remaining message row attached to a stored conversation |
| `SqliteLaws.ForeignDeleteErasesMessages` | storage/SqlLiteStorage.ts:110-119 | as written, a non-owner's delete reports false and keeps the conversation row, but the owner then reads the conversation with no messages |
| `SqliteLaws.RemoveNothing` | storage/SqlLiteStorage.ts:114-116 | a delete whose predicate matches no row leaves the table unchanged |
| `SqlLite.SqlLiteStorage.constructor` | storage/SqlLiteStorage.ts:7-26 | `CREATE TABLE IF NOT EXISTS` keeps the rows the database already holds, and both primary keys hold |
| `SqlLite.SqlLiteStorage.CreateConversation` | storage/SqlLiteStorage.ts:28-44 | an id that is already a key gives `None` and changes nothing; otherwise one row with the caller as owner is added, the message table is untouched, and the result is the empty conversation; with no orphan message rows, a re-read returns that same conversation |
| `SqlLite.SqlLiteStorage.AddMessageToConversation` | storage/SqlLiteStorage.ts:87-107 | `None` and no change when no row matches id and owner, or when the message id is taken; otherwise exactly one message row is added, that conversation's `latest` is set to the call time, other rows are kept, and the result is the re-read conversation: the old one with the message at the end |
| `SqlLite.SqlLiteStorage.DeleteConversation` | storage/SqlLiteStorage.ts:109-121 | removes every message row of the id whatever the owner, then the owned row; returns true exactly when the ownership query matched; afterwards the owner reads `None` |
| `SqlLite.SqlLiteStorage.DeleteOwnedConversation` | storage/SqlLiteStorage.ts:109-121 | the corrected delete: nothing changes unless the caller owns the conversation; otherwise it removes the conversation and its messages and returns true |
| `StorageScenarios.RetrieveEachCreated` | tests/storage.test.ts:28-44 | each of two created conversations is retrieved by its own id, and the two differ |
| `StorageScenarios.UnknownIdIsNull` | tests/storage.test.ts:46-50 | a fresh store returns null for any id |
| `StorageScenarios.CountAfterCreates` | tests/storage.test.ts:54-67 | after creates under n distinct ids the listing has n entries, so none for no creates |
| `StorageScenarios.AppendToUnknownId` | tests/storage.test.ts:71-79 | appending under the created id with "x" added returns null |
| `StorageScenarios.ThreeAppends` | tests/storage.test.ts:81-95 | three appends read back as exactly `[m1, m2, m3]` |
| `StorageScenarios.LatestIsCallTime` | tests/storage.test.ts:97-106 | an append sets `latest` to the call time and keeps id and `created` |
| `StorageScenarios.OtherConversationUntouched` | tests/storage.test.ts:108-121 | appending to one conversation leaves another's messages as they were |
| `StorageScenarios.OwnerAppendsTwice` | storage/SqlLiteStorage.ts:87-107 | on any database, create then two appends give the two messages in order, and `latest` increases past `created` with the call times |
| `StorageScenarios.OwnerListsThenDeletes` | storage/SqlLiteStorage.ts:74-121 | on any database, the owner's listing includes the created conversation; deleting it reports true and it then reads `None` |
| `StorageScenarios.ForeignOwnerBlocked` | storage/SqlLiteStorage.ts:46-90 | another owner can neither read nor append to a conversation, and the owner's messages stay as they were |
| `StorageScenarios.DeleteTwice` | storage/SqlLiteStorage.ts:109-121 | deleting an owned conversation twice reports true, then false |

## Left out

- The two `Storage` interfaces (storage.ts:13-18 and storage/storage.ts:11-17) are not modelled as an interface type. Each backend class has methods with the interface's operations and result shapes: `Option<Conversation>` for `Conversation | null`, `seq<Conversation>` for the array, and `bool` for the delete.
- The deprecated class claims the owner-scoped interface but takes no owner argument. It is modelled as written, without owners.
- Clock: an operation takes one `now`. The source reads `Date.now()` twice in each create, and twice in each SQLite append (message row and `latest`). The model treats those reads as equal. The 1 ms wait in the test is not modelled.
- Randomness: id uniqueness is not derived. The in-memory create requires an unused id. For SQLite, a collision is modelled as the insert failing.
- SQLite failures other than a primary-key violation (I/O errors, a closed database) are not modelled. So the delete's `catch` path, which returns false, is never taken in the model.
- The `role` column is TEXT in the schema. The model stores the `Role` value itself, so the unchecked cast at storage/SqlLiteStorage.ts:57 is not modelled.
- The message row's `created` column is stored but never read by the source, and it is not used by the model either.
- Row order: both tables are read in insertion order, which is an assumption, since the queries have no `ORDER BY`.
- `Promise.all` in getConversations is modelled as a sequential map, and `async` as synchronous calls. Concurrency is not modelled.
- The `console.log` in the deprecated delete stub is left out.
- The SQL engine itself is left out: SQL text, prepared statements, and durability.
- The `typeof` checks of tests/storage.test.ts:11-14 are type facts, and Dafny's types state them.
- storage/SupabaseStorage.ts, the server, the auth middleware and the React front end are not part of this model.

## Findings

| source | as written | input that shows it | evidently intended | confidence | as-written member | corrected member |
|---|---|---|---|---|---|---|
| storage/SqlLiteStorage.ts:111-113 | the delete removes every message row of the id before, and regardless of, the ownership check | owner "alice" has conversation "c1" with message "hi"; "bob" calls deleteConversation("c1", "bob"); the call returns false, but alice's "c1" now has no messages | deleting a foreign or missing conversation changes nothing | high (not executed) | `SqliteLaws.ForeignDeleteErasesMessages` | `SqlLite.SqlLiteStorage.DeleteOwnedConversation` |

The class `SqlLite.SqlLiteStorage` keeps the source's delete, as written, in
`DeleteConversation`, and the scenarios use it. `DeleteOwnedConversation`
checks ownership first, then runs the same two deletes.
