/** The two tables of storage/SqlLiteStorage.ts and the queries that the
    backend issues against them, as functions over the rows. Each table is a
    sequence of rows in insertion order; the source's `SELECT`s carry no
    `ORDER BY`, and this model takes the engine to return rows in that order. */
module SqliteTables {
  import opened StorageContract

  /** A row of `conversations(id TEXT PRIMARY KEY, userId TEXT NOT NULL,
      created INTEGER, latest INTEGER)`. */
  datatype ConversationRow = ConversationRow(id: string, userId: string, created: int, latest: int)

  /** A row of `messages(id TEXT PRIMARY KEY, conversationId TEXT, role TEXT,
      content TEXT, created INTEGER)`. */
  datatype MessageRow = MessageRow(id: string, conversationId: string, role: Role, content: string, created: int)

  /** The ownership predicate `id = ? AND userId = ?`. */
  predicate Owns(row: ConversationRow, id: string, userId: string) {
    row.id == id && row.userId == userId
  }

  /** The primary key of `conversations`. */
  ghost predicate UniqueConversationIds(rows: seq<ConversationRow>) {
    forall i, j :: 0 <= i < j < |rows| ==> rows[i].id != rows[j].id
  }

  /** The primary key of `messages`. */
  ghost predicate UniqueMessageIds(rows: seq<MessageRow>) {
    forall i, j :: 0 <= i < j < |rows| ==> rows[i].id != rows[j].id
  }

  /** An insert with this conversation id would violate the primary key. */
  predicate ConversationIdTaken(rows: seq<ConversationRow>, id: string) {
    exists row :: row in rows && row.id == id
  }

  /** An insert with this message id would violate the primary key. */
  predicate MessageIdTaken(rows: seq<MessageRow>, id: string) {
    exists row :: row in rows && row.id == id
  }

  /** Every message row belongs to a stored conversation. The schema does not
      enforce this; the backend's own writes preserve it. */
  ghost predicate NoOrphanMessages(convs: seq<ConversationRow>, msgs: seq<MessageRow>) {
    forall m :: m in msgs ==> ConversationIdTaken(convs, m.conversationId)
  }

  /** `SELECT * FROM conversations WHERE id = ? AND userId = ?` with `.get`:
      the first matching row, if any. */
  function FindOwned(rows: seq<ConversationRow>, id: string, userId: string): (r: Option<ConversationRow>)
    ensures r.Some? ==> r.value in rows && Owns(r.value, id, userId)
    ensures r.None? ==> forall row :: row in rows ==> !Owns(row, id, userId)
  {
    if rows == [] then None
    else if Owns(rows[0], id, userId) then Some(rows[0])
    else FindOwned(rows[1..], id, userId)
  }

  /** `{ role, content }` of a message row. */
  function ToMessage(row: MessageRow): Message {
    Message(row.role, row.content)
  }

  /** `SELECT * FROM messages WHERE conversationId = ?` mapped to messages. */
  function MessagesOf(rows: seq<MessageRow>, conversationId: string): (r: seq<Message>)
    ensures |r| <= |rows|
  {
    if rows == [] then []
    else (if rows[0].conversationId == conversationId then [ToMessage(rows[0])] else [])
         + MessagesOf(rows[1..], conversationId)
  }

  /** `DELETE FROM messages WHERE conversationId = ?`. */
  function RemoveMessagesOf(rows: seq<MessageRow>, conversationId: string): (r: seq<MessageRow>)
    ensures |r| <= |rows|
    ensures forall row :: row in r <==> row in rows && row.conversationId != conversationId
  {
    if rows == [] then []
    else (if rows[0].conversationId != conversationId then [rows[0]] else [])
         + RemoveMessagesOf(rows[1..], conversationId)
  }

  /** `DELETE FROM conversations WHERE id = ? AND userId = ?`. */
  function RemoveOwned(rows: seq<ConversationRow>, id: string, userId: string): (r: seq<ConversationRow>)
    ensures |r| <= |rows|
    ensures forall row :: row in r <==> row in rows && !Owns(row, id, userId)
  {
    if rows == [] then []
    else (if !Owns(rows[0], id, userId) then [rows[0]] else [])
         + RemoveOwned(rows[1..], id, userId)
  }

  /** `UPDATE conversations SET latest = ? WHERE id = ?`. */
  function SetLatest(rows: seq<ConversationRow>, id: string, now: int): (r: seq<ConversationRow>)
    ensures |r| == |rows|
    ensures forall i :: 0 <= i < |rows| ==> r[i] == if rows[i].id == id then rows[i].(latest := now) else rows[i]
  {
    if rows == [] then []
    else [if rows[0].id == id then rows[0].(latest := now) else rows[0]] + SetLatest(rows[1..], id, now)
  }

  /** `SELECT * FROM conversations WHERE userId = ?`. */
  function OwnedBy(rows: seq<ConversationRow>, userId: string): (r: seq<ConversationRow>)
    ensures |r| <= |rows|
    ensures forall row :: row in r <==> row in rows && row.userId == userId
  {
    if rows == [] then []
    else (if rows[0].userId == userId then [rows[0]] else []) + OwnedBy(rows[1..], userId)
  }

  /** A conversation assembled from its row and the message table. */
  function Hydrate(row: ConversationRow, msgs: seq<MessageRow>): Conversation {
    Conversation(MessagesOf(msgs, row.id), row.id, row.created, row.latest)
  }

  /** `getConversation(conversationId, userId)`: the ownership query, then the
      messages query, combined. A foreign conversation and a missing one both
      give `None`. */
  function GetConversationOf(convs: seq<ConversationRow>, msgs: seq<MessageRow>, conversationId: string, userId: string)
    : (r: Option<Conversation>)
    ensures r.None? <==> forall row :: row in convs ==> !Owns(row, conversationId, userId)
    ensures r.Some? ==> exists row :: row in convs && Owns(row, conversationId, userId) && r.value == Hydrate(row, msgs)
  {
    match FindOwned(convs, conversationId, userId)
    case None => None
    case Some(row) => Some(Conversation(MessagesOf(msgs, conversationId), conversationId, row.created, row.latest))
  }

  /** `getConversation(row.id, userId)` for each row of `owned`, keeping the
      non-null results (the `Promise.all` and `filter` of getConversations). */
  function CollectOwned(owned: seq<ConversationRow>, convs: seq<ConversationRow>, msgs: seq<MessageRow>, userId: string)
    : (r: seq<Conversation>)
    ensures |r| <= |owned|
    ensures forall c :: c in r ==> exists row :: row in convs && Owns(row, c.id, userId) && c == Hydrate(row, msgs)
  {
    if owned == [] then []
    else
      (match GetConversationOf(convs, msgs, owned[0].id, userId)
       case None => []
       case Some(c) => [c])
      + CollectOwned(owned[1..], convs, msgs, userId)
  }

  /** `getConversations(userId)`: every conversation of that owner, hydrated.
      None of another owner's conversations is among them. */
  function GetConversationsOf(convs: seq<ConversationRow>, msgs: seq<MessageRow>, userId: string): (r: seq<Conversation>)
    ensures |r| <= |convs|
    ensures forall c :: c in r ==> exists row :: row in convs && row.userId == userId && row.id == c.id && c == Hydrate(row, msgs)
  {
    CollectOwned(OwnedBy(convs, userId), convs, msgs, userId)
  }

  /** Hydrates every row of `rows`, in order. */
  function HydrateAll(rows: seq<ConversationRow>, msgs: seq<MessageRow>): (r: seq<Conversation>)
    ensures |r| == |rows|
    ensures forall i :: 0 <= i < |rows| ==> r[i] == Hydrate(rows[i], msgs)
  {
    if rows == [] then [] else [Hydrate(rows[0], msgs)] + HydrateAll(rows[1..], msgs)
  }
}
