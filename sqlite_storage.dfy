/** The embedded relational backend of storage/SqlLiteStorage.ts: the two
    tables as state, each write a change of that state, each read a query over
    it. Fresh ids (`crypto.randomUUID()`) and the clock (`Date.now()`) are
    parameters of the writes. */
module SqlLite {
  import opened StorageContract
  import opened SqliteTables
  import opened SqliteLaws

  class SqlLiteStorage {
    /** The rows of `conversations`, in insertion order. */
    var conversations: seq<ConversationRow>
    /** The rows of `messages`, in insertion order. */
    var messages: seq<MessageRow>

    /** Both primary keys hold. */
    ghost predicate Valid()
      reads this
    {
      UniqueConversationIds(conversations) && UniqueMessageIds(messages)
    }

    /** Every message row belongs to a stored conversation. */
    ghost predicate NoOrphans()
      reads this
    {
      NoOrphanMessages(conversations, messages)
    }

    /** `new SqlLiteStorage(db)`: `CREATE TABLE IF NOT EXISTS` keeps whatever
        rows the database already holds (none for a new database). */
    constructor (conversations0: seq<ConversationRow>, messages0: seq<MessageRow>)
      requires UniqueConversationIds(conversations0) && UniqueMessageIds(messages0)
      ensures Valid() && conversations == conversations0 && messages == messages0
    {
      conversations := conversations0;
      messages := messages0;
    }

    /** `createConversation(userId)`: inserts a row for the fresh id owned by
        `userId`; when the id is already a key the insert fails and the
        result is `None`. */
    method CreateConversation(userId: string, id: string, now: int) returns (r: Option<Conversation>)
      requires Valid()
      modifies this
      ensures Valid() && messages == old(messages)
      ensures ConversationIdTaken(old(conversations), id) ==> r == None && conversations == old(conversations)
      ensures !ConversationIdTaken(old(conversations), id) ==>
        && r == Some(Conversation([], id, now, now))
        && conversations == old(conversations) + [ConversationRow(id, userId, now, now)]
      ensures old(NoOrphans()) ==> NoOrphans()
      ensures r.Some? && old(NoOrphans()) ==> GetConversation(id, userId) == r
    {
      if ConversationIdTaken(conversations, id) {
        return None;
      }
      var row := ConversationRow(id, userId, now, now);
      assert UniqueConversationIds(conversations + [row]) by {
        forall i | 0 <= i < |conversations| ensures conversations[i].id != id {
          assert conversations[i] in conversations;
        }
      }
      ghost var before := conversations;
      conversations := conversations + [row];
      r := Some(Conversation([], id, now, now));
      FindOwnedAppend(before, row, id, userId);
      if old(NoOrphans()) {
        forall m | m in messages ensures m.conversationId != id {
          var c :| c in before && c.id == m.conversationId;
        }
        MessagesOfNone(messages, id);
        forall m | m in messages ensures ConversationIdTaken(conversations, m.conversationId) {
          var c :| c in before && c.id == m.conversationId;
          assert c in conversations;
        }
      }
    }

    /** `getConversation(conversationId, userId)`. */
    function GetConversation(conversationId: string, userId: string): Option<Conversation>
      reads this
    {
      GetConversationOf(conversations, messages, conversationId, userId)
    }

    /** `getConversations(userId)`. */
    function GetConversations(userId: string): seq<Conversation>
      reads this
    {
      GetConversationsOf(conversations, messages, userId)
    }

    /** `addMessageToConversation(message, id, userId)`: checks ownership,
        inserts the message row under a fresh message id, sets the
        conversation's `latest`, and returns the re-read conversation. */
    method AddMessageToConversation(message: Message, id: string, userId: string, messageId: string, now: int)
      returns (r: Option<Conversation>)
      requires Valid()
      modifies this
      ensures Valid()
      ensures FindOwned(old(conversations), id, userId).None? ==>
        r == None && conversations == old(conversations) && messages == old(messages)
      ensures FindOwned(old(conversations), id, userId).Some? && MessageIdTaken(old(messages), messageId) ==>
        r == None && conversations == old(conversations) && messages == old(messages)
      ensures FindOwned(old(conversations), id, userId).Some? && !MessageIdTaken(old(messages), messageId) ==>
        var before := GetConversationOf(old(conversations), old(messages), id, userId).value;
        && messages == old(messages) + [MessageRow(messageId, id, message.role, message.content, now)]
        && conversations == SetLatest(old(conversations), id, now)
        && r == Some(before.(messages := before.messages + [message], latest := now))
      ensures r.Some? ==> r == GetConversation(id, userId)
      ensures old(NoOrphans()) ==> NoOrphans()
    {
      var owns := FindOwned(conversations, id, userId);
      if owns.None? {
        return None;
      }
      if MessageIdTaken(messages, messageId) {
        return None;
      }
      var row := MessageRow(messageId, id, message.role, message.content, now);
      MessageInsertUnique(messages, row);
      SetLatestUnique(conversations, id, now);
      AppendRereads(conversations, messages, id, userId, row, now);
      if NoOrphans() {
        AppendKeepsNoOrphans(conversations, messages, row, now);
      }
      messages := messages + [row];
      conversations := SetLatest(conversations, id, now);
      r := GetConversation(id, userId);
    }

    /** `deleteConversation(id, userId)`: deletes every message row of the id
        (with no owner check), then the owned conversation row, and reports
        whether exactly one conversation row went. */
    method DeleteConversation(id: string, userId: string) returns (deleted: bool)
      requires Valid()
      modifies this
      ensures Valid()
      ensures messages == RemoveMessagesOf(old(messages), id)
      ensures conversations == RemoveOwned(old(conversations), id, userId)
      ensures deleted <==> FindOwned(old(conversations), id, userId).Some?
      ensures GetConversation(id, userId) == None
      ensures old(NoOrphans()) ==> NoOrphans()
    {
      RemoveMessagesUnique(messages, id);
      RemoveOwnedChanges(conversations, id, userId);
      RemoveOwnedUnique(conversations, id, userId);
      if NoOrphans() {
        DeleteKeepsNoOrphans(conversations, messages, id, userId);
      }
      messages := RemoveMessagesOf(messages, id);
      var before := |conversations|;
      conversations := RemoveOwned(conversations, id, userId);
      var changes := before - |conversations|;
      deleted := changes == 1;
    }

    /** The delete the backend evidently intends: nothing at all happens
        unless the caller owns the conversation. */
    method DeleteOwnedConversation(id: string, userId: string) returns (deleted: bool)
      requires Valid()
      modifies this
      ensures Valid()
      ensures deleted <==> FindOwned(old(conversations), id, userId).Some?
      ensures !deleted ==> conversations == old(conversations) && messages == old(messages)
      ensures deleted ==>
        && messages == RemoveMessagesOf(old(messages), id)
        && conversations == RemoveOwned(old(conversations), id, userId)
      ensures GetConversation(id, userId) == None
      ensures old(NoOrphans()) ==> NoOrphans()
    {
      if FindOwned(conversations, id, userId).None? {
        return false;
      }
      deleted := DeleteConversation(id, userId);
    }
  }
}
