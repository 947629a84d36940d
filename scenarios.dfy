/** Clients of the stores that replay the cases of tests/storage.test.ts
    against InMemoryStorage, and the owner lifecycle against SqlLiteStorage.
    Each is proved from the stores' contracts alone. */
module StorageScenarios {
  import opened StorageContract
  import opened Sequences
  import MemoryStore
  import SqliteTables
  import SqliteLaws
  import SqlLite

  /** Two created conversations are each retrieved by their own id, and they
      differ from each other. */
  method RetrieveEachCreated(id1: string, id2: string, t1: int, t2: int)
    returns (created1: Conversation, created2: Conversation, got1: Option<Conversation>, got2: Option<Conversation>)
    requires id1 != id2
    ensures got1 == Some(created1) && got2 == Some(created2)
    ensures created1 != created2 && got1 != Some(created2) && got2 != Some(created1)
  {
    var store := new MemoryStore.InMemoryStorage();
    var c1 := store.CreateConversation(id1, t1);
    var c2 := store.CreateConversation(id2, t2);
    created1, created2 := c1.Value(), c2.Value();
    var r1 := store.GetConversation(c1.id);
    var r2 := store.GetConversation(c2.id);
    got1 := if r1 == null then None else Some(r1.Value());
    got2 := if r2 == null then None else Some(r2.Value());
  }

  /** A fresh store knows no id. */
  method UnknownIdIsNull(id: string) returns (found: ConversationRecord?)
    ensures found == null
  {
    var store := new MemoryStore.InMemoryStorage();
    found := store.GetConversation(id);
  }

  /** After one create per fresh id the store lists exactly that many
      conversations; with no ids it lists none. */
  method CountAfterCreates(ids: seq<string>, now: int) returns (count: nat)
    requires Distinct(ids)
    ensures count == |ids|
  {
    var store := new MemoryStore.InMemoryStorage();
    var i := 0;
    while i < |ids|
      invariant 0 <= i <= |ids|
      invariant store.Valid() && store.order == ids[..i]
    {
      assert ids[i] !in ids[..i] by {
        forall k | 0 <= k < i ensures ids[..i][k] != ids[i] {
          assert ids[..i][k] == ids[k];
        }
      }
      assert ids[..i + 1] == ids[..i] + [ids[i]];
      var _ := store.CreateConversation(ids[i], now);
      i := i + 1;
    }
    count := |store.GetConversations()|;
  }

  /** Appending under an id that is not a key returns null. */
  method AppendToUnknownId(id: string, t0: int, t1: int) returns (result: ConversationRecord?)
    ensures result == null
  {
    var store := new MemoryStore.InMemoryStorage();
    var c := store.CreateConversation(id, t0);
    var badId := c.id + "x";
    assert |badId| != |c.id|;
    result := store.AddMessageToConversation(Message(User, "hi Claude"), badId, t1);
  }

  /** Three appends read back as exactly the three messages, in order. */
  method ThreeAppends(id: string, m1: Message, m2: Message, m3: Message, t0: int, t1: int, t2: int, t3: int)
    returns (after: seq<Message>)
    ensures |after| == 3 && after[0] == m1 && after[1] == m2 && after[2] == m3
  {
    var store := new MemoryStore.InMemoryStorage();
    var c := store.CreateConversation(id, t0);
    var r1 := store.AddMessageToConversation(m1, c.id, t1);
    assert r1 == c && c.messages == [m1];
    var r2 := store.AddMessageToConversation(m2, c.id, t2);
    assert r2 == c && c.messages == [m1] + [m2];
    var r3 := store.AddMessageToConversation(m3, c.id, t3);
    assert r3 == c && c.messages == [m1] + [m2] + [m3];
    var found := store.GetConversation(c.id);
    after := found.messages;
  }

  /** An append sets `latest` to the call time and keeps `created`. */
  method LatestIsCallTime(id: string, t0: int, t1: int) returns (originalLatest: int, updated: Conversation)
    ensures originalLatest == t0 && updated.latest == t1 && updated.created == t0 && updated.id == id
  {
    var store := new MemoryStore.InMemoryStorage();
    var c := store.CreateConversation(id, t0);
    originalLatest := c.latest;
    var u := store.AddMessageToConversation(Message(User, "hi"), c.id, t1);
    updated := u.Value();
  }

  /** Appending to one conversation leaves another's messages as they were. */
  method OtherConversationUntouched(id1: string, id2: string, t0: int, t1: int, t2: int)
    returns (before: seq<Message>, after: seq<Message>)
    requires id1 != id2
    ensures after == before == []
  {
    var store := new MemoryStore.InMemoryStorage();
    var c1 := store.CreateConversation(id1, t0);
    var c2 := store.CreateConversation(id2, t1);
    before := c2.messages;
    assert store.Contents()[id2] == c2.Value();
    var _ := store.AddMessageToConversation(Message(User, "hi"), c1.id, t2);
    var found := store.GetConversation(c2.id);
    assert store.Contents()[id2] == found.Value();
    after := found.messages;
  }

  /** On any database where the fresh ids are unused: create, then two
      appends; the conversation holds both messages in order and `latest` has
      moved past `created`. */
  method OwnerAppendsTwice(convs0: seq<SqliteTables.ConversationRow>, msgs0: seq<SqliteTables.MessageRow>,
                           user: string, id: string, hiId: string, helloId: string, t0: int, t1: int, t2: int)
    returns (afterFirst: Conversation, afterSecond: Conversation)
    requires SqliteTables.UniqueConversationIds(convs0) && SqliteTables.UniqueMessageIds(msgs0)
    requires SqliteTables.NoOrphanMessages(convs0, msgs0) && !SqliteTables.ConversationIdTaken(convs0, id)
    requires !SqliteTables.MessageIdTaken(msgs0, hiId) && !SqliteTables.MessageIdTaken(msgs0, helloId)
    requires hiId != helloId && t0 < t1 < t2
    ensures afterFirst.messages == [Message(User, "hi")] && afterFirst.latest > afterFirst.created
    ensures afterSecond.messages == afterFirst.messages + [Message(Assistant, "hello")]
    ensures afterSecond.latest > afterFirst.latest
  {
    var store := new SqlLite.SqlLiteStorage(convs0, msgs0);
    var created := store.CreateConversation(user, id, t0);
    var first := store.AddMessageToConversation(Message(User, "hi"), id, user, hiId, t1);
    afterFirst := first.value;
    SqliteLaws.MessageIdTakenAppend(msgs0, SqliteTables.MessageRow(hiId, id, User, "hi", t1), helloId);
    var second := store.AddMessageToConversation(Message(Assistant, "hello"), id, user, helloId, t2);
    afterSecond := second.value;
  }

  /** On any database where the fresh id is unused: create and append, then
      the owner's listing holds that conversation; deleting it reports true
      and it is gone. */
  method OwnerListsThenDeletes(convs0: seq<SqliteTables.ConversationRow>, msgs0: seq<SqliteTables.MessageRow>,
                               user: string, id: string, messageId: string, t0: int, t1: int)
    returns (afterAppend: Conversation, listed: seq<Conversation>, deleted: bool, afterDelete: Option<Conversation>)
    requires SqliteTables.UniqueConversationIds(convs0) && SqliteTables.UniqueMessageIds(msgs0)
    requires SqliteTables.NoOrphanMessages(convs0, msgs0) && !SqliteTables.ConversationIdTaken(convs0, id)
    requires !SqliteTables.MessageIdTaken(msgs0, messageId)
    ensures afterAppend.messages == [Message(User, "hi")] && afterAppend in listed
    ensures deleted && afterDelete == None
  {
    var store := new SqlLite.SqlLiteStorage(convs0, msgs0);
    var created := store.CreateConversation(user, id, t0);
    var appended := store.AddMessageToConversation(Message(User, "hi"), id, user, messageId, t1);
    afterAppend := appended.value;
    var row := SqliteTables.FindOwned(store.conversations, id, user).value;
    SqliteLaws.GetConversationsExact(store.conversations, store.messages, user);
    listed := store.GetConversations(user);
    deleted := store.DeleteConversation(id, user);
    afterDelete := store.GetConversation(id, user);
  }

  /** Another owner can neither read nor append to a conversation, and the
      owner's messages stay as they were. */
  method ForeignOwnerBlocked(owner: string, other: string, id: string, messageId: string, t0: int, t1: int)
    returns (read: Option<Conversation>, appended: Option<Conversation>, ownerView: Option<Conversation>)
    requires owner != other
    ensures read == None && appended == None
    ensures ownerView.Some? && ownerView.value.messages == []
  {
    var store := new SqlLite.SqlLiteStorage([], []);
    var _ := store.CreateConversation(owner, id, t0);
    var row := SqliteTables.ConversationRow(id, owner, t0, t0);
    assert store.conversations == [row];
    SqliteLaws.ForeignOwnerSeesNothing(store.conversations, store.messages, row, other);
    read := store.GetConversation(id, other);
    appended := store.AddMessageToConversation(Message(User, "hi"), id, other, messageId, t1);
    ownerView := store.GetConversation(id, owner);
  }

  /** Deleting an owned conversation twice reports true, then false. */
  method DeleteTwice(user: string, id: string, t0: int) returns (first: bool, second: bool)
    ensures first && !second
  {
    var store := new SqlLite.SqlLiteStorage([], []);
    var _ := store.CreateConversation(user, id, t0);
    first := store.DeleteConversation(id, user);
    second := store.DeleteConversation(id, user);
  }
}
