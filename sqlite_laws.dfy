/** Properties of the SQLite queries: what each write does to later reads,
    ownership scoping, and the primary keys the writes preserve. */
module SqliteLaws {
  import opened StorageContract
  import opened SqliteTables

  // ---- the messages query ----

  /** Inserting a message row adds its message at the end of exactly its own
      conversation's message list. */
  lemma {:induction false} MessagesOfAppend(rows: seq<MessageRow>, row: MessageRow, conversationId: string)
    ensures MessagesOf(rows + [row], conversationId)
         == MessagesOf(rows, conversationId) + (if row.conversationId == conversationId then [ToMessage(row)] else [])
  {
    var added := if row.conversationId == conversationId then [ToMessage(row)] else [];
    if rows == [] {
      assert [] + [row] == [row];
      assert MessagesOf([row], conversationId) == added + MessagesOf([], conversationId);
    } else {
      var first := if rows[0].conversationId == conversationId then [ToMessage(rows[0])] else [];
      assert (rows + [row])[0] == rows[0];
      assert (rows + [row])[1..] == rows[1..] + [row];
      assert MessagesOf(rows + [row], conversationId) == first + MessagesOf(rows[1..] + [row], conversationId);
      MessagesOfAppend(rows[1..], row, conversationId);
      assert MessagesOf(rows, conversationId) == first + MessagesOf(rows[1..], conversationId);
      assert first + (MessagesOf(rows[1..], conversationId) + added)
          == (first + MessagesOf(rows[1..], conversationId)) + added;
    }
  }

  /** A conversation's messages are the role and content of exactly the
      message rows that carry its id. */
  lemma {:induction false} MessagesOfMembers(rows: seq<MessageRow>, conversationId: string, m: Message)
    ensures m in MessagesOf(rows, conversationId)
        <==> exists row :: row in rows && row.conversationId == conversationId && ToMessage(row) == m
  {
    if rows != [] {
      MessagesOfMembers(rows[1..], conversationId, m);
      assert rows == [rows[0]] + rows[1..];
      assert forall row :: row in rows <==> row == rows[0] || row in rows[1..];
    }
  }

  /** A conversation without message rows has no messages. */
  lemma {:induction false} MessagesOfNone(rows: seq<MessageRow>, conversationId: string)
    requires forall row :: row in rows ==> row.conversationId != conversationId
    ensures MessagesOf(rows, conversationId) == []
  {
    if rows != [] {
      assert rows[0] in rows;
      assert forall row :: row in rows[1..] ==> row in rows;
      MessagesOfNone(rows[1..], conversationId);
    }
  }

  /** After `DELETE FROM messages WHERE conversationId = ?` that conversation
      has no messages. */
  lemma RemovedMessagesGone(rows: seq<MessageRow>, conversationId: string)
    ensures MessagesOf(RemoveMessagesOf(rows, conversationId), conversationId) == []
  {
    MessagesOfNone(RemoveMessagesOf(rows, conversationId), conversationId);
  }

  /** Deleting one conversation's message rows leaves every other
      conversation's messages as they were. */
  lemma {:induction false} RemoveKeepsOtherMessages(rows: seq<MessageRow>, removed: string, other: string)
    requires removed != other
    ensures MessagesOf(RemoveMessagesOf(rows, removed), other) == MessagesOf(rows, other)
  {
    if rows != [] {
      var tail := rows[1..];
      RemoveKeepsOtherMessages(tail, removed, other);
      var kept := RemoveMessagesOf(rows, removed);
      if rows[0].conversationId != removed {
        assert kept == [rows[0]] + RemoveMessagesOf(tail, removed);
        assert kept != [] && kept[0] == rows[0] && kept[1..] == RemoveMessagesOf(tail, removed);
        assert MessagesOf(kept, other)
            == (if rows[0].conversationId == other then [ToMessage(rows[0])] else []) + MessagesOf(kept[1..], other);
      } else {
        assert kept == RemoveMessagesOf(tail, removed);
      }
    }
  }

  // ---- the ownership query ----

  /** Under the primary key, the ownership query finds a stored row by its own
      id and owner. */
  lemma {:induction false} FindOwnedUnique(convs: seq<ConversationRow>, row: ConversationRow)
    requires UniqueConversationIds(convs) && row in convs
    ensures FindOwned(convs, row.id, row.userId) == Some(row)
  {
    if convs[0] != row {
      assert convs[0].id != row.id by {
        var k :| 0 <= k < |convs| && convs[k] == row;
        assert k != 0;
      }
      assert row in convs[1..];
      FindOwnedUnique(convs[1..], row);
    }
  }

  /** A conversation created by one owner is invisible to every other owner:
      they get exactly what a missing id gives. */
  lemma ForeignOwnerSeesNothing(convs: seq<ConversationRow>, msgs: seq<MessageRow>, row: ConversationRow, other: string)
    requires UniqueConversationIds(convs) && row in convs && other != row.userId
    ensures GetConversationOf(convs, msgs, row.id, other) == None
    ensures FindOwned(convs, row.id, other) == None
  {
    forall r | r in convs ensures !Owns(r, row.id, other) {
      if r.id == row.id {
        var i :| 0 <= i < |convs| && convs[i] == r;
        var j :| 0 <= j < |convs| && convs[j] == row;
        assert i == j;
      }
    }
  }

  /** The ownership query over an appended table. */
  lemma {:induction false} FindOwnedAppend(rows: seq<ConversationRow>, x: ConversationRow, id: string, userId: string)
    ensures FindOwned(rows + [x], id, userId)
         == if FindOwned(rows, id, userId).Some? then FindOwned(rows, id, userId)
            else if Owns(x, id, userId) then Some(x) else None
  {
    if rows == [] {
      assert [] + [x] == [x];
    } else {
      assert (rows + [x])[0] == rows[0];
      assert (rows + [x])[1..] == rows[1..] + [x];
      FindOwnedAppend(rows[1..], x, id, userId);
    }
  }

  /** `UPDATE ... SET latest` changes neither ids nor owners, so the
      ownership query finds the same row, with the new `latest` if its id is
      the updated one. */
  lemma {:induction false} FindOwnedSetLatest(rows: seq<ConversationRow>, id: string, now: int, x: string, userId: string)
    ensures FindOwned(SetLatest(rows, id, now), x, userId)
         == match FindOwned(rows, x, userId)
            case None => None
            case Some(r) => Some(if r.id == id then r.(latest := now) else r)
  {
    if rows != [] {
      assert SetLatest(rows, id, now)[1..] == SetLatest(rows[1..], id, now);
      FindOwnedSetLatest(rows[1..], id, now, x, userId);
    }
  }

  /** Removing one id's owned row does not affect the ownership query for any
      other id. */
  lemma {:induction false} FindOwnedRemoveOwned(rows: seq<ConversationRow>, id: string, owner: string, x: string, userId: string)
    requires x != id
    ensures FindOwned(RemoveOwned(rows, id, owner), x, userId) == FindOwned(rows, x, userId)
  {
    if rows != [] {
      var tail := rows[1..];
      FindOwnedRemoveOwned(tail, id, owner, x, userId);
      var kept := RemoveOwned(rows, id, owner);
      if Owns(rows[0], id, owner) {
        assert kept == RemoveOwned(tail, id, owner);
        assert !Owns(rows[0], x, userId);
      } else {
        assert kept == [rows[0]] + RemoveOwned(tail, id, owner);
        assert kept != [] && kept[0] == rows[0] && kept[1..] == RemoveOwned(tail, id, owner);
      }
    }
  }

  // ---- what the writes do to later reads ----

  /** Append as the backend performs it: after the message insert and the
      `latest` update, the re-read conversation is the old one with the
      message at the end and `latest` set to the call time. */
  lemma AppendRereads(convs: seq<ConversationRow>, msgs: seq<MessageRow>, id: string, userId: string, row: MessageRow, now: int)
    requires row.conversationId == id
    requires GetConversationOf(convs, msgs, id, userId).Some?
    ensures
      var before := GetConversationOf(convs, msgs, id, userId).value;
      GetConversationOf(SetLatest(convs, id, now), msgs + [row], id, userId)
        == Some(before.(messages := before.messages + [ToMessage(row)], latest := now))
  {
    FindOwnedSetLatest(convs, id, now, id, userId);
    MessagesOfAppend(msgs, row, id);
  }

  /** Appending to one conversation leaves every other conversation, for
      every owner, exactly as it was. */
  lemma AppendLeavesOthers(convs: seq<ConversationRow>, msgs: seq<MessageRow>, id: string, row: MessageRow, now: int,
                           other: string, userId: string)
    requires row.conversationId == id && other != id
    ensures GetConversationOf(SetLatest(convs, id, now), msgs + [row], other, userId)
         == GetConversationOf(convs, msgs, other, userId)
  {
    FindOwnedSetLatest(convs, id, now, other, userId);
    MessagesOfAppend(msgs, row, other);
    assert MessagesOf(msgs + [row], other) == MessagesOf(msgs, other);
    match FindOwned(convs, other, userId)
    case None =>
    case Some(r) =>
      assert FindOwned(SetLatest(convs, id, now), other, userId) == Some(r);
  }

  /** After the two deletes the owner reads `None`, and every other
      conversation reads as before, whether or not the owner check matched. */
  lemma DeleteEffects(convs: seq<ConversationRow>, msgs: seq<MessageRow>, id: string, userId: string,
                      other: string, reader: string)
    requires other != id
    ensures GetConversationOf(RemoveOwned(convs, id, userId), RemoveMessagesOf(msgs, id), id, userId) == None
    ensures GetConversationOf(RemoveOwned(convs, id, userId), RemoveMessagesOf(msgs, id), other, reader)
         == GetConversationOf(convs, msgs, other, reader)
  {
    FindOwnedRemoveOwned(convs, id, userId, other, reader);
    RemoveKeepsOtherMessages(msgs, id, other);
  }

  /** The rows after the first still have distinct ids, none equal to the
      first row's. */
  lemma UniqueTail(rows: seq<ConversationRow>)
    requires UniqueConversationIds(rows) && rows != []
    ensures UniqueConversationIds(rows[1..])
    ensures forall r :: r in rows[1..] ==> r.id != rows[0].id
  {
    var tail := rows[1..];
    forall i, j | 0 <= i < j < |tail| ensures tail[i].id != tail[j].id {
      assert tail[i] == rows[i + 1] && tail[j] == rows[j + 1];
    }
    forall r | r in tail ensures r.id != rows[0].id {
      var k :| 0 <= k < |tail| && tail[k] == r;
      assert rows[k + 1] == r;
    }
  }

  /** Under the primary key, `DELETE ... WHERE id = ? AND userId = ?` removes
      exactly one row when the ownership query matches and none otherwise. */
  lemma {:induction false} RemoveOwnedChanges(rows: seq<ConversationRow>, id: string, userId: string)
    requires UniqueConversationIds(rows)
    ensures |rows| - |RemoveOwned(rows, id, userId)| == if FindOwned(rows, id, userId).Some? then 1 else 0
  {
    if rows != [] {
      var tail := rows[1..];
      UniqueTail(rows);
      RemoveOwnedChanges(tail, id, userId);
      if Owns(rows[0], id, userId) {
        assert RemoveOwned(rows, id, userId) == RemoveOwned(tail, id, userId);
        assert FindOwned(tail, id, userId).None? by {
          forall r | r in tail ensures !Owns(r, id, userId) {
          }
        }
        RemoveNothing(tail, id, userId);
      } else {
        assert RemoveOwned(rows, id, userId) == [rows[0]] + RemoveOwned(tail, id, userId);
        assert FindOwned(rows, id, userId) == FindOwned(tail, id, userId);
      }
    }
  }

  /** The rows kept by the owned delete still have distinct ids. */
  lemma {:induction false} RemoveOwnedUnique(rows: seq<ConversationRow>, id: string, userId: string)
    requires UniqueConversationIds(rows)
    ensures UniqueConversationIds(RemoveOwned(rows, id, userId))
  {
    if rows != [] {
      var tail := rows[1..];
      UniqueTail(rows);
      RemoveOwnedUnique(tail, id, userId);
      var rest := RemoveOwned(tail, id, userId);
      if Owns(rows[0], id, userId) {
        assert RemoveOwned(rows, id, userId) == rest;
      } else {
        assert forall r :: r in rest ==> r in tail;
        ConsUnique(rows[0], rest);
        assert RemoveOwned(rows, id, userId) == [rows[0]] + rest;
      }
    }
  }

  /** A row put in front of rows with distinct ids, all different from its
      own, keeps conversation ids distinct. */
  lemma ConsUnique(row: ConversationRow, rest: seq<ConversationRow>)
    requires UniqueConversationIds(rest) && forall r :: r in rest ==> r.id != row.id
    ensures UniqueConversationIds([row] + rest)
  {
    var r := [row] + rest;
    forall i, j | 0 <= i < j < |r| ensures r[i].id != r[j].id {
      assert r[j] == rest[j - 1] && rest[j - 1] in rest;
      if i > 0 {
        assert r[i] == rest[i - 1];
      }
    }
  }

  /** `UPDATE ... SET latest` keeps conversation ids distinct. */
  lemma SetLatestUnique(rows: seq<ConversationRow>, id: string, now: int)
    requires UniqueConversationIds(rows)
    ensures UniqueConversationIds(SetLatest(rows, id, now))
  {
    var r := SetLatest(rows, id, now);
    forall i, j | 0 <= i < j < |r| ensures r[i].id != r[j].id {
      assert r[i].id == rows[i].id && r[j].id == rows[j].id;
    }
  }

  /** Inserting a message row under an unused id keeps message ids
      distinct. */
  lemma MessageInsertUnique(rows: seq<MessageRow>, row: MessageRow)
    requires UniqueMessageIds(rows) && !MessageIdTaken(rows, row.id)
    ensures UniqueMessageIds(rows + [row])
  {
    forall i | 0 <= i < |rows| ensures rows[i].id != row.id {
      assert rows[i] in rows;
    }
  }

  /** After an insert, a message id is taken exactly when it was taken before
      or is the new row's. */
  lemma MessageIdTakenAppend(rows: seq<MessageRow>, row: MessageRow, id: string)
    ensures MessageIdTaken(rows + [row], id) <==> MessageIdTaken(rows, id) || row.id == id
  {
    if MessageIdTaken(rows + [row], id) && row.id != id {
      var r :| r in rows + [row] && r.id == id;
      assert r in rows;
    }
    if MessageIdTaken(rows, id) {
      var r :| r in rows && r.id == id;
      assert r in rows + [row];
    }
  }

  /** Under the primary key, the rows after the first have distinct message
      ids, all different from the first row's. */
  lemma MessageUniqueTail(rows: seq<MessageRow>)
    requires UniqueMessageIds(rows) && rows != []
    ensures UniqueMessageIds(rows[1..])
    ensures forall r :: r in rows[1..] ==> r.id != rows[0].id
  {
    var tail := rows[1..];
    forall i, j | 0 <= i < j < |tail| ensures tail[i].id != tail[j].id {
      assert tail[i] == rows[i + 1] && tail[j] == rows[j + 1];
    }
    forall r | r in tail ensures r.id != rows[0].id {
      var k :| 0 <= k < |tail| && tail[k] == r;
      assert rows[k + 1] == r;
    }
  }

  /** `DELETE FROM messages WHERE conversationId = ?` keeps message ids
      distinct. */
  lemma {:induction false} RemoveMessagesUnique(rows: seq<MessageRow>, conversationId: string)
    requires UniqueMessageIds(rows)
    ensures UniqueMessageIds(RemoveMessagesOf(rows, conversationId))
  {
    if rows != [] {
      var tail := rows[1..];
      MessageUniqueTail(rows);
      RemoveMessagesUnique(tail, conversationId);
      var rest := RemoveMessagesOf(tail, conversationId);
      if rows[0].conversationId == conversationId {
        assert RemoveMessagesOf(rows, conversationId) == rest;
      } else {
        assert forall r :: r in rest ==> r in tail;
        MessageConsUnique(rows[0], rest);
        assert RemoveMessagesOf(rows, conversationId) == [rows[0]] + rest;
      }
    }
  }

  /** A row put in front of rows with distinct ids, all different from its
      own, keeps message ids distinct. */
  lemma MessageConsUnique(row: MessageRow, rest: seq<MessageRow>)
    requires UniqueMessageIds(rest) && forall r :: r in rest ==> r.id != row.id
    ensures UniqueMessageIds([row] + rest)
  {
    var r := [row] + rest;
    forall i, j | 0 <= i < j < |r| ensures r[i].id != r[j].id {
      assert r[j] == rest[j - 1] && rest[j - 1] in rest;
      if i > 0 {
        assert r[i] == rest[i - 1];
      }
    }
  }

  // ---- getConversations ----

  /** When every row of `owned` is a stored row of that owner, no
      getConversation call comes back null, so nothing is filtered out. */
  lemma {:induction false} CollectOwnedExact(owned: seq<ConversationRow>, convs: seq<ConversationRow>, msgs: seq<MessageRow>,
                                             userId: string)
    requires UniqueConversationIds(convs)
    requires forall row :: row in owned ==> row in convs && row.userId == userId
    ensures CollectOwned(owned, convs, msgs, userId) == HydrateAll(owned, msgs)
  {
    if owned != [] {
      FindOwnedUnique(convs, owned[0]);
      assert forall row :: row in owned[1..] ==> row in owned;
      CollectOwnedExact(owned[1..], convs, msgs, userId);
    }
  }

  /** getConversations returns one hydrated conversation per row the owner
      holds, in row order, and hence exactly as many as those rows. */
  lemma GetConversationsExact(convs: seq<ConversationRow>, msgs: seq<MessageRow>, userId: string)
    requires UniqueConversationIds(convs)
    ensures GetConversationsOf(convs, msgs, userId) == HydrateAll(OwnedBy(convs, userId), msgs)
    ensures |GetConversationsOf(convs, msgs, userId)| == |OwnedBy(convs, userId)|
    ensures forall row :: row in convs && row.userId == userId ==> Hydrate(row, msgs) in GetConversationsOf(convs, msgs, userId)
  {
    CollectOwnedExact(OwnedBy(convs, userId), convs, msgs, userId);
    var owned := OwnedBy(convs, userId);
    forall row | row in convs && row.userId == userId
      ensures Hydrate(row, msgs) in HydrateAll(owned, msgs)
    {
      var k :| 0 <= k < |owned| && owned[k] == row;
      assert HydrateAll(owned, msgs)[k] == Hydrate(row, msgs);
    }
  }

  // ---- rows without a conversation ----

  /** The append keeps every message row attached to a stored conversation. */
  lemma AppendKeepsNoOrphans(convs: seq<ConversationRow>, msgs: seq<MessageRow>, row: MessageRow, now: int)
    requires NoOrphanMessages(convs, msgs) && ConversationIdTaken(convs, row.conversationId)
    ensures NoOrphanMessages(SetLatest(convs, row.conversationId, now), msgs + [row])
  {
    var updated := SetLatest(convs, row.conversationId, now);
    forall m | m in msgs + [row] ensures ConversationIdTaken(updated, m.conversationId) {
      var c :| c in convs && c.id == m.conversationId;
      var k :| 0 <= k < |convs| && convs[k] == c;
      assert updated[k].id == c.id;
    }
  }

  /** The two deletes keep every remaining message row attached. */
  lemma DeleteKeepsNoOrphans(convs: seq<ConversationRow>, msgs: seq<MessageRow>, id: string, userId: string)
    requires NoOrphanMessages(convs, msgs)
    ensures NoOrphanMessages(RemoveOwned(convs, id, userId), RemoveMessagesOf(msgs, id))
  {
    forall m | m in RemoveMessagesOf(msgs, id) ensures ConversationIdTaken(RemoveOwned(convs, id, userId), m.conversationId) {
      var c :| c in convs && c.id == m.conversationId;
      assert c in RemoveOwned(convs, id, userId);
    }
  }

  // ---- the unfiltered message delete ----

  /** As written, a delete request from a non-owner reports `false` and
      removes no conversation row, yet it erases the owner's messages. */
  lemma ForeignDeleteErasesMessages(convs: seq<ConversationRow>, msgs: seq<MessageRow>, row: ConversationRow, other: string)
    requires UniqueConversationIds(convs) && row in convs && other != row.userId
    ensures FindOwned(convs, row.id, other).None?
    ensures RemoveOwned(convs, row.id, other) == convs
    ensures GetConversationOf(RemoveOwned(convs, row.id, other), RemoveMessagesOf(msgs, row.id), row.id, row.userId)
         == Some(Hydrate(row, msgs).(messages := []))
  {
    ForeignOwnerSeesNothing(convs, msgs, row, other);
    RemoveNothing(convs, row.id, other);
    FindOwnedUnique(convs, row);
    RemovedMessagesGone(msgs, row.id);
  }

  /** Deleting with a predicate no row satisfies leaves the table as it is. */
  lemma {:induction false} RemoveNothing(rows: seq<ConversationRow>, id: string, userId: string)
    requires FindOwned(rows, id, userId).None?
    ensures RemoveOwned(rows, id, userId) == rows
  {
    if rows != [] {
      RemoveNothing(rows[1..], id, userId);
      assert rows == [rows[0]] + rows[1..];
    }
  }
}
