/** The volatile backend of storage.ts: `InMemoryStorage`, a JavaScript Map
    from conversation id to conversation object, with no notion of owner.
    Fresh ids (`randomUUID()`) and the clock (`Date.now()`) are parameters. */
module MemoryStore {
  import opened StorageContract
  import opened Sequences

  class InMemoryStorage {
    /** The Map's entries. */
    var convos: map<string, ConversationRecord>
    /** The Map's keys in insertion order, the order in which it iterates. */
    var order: seq<string>

    /** Every key is listed once in `order`, and every object is stored under
        its own id. */
    ghost predicate Valid()
      reads this
    {
      && Distinct(order)
      && convos.Keys == Elements(order)
      && (forall k :: k in convos ==> convos[k].id == k)
    }

    /** The conversations the Map currently holds, by value. */
    ghost function Contents(): map<string, Conversation>
      reads this, convos.Values
    {
      map k | k in convos :: convos[k].Value()
    }

    /** `new InMemoryStorage()`: an empty Map. */
    constructor ()
      ensures Valid() && convos == map[] && order == []
    {
      convos := map[];
      order := [];
    }

    /** Stores a new empty conversation under the fresh id and returns the
        stored object itself. */
    method CreateConversation(id: string, now: int) returns (r: ConversationRecord)
      requires Valid() && id !in convos
      modifies this
      ensures Valid() && fresh(r)
      ensures r.Value() == Conversation([], id, now, now)
      ensures convos == old(convos)[id := r] && order == old(order) + [id]
      ensures Contents() == old(Contents())[id := r.Value()]
    {
      r := new ConversationRecord(id, now);
      ghost var before := Contents();
      convos := convos[id := r];
      DistinctAppend(order, id);
      assert Elements(order + [id]) == Elements(order) + {id};
      order := order + [id];
      ghost var after := before[id := r.Value()];
      assert Contents().Keys == after.Keys;
      forall k | k in Contents() ensures Contents()[k] == after[k] {
        if k != id {
          assert k in old(convos) && convos[k] == old(convos)[k];
        }
      }
    }

    /** The stored object for a present id, `null` for an absent one. */
    function GetConversation(conversationId: string): (r: ConversationRecord?)
      reads this
      requires Valid()
      ensures r == null <==> conversationId !in convos
      ensures r != null ==> r == convos[conversationId] && r.id == conversationId
    {
      if conversationId in convos then convos[conversationId] else null
    }

    /** `[...this.convos.values()]`: every stored object once, in insertion
        order. */
    function GetConversations(): (r: seq<ConversationRecord>)
      reads this
      requires Valid()
      ensures |r| == |convos| == |order|
      ensures forall i :: 0 <= i < |r| ==> r[i] == convos[order[i]]
      ensures forall k :: k in convos ==> convos[k] in r
      ensures forall c :: c in r ==> c.id in convos && convos[c.id] == c
    {
      MapSizeFromKeys(order, convos);
      ValuesInOrderCovers(order, convos);
      ListedAreStored();
      ValuesInOrder(order, convos)
    }

    /** Every listed object is the one stored under its own id. */
    lemma ListedAreStored()
      requires Valid()
      ensures forall c :: c in ValuesInOrder(order, convos) ==> c.id in convos && convos[c.id] == c
    {
      var r := ValuesInOrder(order, convos);
      forall c | c in r ensures c.id in convos && convos[c.id] == c {
        var i :| 0 <= i < |r| && r[i] == c;
        assert c == convos[order[i]];
      }
    }

    /** Pushes the message onto the stored conversation and sets its `latest`
        to the call time; `null` and no change when the id is absent. */
    method AddMessageToConversation(message: Message, id: string, now: int) returns (r: ConversationRecord?)
      requires Valid()
      modifies convos.Values
      ensures Valid()
      ensures r == null <==> id !in convos
      ensures id !in convos ==> Contents() == old(Contents())
      ensures id in convos ==>
        var before := old(Contents())[id];
        && r == convos[id]
        && r.Value() == before.(messages := before.messages + [message], latest := now)
        && Contents() == old(Contents())[id := r.Value()]
    {
      if id !in convos {
        return null;
      }
      r := convos[id];
      r.messages := r.messages + [message];
      r.latest := now;
      assert forall k :: k in convos && k != id ==> convos[k] != r;
    }
  }
}
