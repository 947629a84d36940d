/** The data model shared by every backend of the conversation store:
    messages, conversations, and the optional result that stands for the
    source's `null`. */
module StorageContract {

  /** `T | null`: a result that may be missing. */
  datatype Option<T> = None | Some(value: T)

  /** The role of a message: exactly one of "assistant" or "user". */
  datatype Role = Assistant | User

  /** One turn of a conversation. The store never inspects `content`. */
  datatype Message = Message(role: Role, content: string)

  /** A conversation as returned to callers: its ordered messages, the id,
      and the creation and last-append times (milliseconds). */
  datatype Conversation = Conversation(messages: seq<Message>, id: string, created: int, latest: int)

  /** The conversation object an in-memory store keeps in its Map. It is held
      by reference: the store hands out this same object, and appending pushes
      onto its `messages` and overwrites its `latest` in place. */
  class ConversationRecord {
    var messages: seq<Message>
    const id: string
    const created: int
    var latest: int

    /** Builds `{ messages: [], id, created: now, latest: now }`. */
    constructor (id: string, now: int)
      ensures messages == [] && this.id == id && created == now && latest == now
    {
      messages := [];
      this.id := id;
      created := now;
      latest := now;
    }

    /** The value the object currently holds. */
    function Value(): Conversation
      reads this
    {
      Conversation(messages, id, created, latest)
    }
  }
}
