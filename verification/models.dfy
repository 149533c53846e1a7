/**
  The parts of the Telegram update model that the bot reads. A pointer field
  that may be nil in Go is an `Option`; a struct field that is always present
  is a plain value.
 */
module Models {
  import opened Wrappers

  datatype User = User(id: int, username: string, firstName: string, lastName: string)

  datatype Chat = Chat(id: int, title: string, username: string, firstName: string, lastName: string)

  /** A message as carried by an update; `businessConnectionID` is empty outside business traffic. */
  datatype Message = Message(
    id: int,
    from: Option<User>,
    chat: Chat,
    text: string,
    businessConnectionID: string)

  datatype BusinessMessagesDeleted = BusinessMessagesDeleted(
    businessConnectionID: string,
    chat: Chat,
    messageIDs: seq<int>)

  /**
    An inbound update. Several fields may be set at once; the dispatcher
    inspects them in a fixed order and acts on the first that applies.
   */
  datatype Update = Update(
    message: Option<Message>,
    businessMessage: Option<Message>,
    editedBusinessMessage: Option<Message>,
    deletedBusinessMessages: Option<BusinessMessagesDeleted>)
}
