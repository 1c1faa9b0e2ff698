/** The message envelope value of `message.py`: the four message kinds and the
    field checks its constructor makes before storing anything. */
module Message {
  import opened Wrappers
  import opened Bytes

  /** `MessageType`, with the numbers it is sent as. */
  datatype MessageType =
    | RequestForSymmetricKey
    | SendSymmetricKey
    | SendTextMessage
    | SendFile
  {
    function Value(): (n: int)
      ensures 1 <= n <= 4
    {
      match this
      case RequestForSymmetricKey => 1
      case SendSymmetricKey => 2
      case SendTextMessage => 3
      case SendFile => 4
    }
  }

  /** The kind a number stands for, if any. */
  function TypeOf(n: int): (r: Option<MessageType>)
    ensures r.Some? <==> 1 <= n <= 4
    ensures r.Some? ==> r.value.Value() == n
  {
    if n == 1 then Some(RequestForSymmetricKey)
    else if n == 2 then Some(SendSymmetricKey)
    else if n == 3 then Some(SendTextMessage)
    else if n == 4 then Some(SendFile)
    else None
  }

  /** Each kind is the one its number stands for. */
  lemma TypeOfValue(t: MessageType)
    ensures TypeOf(t.Value()) == Some(t)
  {
  }

  datatype Message = Message(id: int, toClient: Bytes, fromClient: Bytes, msgType: int, content: Option<Bytes>)

  /** The `ValueError` the constructor raises, one per check. */
  datatype MessageError = InvalidId | InvalidToClient | InvalidFromClient | InvalidType

  /** `Message(ID, to_client, from_client, msg_type, content)`: the checks
      run in this order and the first that fails decides the error. */
  function NewMessage(id: int, toClient: Bytes, fromClient: Bytes, msgType: int, content: Option<Bytes>)
    : (r: Result<Message, MessageError>)
    ensures r.Ok? <==> 0 <= id <= 0xFFFF_FFFF && |toClient| == 16 && |fromClient| == 16 && TypeOf(msgType).Some?
    ensures r.Ok? ==> r.value == Message(id, toClient, fromClient, msgType, content)
    ensures r == Err(InvalidId) <==> !(0 <= id <= 0xFFFF_FFFF)
    ensures r == Err(InvalidToClient) <==> 0 <= id <= 0xFFFF_FFFF && |toClient| != 16
    ensures r == Err(InvalidFromClient) <==> 0 <= id <= 0xFFFF_FFFF && |toClient| == 16 && |fromClient| != 16
  {
    if id < 0 || id > 0xFFFF_FFFF then Err(InvalidId)
    else if |toClient| != 16 then Err(InvalidToClient)
    else if |fromClient| != 16 then Err(InvalidFromClient)
    else if TypeOf(msgType).None? then Err(InvalidType)
    else Ok(Message(id, toClient, fromClient, msgType, content))
  }

  /** The `content_size` a message reports: the content length, and 0 for
      absent or empty content. */
  function ContentSize(m: Message): (n: nat)
    ensures n == 0 <==> m.content.None? || m.content.value == []
    ensures m.content.Some? ==> n == |m.content.value|
  {
    match m.content
    case Some(c) => if |c| > 0 then |c| else 0
    case None => 0
  }
}
