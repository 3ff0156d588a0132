/**
 * What travels over the web socket between `tom wsc` and the file server: the results of
 * ReceiveAsync as either side sees them, the frames either side sends, and the command and
 * reply messages (JSON on the wire; the encoding is not modelled, so messages are values).
 */
module WebSocketMessages {

  /** WebSocketMessageType for data frames. */
  datatype MessageType = TextMessage | BinaryMessage

  /** The WebSocketCloseStatus values the programs use; any other is carried by its code. */
  datatype CloseStatus = NormalClosure | PolicyViolation | InvalidPayloadData | OtherStatus(code: int)

  /**
   * One WebSocketReceiveResult: a data frame (at most the receiving buffer's size; a longer
   * message arrives as several results, all but the last not at its end), or the peer's close.
   */
  datatype Received =
    | Data(messageType: MessageType, payload: seq<bv8>, endOfMessage: bool)
    | CloseReceived(status: CloseStatus, description: string)

  /** One entry of a listing: Type "Dir" or "File", the name, and the length in bytes. */
  datatype Entry = Entry(isDir: bool, name: string, length: nat)

  /** The server's Status counters. */
  datatype Counters = Counters(textMessagesReceived: nat, textMessagesSent: nat,
                               binaryBytesSent: nat, binaryBytesReceived: nat)

  /** The server's text replies. */
  datatype Reply =
    | MotdReply(currentDirectory: string, megabitPerSecondLimit: real, status: Counters)
    | LsReply(currentDirectory: string, dirs: seq<Entry>, files: seq<Entry>)
    | ErrorReply(payload: string)
    | GetReply(files: seq<Entry>)
    | GetEndReply(hashSHA256: string)

  /** The commands a text frame carries, by their Type; any other type is unmapped. */
  datatype Command =
    | MotdCommand
    | CdCommand(target: string)
    | LsCommand
    | GetCommand(target: string)
    | PutCommand(names: seq<string>)
    | Unmapped(typeName: string)

  /** A frame as one side sends it. */
  datatype Sent<M> =
    | SentText(message: M)
    | SentBinary(bytes: seq<bv8>, endOfMessage: bool)
    | SentClose(status: CloseStatus, description: string)
}
