/** Messages posted on a message bus and the channels that partition them. */
module Messages {

  /** The topic tags of jgnash's MessageChannel enumeration. Only System is
      treated specially by the bus: its messages never leave the process. */
  datatype Channel = Account | Budget | Commodity | Config | Reminder | System | Transaction

  /** An immutable message: its channel, an opaque event kind, whether it
      arrived from the remote side, and an opaque payload. */
  datatype Message = Message(channel: Channel, event: nat, remote: bool, payload: nat)
}
