/** The CAN transport as the settings code sees it: CAN_COM::send hands a
    payload of at most eight bytes to the bus under a numeric id, and
    CAN_COM::uuid gives the node's identity. The bus itself is not part of
    this model; `log` records, in order, every frame handed to it.
 */
module Bus {
  import opened Bytes

  /** Payload bytes of one CAN frame. */
  const FRAME_SIZE := 8

  /** One frame handed to send: its payload (length = the len argument) and its id. */
  datatype Frame = Frame(payload: seq<Byte>, id: U16)

  class CanCom {
    const uuid: U16
    var log: seq<Frame>

    constructor (uuid: U16)
      ensures this.uuid == uuid && log == []
    {
      this.uuid := uuid;
      log := [];
    }

    /** CAN_COM::send(buffer, len, id): the first len bytes of the buffer
        leave as one frame. */
    method Send(buffer: array<Byte>, len: nat, id: U16)
      requires len <= buffer.Length && len <= FRAME_SIZE
      modifies this`log
      ensures log == old(log) + [Frame(buffer[..len], id)]
    {
      log := log + [Frame(buffer[..len], id)];
    }
  }
}
