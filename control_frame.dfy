/** The body of the Broker's control-listener loop for one connection
    (`ReceiveThreadFunction`): the bytes one Read delivers, decoded as ASCII, split on ':'
    and dispatched on the opcode. */
module ControlFrame {
  import opened Text
  import opened Directory

  /** The size of the receive buffer; a longer frame is cut to this many bytes. */
  const BufferSize: nat := 256

  /** The exception a frame raises. Only SocketException is caught by the listener, so
      either of these ends the loop. */
  datatype FrameError =
    | MissingField  // IndexOutOfRangeException: fewer pieces than the opcode needs
    | NotANumber    // FormatException or OverflowException from int.Parse

  datatype Command =
    | Register(backend: Backend)
    | Unregister(backend: Backend)
    | Ignore
    | Malformed(error: FrameError)

  /** The pieces of a '+' or '-' frame hold the four values. */
  predicate Decodable(parts: seq<string>) {
    |parts| >= 5 && ParseInt32(parts[2]).Some? && ParseInt32(parts[3]).Some?
  }

  /** The `switch (parts[0])` on the split frame. The arguments of Regist and Unregist are
      evaluated left to right: parts[1], int.Parse(parts[2]), int.Parse(parts[3]), parts[4]. */
  function DecodeParts(parts: seq<string>): (c: Command)
    requires |parts| >= 1
    ensures c.Ignore? <==> parts[0] != "+" && parts[0] != "-"
    ensures c.Register? <==> parts[0] == "+" && Decodable(parts)
    ensures c.Unregister? <==> parts[0] == "-" && Decodable(parts)
    ensures (c.Register? || c.Unregister?) ==>
      c.backend == Backend(parts[1], ParseInt32(parts[2]).value, ParseInt32(parts[3]).value, parts[4])
  {
    if parts[0] != "+" && parts[0] != "-" then Ignore
    else if |parts| < 3 then Malformed(MissingField)
    else match ParseInt32(parts[2])
      case None => Malformed(NotANumber)
      case Some(port) =>
        if |parts| < 4 then Malformed(MissingField)
        else match ParseInt32(parts[3])
          case None => Malformed(NotANumber)
          case Some(id) =>
            if |parts| < 5 then Malformed(MissingField)
            else
              var b := Backend(parts[1], port, id, parts[4]);
              if parts[0] == "+" then Register(b) else Unregister(b)
  }

  /** `data.Split(':')` followed by the switch. */
  function Decode(data: string): (c: Command)
    ensures data == [] ==> c == Ignore
    ensures (c.Register? || c.Unregister?) ==> ':' !in c.backend.address && ':' !in c.backend.path
  {
    DecodeParts(Split(data, ':'))
  }

  /** What one connection does: `stream.Read` fills at most the buffer, a read of zero
      bytes is skipped, and the rest is decoded. */
  function Received(sent: seq<Byte>): (c: Command)
    ensures sent == [] ==> c == Ignore
    ensures (c.Register? || c.Unregister?) ==> ':' !in c.backend.address && ':' !in c.backend.path
  {
    var count := if |sent| < BufferSize then |sent| else BufferSize;
    if count == 0 then Ignore else Decode(AsciiDecode(sent[..count]))
  }

  /** Bytes past the buffer are never read: they do not change what a connection does. */
  lemma ReceivedIgnoresExtra(sent: seq<Byte>, more: seq<Byte>)
    requires |sent| >= BufferSize
    ensures Received(sent + more) == Received(sent)
  {
    assert (sent + more)[..BufferSize] == sent[..BufferSize];
  }

  /** The directory after a command. */
  function Applied(s: seq<Backend>, c: Command): seq<Backend> {
    match c
    case Register(b) => Registered(s, b)
    case Unregister(b) => Unregistered(s, b)
    case _ => s
  }

  /** The wire format: five fields separated by ':'. */
  function FrameText(op: string, address: string, port: string, id: string, path: string): string {
    op + ":" + address + ":" + port + ":" + id + ":" + path
  }

  lemma FrameAssoc(op: string, address: string, port: string, id: string, path: string, tail: string)
    ensures FrameText(op, address, port, id, path) + tail
         == op + ":" + (address + ":" + (port + ":" + (id + ":" + (path + tail))))
  {
  }

  lemma SplitNested(op: string, address: string, port: string, id: string, path: string, tail: string)
    requires ':' !in op && ':' !in address && ':' !in port && ':' !in id && ':' !in path
    requires tail == [] || tail[0] == ':'
    ensures var parts := Split(op + ":" + (address + ":" + (port + ":" + (id + ":" + (path + tail)))), ':');
      |parts| >= 5 && parts[..4] == [op, address, port, id] && parts[4] == path
  {
    SplitAppend(op, address + ":" + (port + ":" + (id + ":" + (path + tail))), ':');
    SplitAppend(address, port + ":" + (id + ":" + (path + tail)), ':');
    SplitAppend(port, id + ":" + (path + tail), ':');
    SplitAppend(id, path + tail, ':');
    SplitFirstPiece(path, tail, ':');
  }

  /** Splitting a frame whose fields hold no ':' gives the fields back, followed by
      whatever pieces come after the fifth field. */
  lemma SplitFrame(op: string, address: string, port: string, id: string, path: string, tail: string)
    requires ':' !in op && ':' !in address && ':' !in port && ':' !in id && ':' !in path
    requires tail == [] || tail[0] == ':'
    ensures var parts := Split(FrameText(op, address, port, id, path) + tail, ':');
      |parts| >= 5 && parts[..4] == [op, address, port, id] && parts[4] == path
  {
    FrameAssoc(op, address, port, id, path, tail);
    SplitNested(op, address, port, id, path, tail);
  }

  /** The five fields of a well-formed frame decode to exactly those values; text after a
      further ':' is ignored. */
  lemma DecodeFields(op: string, address: string, port: string, id: string, path: string,
                     tail: string)
    requires op == "+" || op == "-"
    requires ':' !in address && ':' !in port && ':' !in id && ':' !in path
    requires tail == [] || tail[0] == ':'
    requires ParseInt32(port).Some? && ParseInt32(id).Some?
    ensures var b := Backend(address, ParseInt32(port).value, ParseInt32(id).value, path);
      Decode(FrameText(op, address, port, id, path) + tail)
        == if op == "+" then Register(b) else Unregister(b)
  {
    SplitFrame(op, address, port, id, path, tail);
    var parts := Split(FrameText(op, address, port, id, path) + tail, ':');
    assert parts[0] == op && parts[1] == address && parts[2] == port && parts[3] == id by {
      assert parts[..4][0] == parts[0] && parts[..4][1] == parts[1];
      assert parts[..4][2] == parts[2] && parts[..4][3] == parts[3];
    }
  }

  /** A frame whose opcode is neither '+' nor '-' changes nothing, whatever follows. */
  lemma OtherOpcodeIgnored(data: string)
    requires data != [] && data[0] != '+' && data[0] != '-'
    ensures Decode(data) == Ignore
  {
    SplitHead(data, ':');
    var first := Split(data, ':')[0];
    if first != [] {
      assert first[0] == data[0];
    }
  }

  /** A frame whose port or id field is not a number raises an exception and changes
      nothing. */
  lemma DecodeNotANumber(op: string, address: string, port: string, id: string, path: string,
                         tail: string)
    requires op == "+" || op == "-"
    requires ':' !in address && ':' !in port && ':' !in id && ':' !in path
    requires tail == [] || tail[0] == ':'
    requires ParseInt32(port).None? || ParseInt32(id).None?
    ensures Decode(FrameText(op, address, port, id, path) + tail) == Malformed(NotANumber)
  {
    SplitFrame(op, address, port, id, path, tail);
    var parts := Split(FrameText(op, address, port, id, path) + tail, ':');
    assert parts[0] == op && parts[2] == port && parts[3] == id by {
      assert parts[..4][0] == parts[0] && parts[..4][2] == parts[2] && parts[..4][3] == parts[3];
    }
  }
}
