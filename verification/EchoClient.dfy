/** The framing client (`kg::net::echo_client_t`). */
module EchoClients {
  import opened Bytes
  import opened Buffers
  import opened Framing
  import opened Options

  /** What one `read()` comes to. */
  datatype Fetched =
    | Message(m: seq<Byte>)
    | BadMsgHeader       // the framing error
    | SocketClosed       // the socket had nothing more
    | Unfilled(n: nat)   // without a reader: a slice as long as the chunk, with none of its bytes
    | NoReader           // the missing reader was called

  /** Bytes already taken from the socket and not read, and the chunks the socket still has. */
  datatype Stream = Stream(pending: seq<Byte>, incoming: seq<seq<Byte>>)

  /** One read: chunks are taken until the bytes in hand decide. */
  function Fetch(format: Format, st: Stream): (Fetched, Stream)
    decreases |st.incoming|
  {
    match format.Look(st.pending)
    case Ready(len) => (Message(st.pending[..len]), Stream(st.pending[len..], st.incoming))
    case BadHeader => (BadMsgHeader, st)
    case _ =>
      if st.incoming == [] then (SocketClosed, st)
      else Fetch(format, Stream(st.pending + st.incoming[0], st.incoming[1..]))
  }

  // With a length remembered from earlier calls.

  datatype Parsed = Nothing | One(m: seq<Byte>) | Thrown

  /**
   * Parsing with the length `size` remembered, -1 standing for none: what comes of it, what is
   * remembered next, and the bytes left. The comparison with `size` is unsigned, so that a negative
   * length is longer than anything.
   */
  function Parse(format: Format, size: int, s: seq<Byte>): (Parsed, int, seq<Byte>) {
    if size == -1 then
      match format.Look(s)
      case NeedHeader => (Nothing, -1, s)
      case BadHeader => (Thrown, format.reader(s[..format.headerSize]), s)
      case NeedBody(len) => (Nothing, len, s)
      case Ready(len) => (One(s[..len]), -1, s[len..])
    else if size < 0 || |s| < size then (Nothing, size, s)
    else (One(s[..size]), -1, s[size..])
  }

  /** One read with a length remembered; an empty message counts as none. */
  function FetchFrom(format: Format, size: int, st: Stream): (Fetched, Stream, int)
    decreases |st.incoming|, 1
  {
    var (parsed, size', s) := Parse(format, size, st.pending);
    if parsed.Thrown? then (BadMsgHeader, Stream(s, st.incoming), size')
    else if parsed.One? && parsed.m != [] then (Message(parsed.m), Stream(s, st.incoming), size')
    else Await(format, size', Stream(s, st.incoming))
  }

  /** The rest of a read that has to take another chunk. */
  function Await(format: Format, size: int, st: Stream): (Fetched, Stream, int)
    decreases |st.incoming|, 0
  {
    if st.incoming == [] then (SocketClosed, st, size)
    else FetchFrom(format, size, Stream(st.pending + st.incoming[0], st.incoming[1..]))
  }

  /** Nothing is remembered, or the length the reader answers for the header in front. */
  predicate Remembers(format: Format, size: int, s: seq<Byte>) {
    size == -1 || (size >= 1 && format.Look(s) in {NeedBody(size), Ready(size)})
  }

  /**
   * Remembering the length makes no difference: a read does what looking at the bytes in hand afresh
   * does, and without a framing error what is remembered is right again.
   */
  lemma {:induction false} RememberedIsFresh(format: Format, size: int, st: Stream)
    requires Remembers(format, size, st.pending)
    ensures var (r, st', size') := FetchFrom(format, size, st);
      && (r, st') == Fetch(format, st)
      && (!r.BadMsgHeader? ==> Remembers(format, size', st'.pending))
    decreases |st.incoming|
  {
    var (parsed, size', s) := Parse(format, size, st.pending);
    if parsed.Nothing? && st.incoming != [] {
      format.LookExtends(s, st.incoming[0]);
      RememberedIsFresh(format, size', Stream(s + st.incoming[0], st.incoming[1..]));
    }
  }

  /**
   * The read after a framing error, the answer `z` of the reader still being remembered: an answer of
   * -1 is reported again, a lower one makes the client deaf, an answer of 0 is reported again once
   * more bytes have arrived, and a positive one cuts off a message that is none.
   */
  lemma {:induction false} AfterBadHeader(format: Format, z: int, st: Stream)
    requires format.Look(st.pending).BadHeader? && z == format.reader(st.pending[..format.headerSize])
    ensures z == -1 ==> FetchFrom(format, z, st) == (BadMsgHeader, st, z)
    ensures z < -1 ==> FetchFrom(format, z, st) == (SocketClosed, Stream(st.pending + Flatten(st.incoming), []), z)
    ensures z == 0 && st.incoming == [] ==> FetchFrom(format, z, st) == (SocketClosed, st, -1)
    ensures z == 0 && st.incoming != [] ==>
      FetchFrom(format, z, st) == (BadMsgHeader, Stream(st.pending + st.incoming[0], st.incoming[1..]), z)
    ensures FetchFrom(format, z, st).0 == BadMsgHeader <==> z == -1 || (z == 0 && st.incoming != [])
    ensures z >= 1 ==> FetchFrom(format, z, st) == (Message(st.pending[..z]), Stream(st.pending[z..], st.incoming), -1)
    decreases |st.incoming|
  {
    if st.incoming == [] {
      assert st.pending + [] == st.pending && st.pending[0..] == st.pending;
    } else {
      var first, later := st.incoming[0], st.incoming[1..];
      format.LookExtends(st.pending, first);
      assert (st.pending + first)[..format.headerSize] == st.pending[..format.headerSize];
      assert st.pending[0..] == st.pending;
      AfterBadHeader(format, z, Stream(st.pending + first, later));
      assert FetchFrom(format, -1, Stream(st.pending + first, later))
          == (BadMsgHeader, Stream(st.pending + first, later), z);
      Assoc(st.pending, first, Flatten(later));
    }
  }

  lemma ParseWhole(format: Format, m: seq<Byte>)
    requires format.headerSize == 0 && format.reader([]) == |m| >= 1
    ensures Parse(format, -1, m) == (One(m), -1, [])
  {
    assert m[..0] == [] && m[..|m|] == m && m[|m|..] == [];
  }

  /**
   * Bytes given to parse are parsed, whatever the format and the bytes in hand, exactly if the receive
   * block starts with the very same bytes.
   */
  lemma BytesGiven(block: seq<Byte>, bytes: seq<Byte>)
    requires |bytes| <= |block|
    ensures (forall format: Format, s: seq<Byte> ::
              Parse(format, -1, s + block[..|bytes|]) == Parse(format, -1, s + bytes))
            <==> block[..|bytes|] == bytes
  {
    var x := block[..|bytes|];
    if x != bytes {
      var format := Format(0, _ => |bytes|);
      ParseWhole(format, x);
      ParseWhole(format, bytes);
      assert [] + x == x && [] + bytes == bytes;
      assert Parse(format, -1, [] + x) != Parse(format, -1, [] + bytes);
    }
  }

  /** A new client whose receive block is zero, given the one-byte message 7, returns 0. */
  method BytesGivenLost(data: seq<Byte>) returns (msg: seq<Byte>)
    requires |data| == DATA_SIZE && data[0] == 0
    ensures msg == [0]
  {
    hide Buffer.Valid;
    var client := new EchoClient(0, Some(_ => 1), data, []);
    var thrown;
    assert [] + data[..1] == [0];
    msg, thrown := client.ReaderMessage(Some([7]));
  }

  /** Size of the block the socket is read into. */
  const DATA_SIZE: nat := 1024

  class EchoClient {
    const headerSize: nat
    const reader: Option<seq<Byte> -> int>
    const buffer: Buffer
    /** Length of the message being received, -1 when unknown. */
    var size: int
    /** The block the socket is read into. */
    var data: seq<Byte>
    /** The chunks the socket will yield. */
    var incoming: seq<seq<Byte>>

    constructor (headerSize: int, reader: Option<seq<Byte> -> int>, data: seq<Byte>, incoming: seq<seq<Byte>>)
      requires |data| == DATA_SIZE && forall chunk <- incoming :: |chunk| <= DATA_SIZE
      ensures Valid() && fresh(buffer.Repr) && size == -1
      ensures this.headerSize == (if headerSize < 0 then 0 else headerSize) && this.reader == reader
      ensures this.data == data && GetStream() == Stream([], incoming)
    {
      this.headerSize := if headerSize > -1 then headerSize else 0;
      this.reader, this.data, this.incoming := reader, data, incoming;
      buffer := new Buffer();
      size := -1;
    }

    function GetFormat(): (r: Format)
      requires reader.Some?
      ensures r.headerSize == headerSize && r.reader == reader.value
    {
      Format(headerSize, reader.value)
    }

    ghost predicate Valid()
      reads this, buffer, buffer.Repr
    {
      && buffer.Valid() && this !in buffer.Repr && (reader.None? ==> size == -1)
      && |data| == DATA_SIZE && forall chunk <- incoming :: |chunk| <= DATA_SIZE
    }

    ghost function GetStream(): Stream
      reads this, buffer
    {
      Stream(buffer.Contents(), incoming)
    }

    /**
     * Takes a message out of the bytes in hand; an empty one when none is whole yet. Given bytes to
     * parse first, it adds as many bytes of its own receive block instead.
     */
    method ReaderMessage(bytes: Option<seq<Byte>> := None) returns (msg: seq<Byte>, thrown: Option<Fetched>)
      requires Valid() && (bytes.Some? ==> |bytes.value| <= DATA_SIZE)
      modifies this`size, buffer.Repr
      ensures Valid() && fresh(buffer.Repr - old(buffer.Repr))
      ensures var s := if bytes.Some? then old(buffer.Contents()) + data[..|bytes.value|] else old(buffer.Contents());
        if reader.Some? then
          var (parsed, size', s') := Parse(GetFormat(), old(size), s);
          && size == size' && buffer.Contents() == s'
          && msg == (if parsed.One? then parsed.m else [])
          && thrown == if parsed.Thrown? then Some(BadMsgHeader) else None
        else
          && buffer.Contents() == s && msg == []
          && thrown == if |s| >= headerSize then Some(NoReader) else None
    {
      hide Buffer.Valid, Buffer.Contents;
      msg, thrown := [], None;
      if bytes.Some? {
        var _ := buffer.Write(data[..|bytes.value|]);
      }
      hide Format.Look;
      if size == -1 {
        var known;
        known, thrown := ReadHeader();
        if !known {
          return;
        }
      }
      msg := ReadBody();
    }

    /** Asks the reader for the length of the message in front, once its header is there. */
    method ReadHeader() returns (known: bool, thrown: Option<Fetched>)
      requires Valid() && size == -1
      modifies this`size
      ensures Valid()
      ensures var s := buffer.Contents();
        if reader.None? then !known && thrown == if |s| >= headerSize then Some(NoReader) else None
        else match GetFormat().Look(s)
             case NeedHeader => !known && thrown == None && size == -1
             case BadHeader => !known && thrown == Some(BadMsgHeader) && size == reader.value(s[..headerSize])
             case NeedBody(len) => known && thrown == None && size == len >= 1 && |s| < len
             case Ready(len) => known && thrown == None && size == len >= 1 && |s| >= len
      ensures var s := buffer.Contents();
        size == if |s| < headerSize || reader.None? then -1 else reader.value(s[..headerSize])
    {
      hide Buffer.Valid, Buffer.Contents;
      var length := buffer.Size();
      if length < headerSize {
        return false, None;
      }
      if reader.None? {
        return false, Some(NoReader);
      }
      if headerSize == 0 {
        size := reader.value([]);
        assert buffer.Contents()[..0] == [];
      } else {
        var header := Peek(buffer, headerSize);
        size := reader.value(header);
      }
      if size < headerSize || size < 1 {
        return false, Some(BadMsgHeader);
      }
      return true, None;
    }

    /** Takes a message of the length remembered out of the buffer, if it is whole. */
    method ReadBody() returns (msg: seq<Byte>)
      requires Valid() && reader.Some? && size != -1
      modifies this`size, buffer.Repr
      ensures Valid() && buffer.Repr == old(buffer.Repr)
      ensures var s, len := old(buffer.Contents()), old(size);
        if len < 0 || |s| < len then msg == [] && size == len && buffer.Contents() == s
        else msg == s[..len] && size == -1 && buffer.Contents() == s[len..]
    {
      hide Buffer.Valid, Buffer.Contents;
      var length := buffer.Size();
      if size < 0 || length < size {
        return [];
      }
      msg := TakeOut(buffer, size);
      size := -1;
    }

    /** `read_some`: one chunk into the receive block. */
    method ReadSome() returns (n: nat)
      requires Valid() && incoming != []
      modifies this`data, this`incoming
      ensures Valid() && incoming == old(incoming)[1..]
      ensures n <= DATA_SIZE && data[..n] == old(incoming)[0] && data[n..] == old(data)[n..]
    {
      hide Buffer.Valid, Buffer.Contents;
      var chunk := incoming[0];
      n := |chunk|;
      data, incoming := chunk + data[n..], incoming[1..];
    }

    /** Reads one message, taking chunks from the socket as long as there is no whole one. */
    method Read() returns (r: Fetched)
      requires Valid()
      modifies this, buffer.Repr
      ensures Valid() && fresh(buffer.Repr - old(buffer.Repr))
      ensures reader.Some? ==> (r, GetStream(), size) == FetchFrom(GetFormat(), old(size), old(GetStream()))
      ensures reader.None? ==>
        if |old(buffer.Contents())| >= headerSize then r == NoReader && GetStream() == old(GetStream())
        else if old(incoming) == [] then r == SocketClosed && GetStream() == old(GetStream())
        else r == Unfilled(|old(incoming)[0]|) && GetStream() == old(GetStream()).(incoming := old(incoming)[1..])
    {
      hide Buffer.Valid, Buffer.Contents, Parse, Format.Look;
      var msg, thrown := ReaderMessage();
      if thrown.Some? {
        return thrown.value;
      }
      if |msg| > 0 {
        return Message(msg);
      }
      while true
        invariant Valid() && fresh(buffer.Repr - old(buffer.Repr))
        invariant reader.None? ==> GetStream() == old(GetStream()) && |buffer.Contents()| < headerSize
        invariant reader.Some? ==>
          FetchFrom(GetFormat(), old(size), old(GetStream())) == Await(GetFormat(), size, GetStream())
        decreases |incoming|
      {
        if incoming == [] {
          return SocketClosed;
        }
        var n := ReadSome();
        if reader.None? {
          return Unfilled(n);
        }
        var _ := buffer.Write(data[..n]);
        msg, thrown := ReaderMessage();
        if thrown.Some? {
          return thrown.value;
        }
        if |msg| > 0 {
          return Message(msg);
        }
      }
    }
  }
}
