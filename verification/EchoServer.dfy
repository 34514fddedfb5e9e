/** The framing server (`kg::net::echo_server_t`) and the read loop that drives it. */
module EchoServers {
  import opened Bytes
  import opened Buffers
  import opened Framing
  import opened Options

  /** The message callback: whether to go on, given everything delivered up to this message. */
  type Readed = seq<seq<Byte>> -> bool

  /** A connection as its peer sees it: bytes waiting, messages handed over, still served or not. */
  datatype Connection = Connection(pending: seq<Byte>, delivered: seq<seq<Byte>>, open: bool)

  const FRESH := Connection([], [], true)

  /** One chunk arrives: at most one message is handed over. */
  function Receive(format: Format, readed: Readed, c: Connection, chunk: seq<Byte>): Connection {
    if !c.open then c
    else
      var s := c.pending + chunk;
      match format.Look(s)
      case BadHeader => Connection(s, c.delivered, false)
      case Ready(len) =>
        var delivered := c.delivered + [s[..len]];
        Connection(s[len..], delivered, readed(delivered))
      case _ => Connection(s, c.delivered, true)
  }

  /** A run over a list of chunks. */
  function Serve(format: Format, readed: Readed, chunks: seq<seq<Byte>>): Connection {
    if chunks == [] then FRESH
    else
      var last := |chunks| - 1;
      Receive(format, readed, Serve(format, readed, chunks[..last]), chunks[last])
  }

  /** Every chunk is a message, up to the first the callback refuses. */
  ghost predicate ServedWhole(readed: Readed, c: Connection, chunks: seq<seq<Byte>>) {
    && c.pending == [] && c.delivered <= chunks && (c.open ==> c.delivered == chunks)
    && (forall k :: 1 <= k < |c.delivered| ==> readed(c.delivered[..k]))
    && c.open == (c.delivered == [] || readed(c.delivered))
  }

  lemma ServedWholeNone(readed: Readed, chunks: seq<seq<Byte>>)
    ensures ServedWhole(readed, FRESH, chunks[..0])
  {
  }

  lemma ServedWholeNext(readed: Readed, c: Connection, chunks: seq<seq<Byte>>, i: nat)
    requires i < |chunks| && c.open && ServedWhole(readed, c, chunks[..i])
    ensures var delivered := c.delivered + [chunks[i]];
      var c' := Connection(c.pending, delivered, readed(delivered));
      ServedWhole(readed, c', chunks[..i + 1]) && (!c'.open ==> ServedWhole(readed, c', chunks))
  {
    var delivered := c.delivered + [chunks[i]];
    assert delivered == chunks[..i + 1];
    assert c.delivered[..i] == c.delivered;
    forall k | 1 <= k <= i
      ensures delivered[..k] == c.delivered[..k]
    {
    }
  }

  class BasicSession {
    const buffer: Buffer
    /** Length of the message being received, -1 when unknown. */
    var size: int
    /** The messages handed to the callback. */
    var delivered: seq<seq<Byte>>

    constructor ()
      ensures buffer.Valid() && fresh(buffer.Repr) && this !in buffer.Repr
      ensures size == -1 && delivered == [] && buffer.Contents() == []
    {
      buffer := new Buffer();
      size, delivered := -1, [];
    }

    ghost predicate Owned()
      reads this, buffer, buffer.Repr
    {
      buffer.Valid() && this !in buffer.Repr
    }

    /** A remembered length is the reader's answer for the header in front, and the message is incomplete. */
    ghost predicate Valid(format: Format)
      reads this, buffer, buffer.Repr
    {
      Owned() && (size == -1 || (size >= 1 && format.Look(buffer.Contents()) == NeedBody(size)))
    }

    ghost function Observed(open: bool): Connection
      reads this, buffer
    {
      Connection(buffer.Contents(), delivered, open)
    }
  }

  class EchoServer {
    const headerSize: nat
    const reader: Option<seq<Byte> -> int>
    const readed: Option<Readed>

    constructor (headerSize: int, reader: Option<seq<Byte> -> int>, readed: Option<Readed>)
      ensures this.headerSize == if headerSize < 0 then 0 else headerSize
      ensures this.reader == reader && this.readed == readed
    {
      this.headerSize := if headerSize > -1 then headerSize else 0;
      this.reader, this.readed := reader, readed;
    }

    ghost function GetFormat(): (r: Format)
      requires reader.Some?
      ensures r.headerSize == headerSize && r.reader == reader.value
    {
      Format(headerSize, reader.value)
    }

    /** One chunk has been read from the socket of `basic`; answers whether to go on reading. */
    method ForwardReaded(basic: BasicSession, bytes: seq<Byte>) returns (ok: bool)
      requires basic.Owned() && (readed.Some? && reader.Some? ==> basic.Valid(GetFormat()))
      modifies basic, basic.buffer.Repr
      ensures fresh(basic.buffer.Repr - old(basic.buffer.Repr))
      ensures readed.None? || reader.None? ==>
        basic.Owned() && basic.size == old(basic.size) && basic.buffer.Contents() == old(basic.buffer.Contents())
      ensures readed.None? ==> ok && basic.delivered == old(basic.delivered)
      ensures readed.Some? && reader.None? ==>
        basic.delivered == old(basic.delivered) + [bytes] && ok == readed.value(basic.delivered)
      ensures readed.Some? && reader.Some? ==>
        && basic.Observed(ok) == Receive(GetFormat(), readed.value, old(basic.Observed(true)), bytes)
        && (ok ==> basic.Valid(GetFormat()))
    {
      if readed.None? {
        return true;
      }
      if reader.None? {
        basic.delivered := basic.delivered + [bytes];
        return readed.value(basic.delivered);
      }
      ok := Unpack(basic, bytes);
    }

    /** The framing step itself, with both callbacks set. */
    method Unpack(basic: BasicSession, bytes: seq<Byte>) returns (ok: bool)
      requires readed.Some? && reader.Some? && basic.Valid(GetFormat())
      modifies basic, basic.buffer.Repr
      ensures fresh(basic.buffer.Repr - old(basic.buffer.Repr))
      ensures basic.Observed(ok) == Receive(GetFormat(), readed.value, old(basic.Observed(true)), bytes)
      ensures ok ==> basic.Valid(GetFormat())
    {
      hide Buffer.Valid, Buffer.Contents;
      GetFormat().LookExtends(basic.buffer.Contents(), bytes);
      var _ := basic.buffer.Write(bytes);
      hide Format.Look;
      if basic.size == -1 {
        var answer := ReadHeader(basic);
        if answer.Some? {
          return answer.value;
        }
      }
      ok := ReadBody(basic);
    }

    /** Asks the reader for the length of the message in front; `Some` is an answer to give at once. */
    method ReadHeader(basic: BasicSession) returns (answer: Option<bool>)
      requires reader.Some? && basic.Owned() && basic.size == -1
      modifies basic`size
      ensures match GetFormat().Look(basic.buffer.Contents())
              case NeedHeader => answer == Some(true) && basic.size == -1
              case BadHeader => answer == Some(false)
              case NeedBody(len) => answer == None && basic.size == len >= 1
              case Ready(len) => answer == None && basic.size == len >= 1
      ensures var s := basic.buffer.Contents();
        basic.size == if |s| < headerSize then -1 else reader.value(s[..headerSize])
    {
      hide Buffer.Valid, Buffer.Contents;
      if headerSize == 0 {
        basic.size := reader.value([]);
        assert basic.buffer.Contents()[..0] == [];
      } else {
        var length := basic.buffer.Size();
        if length < headerSize {
          return Some(true);
        }
        var header := Peek(basic.buffer, headerSize);
        basic.size := reader.value(header);
      }
      if basic.size < headerSize || basic.size < 1 {
        return Some(false);
      }
      return None;
    }

    /** Hands over the message in front once it is whole. */
    method ReadBody(basic: BasicSession) returns (ok: bool)
      requires readed.Some? && basic.Owned() && basic.size >= 1
      modifies basic, basic.buffer.Repr
      ensures basic.Owned() && basic.buffer.Repr == old(basic.buffer.Repr)
      ensures var s, len := old(basic.buffer.Contents()), old(basic.size);
        if |s| < len
        then ok && basic.size == len && basic.Observed(true) == old(basic.Observed(true))
        else && basic.Observed(true) == Connection(s[len..], old(basic.delivered) + [s[..len]], true)
             && ok == readed.value(basic.delivered) && (ok ==> basic.size == -1)
    {
      hide Buffer.Valid, Buffer.Contents;
      var length := basic.buffer.Size();
      if length < basic.size {
        return true;
      }
      var msg := TakeOut(basic.buffer, basic.size);
      basic.delivered := basic.delivered + [msg];
      if !readed.value(basic.delivered) {
        return false;
      }
      basic.size := -1;
      return true;
    }

    /**
     * What the connection `basic` comes to after `chunks`: without a message callback nothing
     * happens, without a reader every chunk is a message.
     */
    ghost predicate Served(basic: BasicSession, chunks: seq<seq<Byte>>, open: bool)
      reads basic, basic.buffer, basic.buffer.Repr
    {
      if readed.None? then basic.Owned() && basic.Observed(open) == FRESH
      else if reader.None? then basic.Owned() && ServedWhole(readed.value, basic.Observed(open), chunks)
      else
        && basic.Observed(open) == Serve(GetFormat(), readed.value, chunks)
        && (open ==> basic.Valid(GetFormat()))
    }

    /** The read loop of one connection: feeds chunks to `ForwardReaded` until it refuses one. */
    method CoroutineRead(chunks: seq<seq<Byte>>) returns (basic: BasicSession, open: bool)
      ensures Served(basic, chunks, open)
    {
      hide Buffer.Valid, Buffer.Contents, Serve, Receive, ServedWhole;
      basic := new BasicSession();
      open := true;
      var i := 0;
      assert chunks[..|chunks|] == chunks;
      if readed.Some? && reader.Some? {
        ServeNone(GetFormat(), readed.value, chunks);
      } else if readed.Some? {
        ServedWholeNone(readed.value, chunks);
      }
      while i < |chunks|
        invariant i <= |chunks|
        invariant fresh(basic) && fresh(basic.buffer.Repr)
        invariant open && basic.Owned() && Served(basic, chunks[..i], open)
      {
        ghost var before := basic.Observed(true);
        open := ForwardReaded(basic, chunks[i]);
        if readed.Some? && reader.Some? {
          ServeNext(GetFormat(), readed.value, chunks, i);
        } else if readed.Some? {
          ServedWholeNext(readed.value, before, chunks, i);
        }
        i := i + 1;
        if !open {
          if readed.Some? && reader.Some? {
            ServeClosed(GetFormat(), readed.value, chunks, i);
          }
          return;
        }
      }
    }
  }

  lemma ServeNone(format: Format, readed: Readed, chunks: seq<seq<Byte>>)
    ensures Serve(format, readed, chunks[..0]) == FRESH
  {
  }

  lemma ServeNext(format: Format, readed: Readed, chunks: seq<seq<Byte>>, i: nat)
    requires i < |chunks|
    ensures Serve(format, readed, chunks[..i + 1])
         == Receive(format, readed, Serve(format, readed, chunks[..i]), chunks[i])
  {
    assert chunks[..i + 1][..i] == chunks[..i];
  }

  /** A refused connection stays as it was. */
  lemma {:induction false} ServeClosed(format: Format, readed: Readed, chunks: seq<seq<Byte>>, i: nat)
    requires i <= |chunks| && !Serve(format, readed, chunks[..i]).open
    ensures Serve(format, readed, chunks) == Serve(format, readed, chunks[..i])
    decreases |chunks|
  {
    if i == |chunks| {
      assert chunks[..i] == chunks;
    } else {
      assert chunks[..|chunks| - 1][..i] == chunks[..i];
      ServeClosed(format, readed, chunks[..|chunks| - 1], i);
    }
  }
}
