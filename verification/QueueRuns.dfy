/** The buffer as a plain byte queue over any run of calls. */
module QueueRuns {
  import opened Bytes
  import opened Buffers

  datatype Op = Write(bytes: seq<Byte>) | Read(n: nat) | Reset(clearCache: bool)

  /** One call on a plain queue: what it hands out and what it leaves. */
  function Step(q: seq<Byte>, op: Op): (seq<Byte>, seq<Byte>) {
    match op
    case Write(bytes) => ([], q + bytes)
    case Read(n) => (Take(q, n), Drop(q, n))
    case Reset(_) => ([], [])
  }

  /** A run: everything handed out, and what is left. */
  function Run(q: seq<Byte>, ops: seq<Op>): (seq<Byte>, seq<Byte>)
    decreases |ops|
  {
    if ops == [] then ([], q)
    else
      var (out, q1) := Step(q, ops[0]);
      var (outs, q') := Run(q1, ops[1..]);
      (out + outs, q')
  }

  function Written(ops: seq<Op>): seq<Byte> {
    if ops == [] then [] else (if ops[0].Write? then ops[0].bytes else []) + Written(ops[1..])
  }

  /** Without a reset the bytes come out in the order they went in, and none is lost or made up. */
  lemma {:induction false} FirstInFirstOut(q: seq<Byte>, ops: seq<Op>)
    requires forall op <- ops :: !op.Reset?
    ensures var (out, q') := Run(q, ops); q + Written(ops) == out + q'
    decreases |ops|
  {
    if ops != [] {
      var (out, q1) := Step(q, ops[0]);
      var (outs, q') := Run(q1, ops[1..]);
      var later := Written(ops[1..]);
      FirstInFirstOut(q1, ops[1..]);
      assert ops[0] in ops;
      Assoc(out, outs, q');
      match ops[0] {
        case Write(bytes) => Assoc(q, bytes, later);
        case Read(n) => Assoc(Take(q, n), Drop(q, n), later);
      }
    }
  }

  /** Any run of calls on a buffer does what the plain queue does, and leaves the buffer in shape. */
  method Replay(buffer: Buffer, ops: seq<Op>) returns (out: seq<Byte>)
    requires buffer.Valid()
    modifies buffer.Repr
    ensures buffer.Valid() && fresh(buffer.Repr - old(buffer.Repr))
    ensures (out, buffer.Contents()) == Run(old(buffer.Contents()), ops)
  {
    hide Buffer.Valid, Buffer.Contents;
    out := [];
    ghost var q := buffer.Contents();
    assert ops[0..] == ops && [] + Run(q, ops).0 == Run(q, ops).0;
    for i := 0 to |ops|
      invariant buffer.Valid() && fresh(buffer.Repr - old(buffer.Repr))
      invariant var (later, q') := Run(buffer.Contents(), ops[i..]); (out + later, q') == Run(q, ops)
    {
      assert ops[i..][1..] == ops[i + 1..];
      var now := Call(buffer, ops[i]);
      Assoc(out, now, Run(buffer.Contents(), ops[i + 1..]).0);
      out := out + now;
    }
    assert ops[|ops|..] == [] && out + [] == out;
  }

  method Call(buffer: Buffer, op: Op) returns (out: seq<Byte>)
    requires buffer.Valid()
    modifies buffer.Repr
    ensures buffer.Valid() && fresh(buffer.Repr - old(buffer.Repr))
    ensures (out, buffer.Contents()) == Step(old(buffer.Contents()), op)
  {
    match op
    case Write(bytes) =>
      var _ := buffer.Write(bytes);
      out := [];
    case Read(n) =>
      var bytes := new Byte[n];
      var sum := buffer.Read(bytes, 0, n);
      out := bytes[..sum];
      assert out == Take(old(buffer.Contents()), n);
    case Reset(clearCache) =>
      buffer.Reset(clearCache);
      out := [];
  }
}
