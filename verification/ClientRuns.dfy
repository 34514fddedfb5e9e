/** What repeated reads of a framing client return, however the stream is cut into chunks. */
module ClientRuns {
  import opened Bytes
  import opened Framing
  import opened EchoClients

  /** The bytes in hand once `k` chunks are taken from the socket. */
  function Taken(st: Stream, k: nat): seq<Byte>
    requires k <= |st.incoming|
  {
    st.pending + Flatten(st.incoming[..k])
  }

  /** Every byte there will ever be. */
  function Whole(st: Stream): seq<Byte> {
    st.pending + Flatten(st.incoming)
  }

  ghost predicate Undecided(front: Front) {
    front.NeedHeader? || front.NeedBody?
  }

  lemma TakenNext(st: Stream, k: nat)
    requires k < |st.incoming|
    ensures Taken(Stream(st.pending + st.incoming[0], st.incoming[1..]), k) == Taken(st, k + 1)
  {
    assert st.incoming[..k + 1] == [st.incoming[0]] + st.incoming[1..][..k];
    FlattenCons(st.incoming[0], st.incoming[1..][..k]);
  }

  /**
   * A read takes the fewest chunks that decide: before the last of them there was neither a whole
   * message nor a bad header in hand.
   */
  lemma {:induction false} FetchTakesLeast(format: Format, st: Stream) returns (k: nat)
    ensures var (r, st') := Fetch(format, st);
      && k <= |st.incoming| && st'.incoming == st.incoming[k..]
      && (forall j :: 0 <= j < k ==> Undecided(format.Look(Taken(st, j))))
      && match r
         case Message(m) =>
           format.Look(Taken(st, k)) == Ready(|m|) && m + st'.pending == Taken(st, k)
         case BadMsgHeader => format.Look(Taken(st, k)).BadHeader? && st'.pending == Taken(st, k)
         case SocketClosed =>
           k == |st.incoming| && Undecided(format.Look(Taken(st, k))) && st'.pending == Taken(st, k)
         case _ => false
    decreases |st.incoming|
  {
    assert Taken(st, 0) == st.pending;
    if Undecided(format.Look(st.pending)) && st.incoming != [] {
      var next := Stream(st.pending + st.incoming[0], st.incoming[1..]);
      var k' := FetchTakesLeast(format, next);
      k := k' + 1;
      TakenNext(st, k');
      forall j | 0 <= j < k
        ensures Undecided(format.Look(Taken(st, j)))
      {
        if j > 0 {
          TakenNext(st, j - 1);
        }
      }
    } else {
      k := 0;
    }
  }

  /** A read returns the stream's next message if there is one, and leaves the rest of the stream. */
  lemma FetchMessage(format: Format, st: Stream)
    ensures var (r, st') := Fetch(format, st);
      && (r.Message? <==> format.Frames(Whole(st)) != [])
      && (r.Message? ==> r.m == format.Frames(Whole(st))[0] && Whole(st') == format.After(Whole(st), 1))
      && (!r.Message? ==> Whole(st') == Whole(st))
      && (r.BadMsgHeader? <==> format.Look(Whole(st)).BadHeader?)
      && (r.Message? || r.BadMsgHeader? || r.SocketClosed?)
  {
    hide Fetch, Flatten, Format.Look;
    var (r, st') := Fetch(format, st);
    var k := FetchTakesLeast(format, st);
    FlattenAppend(st.incoming[..k], st.incoming[k..]);
    assert st.incoming == st.incoming[..k] + st.incoming[k..];
    assert Whole(st) == Taken(st, k) + Flatten(st.incoming[k..]);
    format.LookExtends(Taken(st, k), Flatten(st.incoming[k..]));
    if r.SocketClosed? {
      assert st.incoming[k..] == [];
      FlattenNone();
      assert Whole(st) == Taken(st, k);
    } else if r.Message? {
      assert r.m + st'.pending + Flatten(st'.incoming) == r.m + (st'.pending + Flatten(st'.incoming));
      assert Whole(st) == r.m + Whole(st');
    }
  }

  /** `n` reads in a row: the messages returned, and what is left. */
  function Reads(format: Format, st: Stream, n: nat): (seq<seq<Byte>>, Stream)
    decreases n
  {
    if n == 0 then ([], st)
    else
      var (r, st1) := Fetch(format, st);
      if r.Message? then
        var (ms, st') := Reads(format, st1, n - 1);
        ([r.m] + ms, st')
      else ([], st1)
  }

  lemma FirstAndMore<T>(frames: seq<T>, ms: seq<T>, n: nat)
    requires n > 0 && frames != [] && ms == frames[1..][..Min(n - 1, |frames| - 1)]
    ensures [frames[0]] + ms == frames[..Min(n, |frames|)]
  {
  }

  /** Reads return the stream's messages in order, as many as there are, whatever the chunks. */
  lemma {:induction false} ReadsReturnFrames(format: Format, st: Stream, n: nat)
    ensures var (ms, st') := Reads(format, st, n);
      var frames := format.Frames(Whole(st));
      && ms == frames[..Min(n, |frames|)]
      && Whole(st') == format.After(Whole(st), |ms|)
    decreases n
  {
    if n > 0 {
      hide Fetch, Whole, Format.Frames;
      var (r, st1) := Fetch(format, st);
      FetchMessage(format, st);
      if r.Message? {
        format.AfterFrames(Whole(st), 1);
        ReadsReturnFrames(format, st1, n - 1);
        var (ms, st') := Reads(format, st1, n - 1);
        AfterMore(format, Whole(st), |ms|);
        hide *;
        FirstAndMore(format.Frames(Whole(st)), ms, n);
      }
    }
  }

  /** Whatever reads return is as long as its own header says. */
  lemma ReadsReturnWhole(format: Format, st: Stream, n: nat)
    ensures forall m <- Reads(format, st, n).0 :: format.IsFrame(m)
  {
    hide Reads, Whole, Format.Frames, Format.IsFrame;
    ReadsReturnFrames(format, st, n);
    format.Decompose(Whole(st));
    var ms, frames := Reads(format, st, n).0, format.Frames(Whole(st));
    assert forall i :: 0 <= i < |ms| ==> ms[i] == frames[i];
  }

  /** `n` reads of a client, ended by the first that returns no message. */
  method ReadMany(client: EchoClient, n: nat) returns (ms: seq<seq<Byte>>)
    requires client.Valid() && client.reader.Some?
    requires Remembers(client.GetFormat(), client.size, client.buffer.Contents())
    modifies client, client.buffer.Repr
    ensures client.Valid() && fresh(client.buffer.Repr - old(client.buffer.Repr))
    ensures (ms, client.GetStream()) == Reads(client.GetFormat(), old(client.GetStream()), n)
    ensures var frames := client.GetFormat().Frames(Whole(old(client.GetStream()))); ms == frames[..Min(n, |frames|)]
    ensures forall m <- ms :: client.GetFormat().IsFrame(m)
    decreases n
  {
    hide EchoClient.Valid, Fetch, FetchFrom, Remembers, Whole, Format.Frames, Format.IsFrame;
    ReadsReturnFrames(client.GetFormat(), client.GetStream(), n);
    ReadsReturnWhole(client.GetFormat(), client.GetStream(), n);
    ms := [];
    if n > 0 {
      RememberedIsFresh(client.GetFormat(), client.size, client.GetStream());
      var r := client.Read();
      if r.Message? {
        ms := ReadMany(client, n - 1);
        ms := [r.m] + ms;
      }
    }
  }

  lemma AfterMore(format: Format, s: seq<Byte>, d: nat)
    requires 1 <= |format.Frames(s)|
    requires d <= |format.Frames(format.After(s, 1))|
    ensures 1 + d <= |format.Frames(s)| && format.After(format.After(s, 1), d) == format.After(s, 1 + d)
  {
    format.AfterFrames(s, 1);
  }

  /**
   * After all messages, one more read reports the framing error or the end of the socket, according
   * to what follows the last message; no byte is lost.
   */
  lemma LastRead(format: Format, st: Stream)
    ensures var s := Whole(st);
      var (ms, st1) := Reads(format, st, |format.Frames(s)|);
      var (r, st2) := Fetch(format, st1);
      && ms == format.Frames(s) && Whole(st2) == format.Rest(s)
      && r == if format.Look(format.Rest(s)).BadHeader? then BadMsgHeader else SocketClosed
  {
    var s := Whole(st);
    var d := |format.Frames(s)|;
    var (ms, st1) := Reads(format, st, d);
    ReadsReturnFrames(format, st, d);
    format.AfterAll(s);
    format.Decompose(s);
    FetchMessage(format, st1);
  }

  /** Two ways to cut the same stream give the same messages, read for read. */
  lemma ChunkingIrrelevant(format: Format, a: Stream, b: Stream, n: nat)
    requires Whole(a) == Whole(b)
    ensures Reads(format, a, n).0 == Reads(format, b, n).0
  {
    ReadsReturnFrames(format, a, n);
    ReadsReturnFrames(format, b, n);
  }

  /**
   * Reads take no chunk early: the chunks taken for `n` messages are the fewest whose bytes complete
   * `n` messages.
   */
  lemma {:induction false} ReadsTakeLeast(format: Format, st: Stream, n: nat) returns (k: nat)
    requires 1 <= n <= |format.Frames(Whole(st))|
    ensures k <= |st.incoming| && Reads(format, st, n).1.incoming == st.incoming[k..]
    ensures |format.Frames(Taken(st, k))| >= n
    ensures forall j :: 0 <= j < k ==> |format.Frames(Taken(st, j))| < n
    decreases n
  {
    hide Taken, Whole, Fetch;
    var (r, st1) := Fetch(format, st);
    FetchMessage(format, st);
    var k1 := FetchTakesLeast(format, st);
    format.AfterFrames(Whole(st), 1);
    if n == 1 {
      k := k1;
    } else {
      var k2 := ReadsTakeLeast(format, st1, n - 1);
      k := k1 + k2;
      assert st1.incoming[k2..] == st.incoming[k..];
      TakenAfterFetch(format, st, k1, k2);
      forall j | 0 <= j < k
        ensures |format.Frames(Taken(st, j))| < n
      {
        if j >= k1 {
          TakenAfterFetch(format, st, k1, j - k1);
        }
      }
    }
  }

  /** The bytes in hand some chunks after a message was returned, with and without it. */
  lemma TakenAfterFetch(format: Format, st: Stream, k: nat, j: nat)
    requires Fetch(format, st).0.Message? && k + j <= |st.incoming|
    requires var (r, st') := Fetch(format, st);
      && st'.incoming == st.incoming[k..]
      && format.Look(Taken(st, k)) == Ready(|r.m|) && r.m + st'.pending == Taken(st, k)
    ensures |format.Frames(Taken(st, k + j))| == 1 + |format.Frames(Taken(Fetch(format, st).1, j))|
  {
    var (r, st') := Fetch(format, st);
    var later := Flatten(st'.incoming[..j]);
    assert st.incoming[..k + j] == st.incoming[..k] + st'.incoming[..j];
    FlattenAppend(st.incoming[..k], st'.incoming[..j]);
    assert Taken(st, k + j) == Taken(st, k) + later;
    format.LookExtends(Taken(st, k), later);
    assert Taken(st, k) + later == r.m + (st'.pending + later);
    assert Taken(st, k + j)[|r.m|..] == Taken(st', j);
  }
}
