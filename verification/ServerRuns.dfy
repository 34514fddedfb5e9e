/** What a framing server has handed over after any run of chunks. */
module ServerRuns {
  import opened Bytes
  import opened Framing
  import opened EchoServers

  /** Messages complete in the bytes of `chunks`. */
  function Complete(format: Format, chunks: seq<seq<Byte>>): nat {
    |format.Frames(Flatten(chunks))|
  }

  /** Messages handed over after `chunks`: one a chunk, never more than are complete. */
  function Pace(format: Format, chunks: seq<seq<Byte>>): (d: nat)
    ensures d <= Complete(format, chunks)
  {
    if chunks == [] then 0
    else Min(Pace(format, chunks[..|chunks| - 1]) + 1, Complete(format, chunks))
  }

  lemma SplitLast(chunks: seq<seq<Byte>>)
    requires chunks != []
    ensures var last := |chunks| - 1;
      Flatten(chunks) == Flatten(chunks[..last]) + chunks[last]
  {
    var last := |chunks| - 1;
    FlattenSnoc(chunks[..last], chunks[last]);
    assert chunks == chunks[..last] + [chunks[last]];
  }

  /**
   * A run still open has handed over exactly the first `Pace` messages of the stream and holds every
   * other byte received.
   */
  lemma {:induction false} OpenRun(format: Format, readed: Readed, chunks: seq<seq<Byte>>)
    requires Serve(format, readed, chunks).open
    ensures var s, c, d := Flatten(chunks), Serve(format, readed, chunks), Pace(format, chunks);
      && c.delivered == format.Frames(s)[..d]
      && c.pending == format.After(s, d)
      && Flatten(c.delivered) + c.pending == s
  {
    var s, d := Flatten(chunks), Pace(format, chunks);
    if chunks == [] {
      assert format.Frames(s)[..0] == [];
    } else {
      var last := |chunks| - 1;
      var before, chunk := chunks[..last], chunks[last];
      OpenRun(format, readed, before);
      SplitLast(chunks);
      NextStep(format, Flatten(before), chunk, Pace(format, before));
    }
    format.AfterJoins(s, d);
  }

  /** What the next chunk does to a stream of which `d` messages are handed over. */
  lemma NextStep(format: Format, s: seq<Byte>, chunk: seq<Byte>, d: nat)
    requires d <= |format.Frames(s)|
    ensures d <= |format.Frames(s + chunk)|
    ensures format.After(s, d) + chunk == format.After(s + chunk, d)
    ensures format.Frames(s)[..d] == format.Frames(s + chunk)[..d]
    ensures match format.Look(format.After(s + chunk, d))
            case Ready(len) =>
              && d < |format.Frames(s + chunk)|
              && format.Frames(s + chunk)[d] == format.After(s + chunk, d)[..len]
              && format.After(s + chunk, d)[len..] == format.After(s + chunk, d + 1)
              && format.Frames(s + chunk)[..d] + [format.Frames(s + chunk)[d]] == format.Frames(s + chunk)[..d + 1]
            case _ => d == |format.Frames(s + chunk)|
  {
    format.AfterExtend(s, chunk, d);
    format.AfterFrames(s + chunk, d);
    if d < |format.Frames(s + chunk)| {
      AfterNext(format, s + chunk, d);
    }
  }

  lemma {:induction false} AfterNext(format: Format, s: seq<Byte>, d: nat)
    requires d < |format.Frames(s)|
    ensures var front := format.Look(format.After(s, d));
      front.Ready? && format.After(s, d)[front.len..] == format.After(s, d + 1)
  {
    if d > 0 {
      AfterNext(format, s[format.Look(s).len..], d - 1);
    }
  }

  /**
   * The server refuses a chunk exactly when the first message not handed over has a complete header
   * that announces less than the header or less than a byte, or when the callback refuses the message
   * the chunk completes.
   */
  lemma Refusal(format: Format, readed: Readed, chunks: seq<seq<Byte>>, chunk: seq<Byte>)
    requires Serve(format, readed, chunks).open
    ensures var s, d := Flatten(chunks) + chunk, Pace(format, chunks);
      && d <= |format.Frames(s)|
      && (Serve(format, readed, chunks + [chunk]).open <==>
            && !format.Look(format.After(s, d)).BadHeader?
            && (d < |format.Frames(s)| ==> readed(format.Frames(s)[..d + 1])))
  {
    OpenRun(format, readed, chunks);
    NextStep(format, Flatten(chunks), chunk, Pace(format, chunks));
    assert (chunks + [chunk])[..|chunks|] == chunks;
  }

  /** The documented end of a connection: the reader answers less than 0 or less than the header. */
  predicate DocumentedEnd(format: Format, s: seq<Byte>)
    requires |s| >= format.headerSize
  {
    var len := format.reader(s[..format.headerSize]);
    len < 0 || len < format.headerSize
  }

  /** A complete header is refused as documented, and beyond that only for a message of no bytes at all. */
  lemma RefusedHeaders(format: Format, s: seq<Byte>)
    requires |s| >= format.headerSize
    ensures format.Look(s).BadHeader? <==>
      DocumentedEnd(format, s) || (format.headerSize == 0 && format.reader([]) == 0)
  {
  }

  /** A message of no bytes, which the documentation allows, ends the connection. */
  lemma EmptyMessageRefused(format: Format, readed: Readed, chunk: seq<Byte>)
    requires format.headerSize == 0 && format.reader([]) == 0
    ensures !DocumentedEnd(format, chunk)
    ensures Serve(format, readed, [chunk]) == Connection(chunk, [], false)
  {
  }

  /** One chunk moves bytes from those waiting to those handed over, and loses none. */
  lemma ReceiveKeeps(format: Format, readed: Readed, c: Connection, chunk: seq<Byte>)
    requires c.open
    ensures var c' := Receive(format, readed, c, chunk);
      Flatten(c'.delivered) + c'.pending == Flatten(c.delivered) + (c.pending + chunk)
  {
    var s := c.pending + chunk;
    match format.Look(s)
    case Ready(len) =>
      hide Flatten;
      FlattenSnoc(c.delivered, s[..len]);
      Assoc(Flatten(c.delivered), s[..len], s[len..]);
      CutAt(s, len);
    case _ =>
  }

  /** Open or refused, what was handed over and what is held make up the front of the stream. */
  lemma {:induction false} FrontOfStream(format: Format, readed: Readed, chunks: seq<seq<Byte>>)
    ensures var c := Serve(format, readed, chunks);
      && Flatten(c.delivered) + c.pending <= Flatten(chunks)
      && (c.open ==> Flatten(c.delivered) + c.pending == Flatten(chunks))
  {
    if chunks != [] {
      var last := |chunks| - 1;
      var before, chunk := chunks[..last], chunks[last];
      FrontOfStream(format, readed, before);
      SplitLast(chunks);
      var c := Serve(format, readed, before);
      if c.open {
        ReceiveKeeps(format, readed, c, chunk);
        Assoc(Flatten(c.delivered), c.pending, chunk);
      }
    }
  }

  /** Open or refused, what was handed over is the front of the stream's messages. */
  lemma {:induction false} DeliveredPrefix(format: Format, readed: Readed, chunks: seq<seq<Byte>>)
    ensures Serve(format, readed, chunks).delivered <= format.Frames(Flatten(chunks))
  {
    if chunks != [] {
      var last := |chunks| - 1;
      var before, chunk := chunks[..last], chunks[last];
      SplitLast(chunks);
      if Serve(format, readed, before).open {
        OpenRun(format, readed, before);
        NextStep(format, Flatten(before), chunk, Pace(format, before));
      } else {
        DeliveredPrefix(format, readed, before);
        format.AfterExtend(Flatten(before), chunk, 0);
      }
    }
  }

  /** Whatever is handed over is as long as its own header says. */
  lemma DeliveredWhole(format: Format, readed: Readed, chunks: seq<seq<Byte>>)
    ensures forall m <- Serve(format, readed, chunks).delivered :: format.IsFrame(m)
  {
    hide Serve, Flatten, Format.Frames, Format.IsFrame;
    DeliveredPrefix(format, readed, chunks);
    format.Decompose(Flatten(chunks));
    var ms, frames := Serve(format, readed, chunks).delivered, format.Frames(Flatten(chunks));
    assert forall i :: 0 <= i < |ms| ==> ms[i] == frames[i];
  }

  /** What a connection is left with by a chunk refused when `d` messages of the stream `s` were handed over. */
  predicate LeftWith(format: Format, readed: Readed, s: seq<Byte>, d: nat, c: Connection) {
    var frames := format.Frames(s);
    && d <= |frames|
    && if d == |frames|
       then format.Look(format.Rest(s)).BadHeader? && c == Connection(format.Rest(s), frames, false)
       else !readed(frames[..d + 1]) && c == Connection(format.After(s, d + 1), frames[..d + 1], false)
  }

  /**
   * A refused run ended with the first chunk refused. Before it `Pace` messages were handed over; if it
   * was the callback that refused, the message refused has been handed over too.
   */
  lemma {:induction false} RefusedRun(format: Format, readed: Readed, chunks: seq<seq<Byte>>) returns (i: nat)
    requires !Serve(format, readed, chunks).open
    ensures i < |chunks| && Serve(format, readed, chunks[..i]).open
    ensures LeftWith(format, readed, Flatten(chunks[..i + 1]), Pace(format, chunks[..i]), Serve(format, readed, chunks))
  {
    hide Flatten, LeftWith, Pace;
    var last := |chunks| - 1;
    var before := chunks[..last];
    if Serve(format, readed, before).open {
      i := last;
      assert chunks[..last + 1] == chunks;
      RefusedStep(format, readed, before, chunks[last]);
      SplitLast(chunks);
    } else {
      i := RefusedRun(format, readed, before);
      assert before[..i] == chunks[..i] && before[..i + 1] == chunks[..i + 1];
    }
  }

  lemma RefusedStep(format: Format, readed: Readed, before: seq<seq<Byte>>, chunk: seq<Byte>)
    requires Serve(format, readed, before).open
    requires !Receive(format, readed, Serve(format, readed, before), chunk).open
    ensures LeftWith(format, readed, Flatten(before) + chunk, Pace(format, before),
      Receive(format, readed, Serve(format, readed, before), chunk))
  {
    hide Format.Look, Flatten, Format.Frames, Format.Rest, Format.After, Pace, Serve;
    var s, d := Flatten(before) + chunk, Pace(format, before);
    OpenRun(format, readed, before);
    NextStep(format, Flatten(before), chunk, d);
    format.AfterAll(s);
    if d == |format.Frames(s)| {
      assert format.Frames(s)[..d] == format.Frames(s);
    }
  }

  /**
   * Two ways to cut the same stream: one server is at most ahead of the other, and open servers at
   * equal pace are in the same state.
   */
  lemma ChunkingIrrelevant(format: Format, readed: Readed, a: seq<seq<Byte>>, b: seq<seq<Byte>>)
    requires Flatten(a) == Flatten(b)
    ensures var ca, cb := Serve(format, readed, a), Serve(format, readed, b);
      && (ca.delivered <= cb.delivered || cb.delivered <= ca.delivered)
      && (ca.open && cb.open && Pace(format, a) == Pace(format, b) ==> ca == cb)
  {
    DeliveredPrefix(format, readed, a);
    DeliveredPrefix(format, readed, b);
    if Serve(format, readed, a).open && Serve(format, readed, b).open {
      OpenRun(format, readed, a);
      OpenRun(format, readed, b);
    }
  }

  // How far the server lags behind.

  /** The pace is the least, over all earlier moments, of what was complete then plus one a chunk since. */
  lemma {:induction false} PaceClosedForm(format: Format, chunks: seq<seq<Byte>>)
    ensures forall i :: 0 <= i <= |chunks| ==>
      Pace(format, chunks) <= Complete(format, chunks[..i]) + |chunks| - i
    ensures exists i ::
      0 <= i <= |chunks| && Pace(format, chunks) == Complete(format, chunks[..i]) + |chunks| - i
  {
    var n := |chunks|;
    assert chunks[..n] == chunks;
    if n == 0 {
      assert format.Look([]) != Ready(0);
      assert Complete(format, chunks[..0]) == 0;
    } else {
      var before := chunks[..n - 1];
      PaceClosedForm(format, before);
      forall i | 0 <= i < n
        ensures before[..i] == chunks[..i]
      {
      }
      if Pace(format, chunks) == Complete(format, chunks) {
        assert Pace(format, chunks) == Complete(format, chunks[..n]) + n - n;
      } else {
        var i :| 0 <= i <= n - 1 && Pace(format, before) == Complete(format, before[..i]) + (n - 1) - i;
        assert Pace(format, chunks) == Complete(format, chunks[..i]) + n - i;
      }
    }
  }

  /**
   * Every complete message has been handed over exactly when no stretch of chunks up to the end
   * completed more messages than it has chunks.
   */
  lemma CaughtUp(format: Format, chunks: seq<seq<Byte>>)
    ensures Pace(format, chunks) == Complete(format, chunks) <==>
      forall i :: 0 <= i <= |chunks| ==>
        Complete(format, chunks) - Complete(format, chunks[..i]) <= |chunks| - i
  {
    PaceClosedForm(format, chunks);
  }

  /** Two one-byte messages in one chunk: the second stays behind. */
  lemma MessageLeftBehind(format: Format, readed: Readed)
    requires format.headerSize == 0 && format.reader([]) == 1 && readed([[7]])
    ensures format.Frames([7, 8]) == [[7], [8]]
    ensures Serve(format, readed, [[7, 8]]) == Connection([8], [[7]], true)
  {
    var s: seq<Byte> := [7, 8];
    assert s[..0] == [] && s[..1] == [7] && s[1..] == [8];
    assert s[1..][..0] == [] && s[1..][..1] == [8] && s[1..][1..] == [];
    assert s[1..][1..][..0] == [];
    assert format.Frames(s[1..][1..]) == [];
    assert format.Frames(s[1..]) == [[8]];
    assert [[7, 8]][..0] == [] && FRESH.pending + s == s && FRESH.delivered + [s[..1]] == [[7]];
    assert Serve(format, readed, [[7, 8]]) == Receive(format, readed, FRESH, s);
  }
}
