/**
 * Length-prefixed frames: how a byte stream splits into messages when the first `headerSize` bytes
 * of a message tell its whole length.
 */
module Framing {
  import opened Bytes

  /** What the front of a stream amounts to. */
  datatype Front =
    | NeedHeader          // the header is incomplete
    | BadHeader           // the reader answers less than the header, or less than one byte
    | NeedBody(len: nat)  // the length is known, the message is incomplete
    | Ready(len: nat)     // a whole message

  /** A message format: the header length and the callback that turns a header into a length. */
  datatype Format = Format(headerSize: nat, reader: seq<Byte> -> int) {

    function Look(s: seq<Byte>): Front {
      if |s| < headerSize then NeedHeader
      else
        var len := reader(s[..headerSize]);
        if len < headerSize || len < 1 then BadHeader
        else if |s| < len then NeedBody(len)
        else Ready(len)
    }

    /** One whole message and nothing else: it is as long as the reader says of its header. */
    predicate IsFrame(m: seq<Byte>) {
      |m| >= 1 && |m| >= headerSize && reader(m[..headerSize]) == |m|
    }

    /** A stream that starts with a message starts with it and no other; a message ahead is the one seen. */
    lemma LookReady(s: seq<Byte>, k: nat)
      requires k <= |s|
      ensures IsFrame(s[..k]) <==> Look(s) == Ready(k)
    {
      if headerSize <= k {
        assert s[..k][..headerSize] == s[..headerSize];
      }
    }

    /** The verdict on a front tells which messages it may still become. */
    lemma LookMeans(s: seq<Byte>)
      ensures Look(s).NeedHeader? <==> |s| < headerSize
      ensures Look(s).BadHeader? <==>
        |s| >= headerSize && forall t, k :: 0 <= k <= |s + t| ==> !IsFrame((s + t)[..k])
      ensures forall n: nat :: Look(s) == NeedBody(n) <==>
        |s| >= headerSize && |s| < n && forall t: seq<Byte> :: |t| == n - |s| ==> IsFrame(s + t)
      ensures forall n: nat :: Look(s) == Ready(n) <==> n <= |s| && IsFrame(s[..n])
    {
      forall n: nat | n <= |s|
        ensures IsFrame(s[..n]) <==> Look(s) == Ready(n)
      {
        LookReady(s, n);
      }
      if |s| >= headerSize {
        Headed(s);
        var len := reader(s[..headerSize]);
        if Look(s).BadHeader? {
          forall t, k | 0 <= k <= |s + t|
            ensures !IsFrame((s + t)[..k])
          {
            LookExtends(s, t);
            LookReady(s + t, k);
          }
        } else if Look(s).NeedBody? {
          var t: seq<Byte> := seq(len - |s|, _ => 0);
          assert IsFrame((s + t)[..len]) by {
            assert (s + t)[..len] == s + t;
          }
        } else {
          assert s + [] == s && IsFrame((s + [])[..len]);
        }
        forall n: nat | |s| < n && (forall t: seq<Byte> :: |t| == n - |s| ==> IsFrame(s + t))
          ensures Look(s) == NeedBody(n)
        {
          var t: seq<Byte> := seq(n - |s|, _ => 0);
          assert IsFrame(s + t);
        }
      }
    }

    /** What follows a header does not change it. */
    lemma Headed(s: seq<Byte>)
      requires |s| >= headerSize
      ensures forall t: seq<Byte> :: (s + t)[..headerSize] == s[..headerSize]
    {
    }

    /** The whole messages at the front of a stream. */
    function Frames(s: seq<Byte>): seq<seq<Byte>>
      decreases |s|
    {
      match Look(s)
      case Ready(len) => [s[..len]] + Frames(s[len..])
      case _ => []
    }

    /** What follows the last whole message. */
    function Rest(s: seq<Byte>): seq<Byte>
      decreases |s|
    {
      match Look(s)
      case Ready(len) => Rest(s[len..])
      case _ => s
    }

    /** A verdict on a front is final once the header is there. */
    lemma LookExtends(s: seq<Byte>, t: seq<Byte>)
      ensures Look(s).Ready? || Look(s).BadHeader? ==> Look(s + t) == Look(s)
      ensures Look(s).NeedBody? ==> Look(s + t) in {NeedBody(Look(s).len), Ready(Look(s).len)}
    {
      if |s| >= headerSize {
        assert (s + t)[..headerSize] == s[..headerSize];
      }
    }

    /** A message in front of a stream is its first message. */
    lemma FrameFirst(m: seq<Byte>, more: seq<Byte>)
      requires IsFrame(m)
      ensures Frames(m + more) == [m] + Frames(more) && Rest(m + more) == Rest(more)
    {
      LookReady(m + more, |m|);
      assert (m + more)[..|m|] == m && (m + more)[|m|..] == more;
    }

    /** No message starts the stream. */
    predicate NoneWhole(s: seq<Byte>) {
      forall k :: 0 <= k <= |s| ==> !IsFrame(s[..k])
    }

    lemma NoneReady(s: seq<Byte>)
      ensures NoneWhole(s) <==> !Look(s).Ready?
    {
      forall k | 0 <= k <= |s|
        ensures IsFrame(s[..k]) <==> Look(s) == Ready(k)
      {
        LookReady(s, k);
      }
    }

    /** The messages and the rest make up the stream; the rest starts with no whole message. */
    lemma Decompose(s: seq<Byte>)
      ensures Flatten(Frames(s)) + Rest(s) == s
      ensures forall m <- Frames(s) :: IsFrame(m)
      ensures NoneWhole(Rest(s)) && !Look(Rest(s)).Ready? && Frames(Rest(s)) == []
    {
      hide *;
      FramesJoin(s);
      FramesAreFrames(s);
      NoneReady(Rest(s));
    }

    lemma {:induction false} FramesJoin(s: seq<Byte>)
      ensures Flatten(Frames(s)) + Rest(s) == s
      decreases |s|
    {
      hide Flatten;
      match Look(s)
      case Ready(len) =>
        var m, more := s[..len], s[len..];
        FramesJoin(more);
        FlattenCons(m, Frames(more));
        Assoc(m, Flatten(Frames(more)), Rest(more));
        CutAt(s, len);
      case _ =>
        FlattenNone();
        assert [] + s == s;
    }

    lemma {:induction false} FramesAreFrames(s: seq<Byte>)
      ensures forall m <- Frames(s) :: IsFrame(m)
      ensures !Look(Rest(s)).Ready? && Frames(Rest(s)) == []
      decreases |s|
    {
      match Look(s)
      case Ready(len) =>
        LookReady(s, len);
        FramesAreFrames(s[len..]);
      case _ =>
    }

    /** Messages at the front of a stream are the first of its messages. */
    lemma {:induction false} FramesOfConcat(ms: seq<seq<Byte>>, t: seq<Byte>)
      requires forall m <- ms :: IsFrame(m)
      ensures Frames(Flatten(ms) + t) == ms + Frames(t)
      ensures Rest(Flatten(ms) + t) == Rest(t)
    {
      hide *;
      if ms == [] {
        FlattenNone();
        assert [] + t == t && [] + Frames(t) == Frames(t);
      } else {
        var m, more := ms[0], Flatten(ms[1..]) + t;
        assert m in ms && ms == [m] + ms[1..];
        FlattenCons(m, ms[1..]);
        assert Flatten(ms) + t == m + more;
        FrameFirst(m, more);
        FramesOfConcat(ms[1..], t);
        assert [m] + (ms[1..] + Frames(t)) == ([m] + ms[1..]) + Frames(t);
      }
    }

    /** There is one way to split a stream into whole messages and a rest that starts with none. */
    lemma FramesUnique(s: seq<Byte>, ms: seq<seq<Byte>>, t: seq<Byte>)
      requires Flatten(ms) + t == s && (forall m <- ms :: IsFrame(m)) && NoneWhole(t)
      ensures ms == Frames(s) && t == Rest(s)
    {
      NoneReady(t);
      FramesOfConcat(ms, t);
    }

    /** More bytes never change the messages already complete. */
    lemma FramesExtend(s: seq<Byte>, t: seq<Byte>)
      ensures Frames(s + t) == Frames(s) + Frames(Rest(s) + t)
      ensures Rest(s + t) == Rest(Rest(s) + t)
    {
      Decompose(s);
      FramesOfConcat(Frames(s), Rest(s) + t);
      assert Flatten(Frames(s)) + (Rest(s) + t) == s + t;
    }

    /** The stream behind its first `d` messages. */
    function After(s: seq<Byte>, d: nat): seq<Byte>
      requires d <= |Frames(s)|
    {
      if d == 0 then s else After(s[Look(s).len..], d - 1)
    }

    /** Dropping messages drops them from the decomposition, and nothing else. */
    lemma {:induction false} AfterFrames(s: seq<Byte>, d: nat)
      requires d <= |Frames(s)|
      ensures Frames(After(s, d)) == Frames(s)[d..] && Rest(After(s, d)) == Rest(s)
    {
      if d > 0 {
        AfterFrames(s[Look(s).len..], d - 1);
      }
    }

    /** Behind the last message comes the rest. */
    lemma AfterAll(s: seq<Byte>)
      ensures After(s, |Frames(s)|) == Rest(s)
    {
      AfterFrames(s, |Frames(s)|);
      Decompose(After(s, |Frames(s)|));
    }

    /** The first `d` messages and what follows them make up the stream. */
    lemma AfterJoins(s: seq<Byte>, d: nat)
      requires d <= |Frames(s)|
      ensures Flatten(Frames(s)[..d]) + After(s, d) == s
    {
      hide *;
      var ms := Frames(s);
      AfterFrames(s, d);
      Decompose(After(s, d));
      Decompose(s);
      FlattenAppend(ms[..d], ms[d..]);
      assert ms[..d] + ms[d..] == ms;
      assert Flatten(ms[..d]) + (Flatten(ms[d..]) + Rest(s)) == (Flatten(ms[..d]) + Flatten(ms[d..])) + Rest(s);
    }

    /** Bytes arriving later leave the stream behind the first `d` messages in place. */
    lemma {:induction false} AfterExtend(s: seq<Byte>, t: seq<Byte>, d: nat)
      requires d <= |Frames(s)|
      ensures d <= |Frames(s + t)| && Frames(s) <= Frames(s + t)
      ensures After(s + t, d) == After(s, d) + t
      decreases d
    {
      FramesExtend(s, t);
      if d > 0 {
        var len := Look(s).len;
        LookExtends(s, t);
        assert (s + t)[len..] == s[len..] + t;
        AfterExtend(s[len..], t, d - 1);
      }
    }
  }
}
