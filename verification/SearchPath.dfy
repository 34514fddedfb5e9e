/** The search path of a loader, as it stands in the environment: places between flags, blanks around them. */
module SearchPaths {

  predicate IsSpace(c: char) {
    c == ' ' || '\t' <= c <= '\r'
  }

  predicate Blank(s: string) {
    forall c <- s :: IsSpace(c)
  }

  /** Does not start or end with a blank. */
  predicate Trimmed(s: string) {
    s == [] || (!IsSpace(s[0]) && !IsSpace(s[|s| - 1]))
  }

  function Trim(s: string): string {
    if s != [] && IsSpace(s[0]) then Trim(s[1..])
    else if s != [] && IsSpace(s[|s| - 1]) then Trim(s[..|s| - 1])
    else s
  }

  /** Trimming takes blanks off both ends, all of them. */
  lemma {:induction false} TrimTakesBlanks(s: string) returns (i: nat, j: nat)
    ensures i <= j <= |s| && Trim(s) == s[i..j]
    ensures Blank(s[..i]) && Blank(s[j..]) && Trimmed(Trim(s))
  {
    i, j := 0, |s|;
    if s != [] && IsSpace(s[0]) {
      i, j := TrimTakesBlanks(s[1..]);
      assert s[1..][i..j] == s[i + 1..j + 1] && s[1..][j..] == s[j + 1..];
      assert s[..i + 1] == [s[0]] + s[1..][..i];
      i, j := i + 1, j + 1;
    } else if s != [] && IsSpace(s[|s| - 1]) {
      var last := |s| - 1;
      i, j := TrimTakesBlanks(s[..last]);
      assert s[..last][i..j] == s[i..j] && s[..last][..i] == s[..i];
      assert s[j..] == s[..last][j..] + [s[last]];
    } else {
      assert s[0..|s|] == s;
    }
  }

  /** What stands between blanks is the result, whatever the blanks. */
  lemma {:induction false} TrimOnly(a: string, s: string, b: string)
    requires Blank(a) && Blank(b) && Trimmed(s)
    ensures Trim(a + s + b) == s
    decreases |a| + |b|
  {
    var t := a + s + b;
    if a != [] {
      assert t[0] == a[0] && t[1..] == a[1..] + s + b;
      TrimOnly(a[1..], s, b);
    } else if b != [] {
      var last := |b| - 1;
      assert t[|t| - 1] == b[last] && t[..|t| - 1] == a + s + b[..last];
      if s == [] {
        assert t == b && t[1..] == a + s + b[1..];
        TrimOnly(a, s, b[1..]);
      } else {
        assert t[0] == s[0];
        TrimOnly(a, s, b[..last]);
      }
    } else {
      assert t == s;
    }
  }

  function Split(s: string, flag: char): (pieces: seq<string>)
    ensures pieces != []
  {
    if s == [] then [[]]
    else
      var rest := Split(s[1..], flag);
      if s[0] == flag then [[]] + rest
      else [[s[0]] + rest[0]] + rest[1..]
  }

  /** The pieces with the flag between them. */
  function Glued(pieces: seq<string>, flag: char): string {
    if pieces == [] then [] else if |pieces| == 1 then pieces[0] else pieces[0] + [flag] + Glued(pieces[1..], flag)
  }

  /** Glued together the pieces are the string, and no piece holds the flag. */
  lemma {:induction false} SplitGlued(s: string, flag: char)
    ensures Glued(Split(s, flag), flag) == s
    ensures forall piece <- Split(s, flag) :: flag !in piece
  {
    if s != [] {
      var rest := Split(s[1..], flag);
      SplitGlued(s[1..], flag);
      var pieces := Split(s, flag);
      if s[0] == flag {
        assert pieces[1..] == rest;
      } else if |rest| > 1 {
        assert pieces[1..] == rest[1..];
        var piece, more := rest[0], [flag] + Glued(rest[1..], flag);
        assert ([s[0]] + piece) + more == [s[0]] + (piece + more);
      }
    }
  }

  /** There is no other way to cut the string. */
  lemma {:induction false} SplitOnly(pieces: seq<string>, flag: char)
    requires pieces != [] && forall piece <- pieces :: flag !in piece
    ensures Split(Glued(pieces, flag), flag) == pieces
    decreases |pieces|, |pieces[0]|
  {
    var s, first, more := Glued(pieces, flag), pieces[0], pieces[1..];
    if first != [] {
      var less := [first[1..]] + more;
      assert first in pieces && forall c <- first[1..] :: c in first;
      assert less[1..] == more && s[0] == first[0] && s[1..] == Glued(less, flag);
      SplitOnly(less, flag);
      assert [first[0]] + first[1..] == first && pieces == [first] + more;
    } else if more != [] {
      assert s[0] == flag && s[1..] == Glued(more, flag);
      SplitOnly(more, flag);
      assert pieces == [[]] + more;
    }
  }

  /** The places named on the path, in order; a blank one does not count. */
  function Places(dirs: seq<string>): seq<string> {
    if dirs == [] then []
    else if Trim(dirs[0]) == [] then Places(dirs[1..])
    else [Trim(dirs[0])] + Places(dirs[1..])
  }

  /** Each entry of the path counts for itself. */
  lemma {:induction false} PlacesAppend(a: seq<string>, b: seq<string>)
    ensures Places(a + b) == Places(a) + Places(b)
  {
    hide Trim;
    if a == [] {
      assert a + b == b;
    } else {
      assert (a + b)[1..] == a[1..] + b;
      PlacesAppend(a[1..], b);
      var now, later := [Trim(a[0])], Places(a[1..]);
      assert now + (later + Places(b)) == (now + later) + Places(b);
    }
  }

  lemma PlacesOne(dir: string)
    ensures Places([dir]) == if Blank(dir) then [] else [Trim(dir)]
  {
    BlankTrims(dir);
    hide Trim, Blank;
    assert Places([dir][1..]) == [];
  }

  lemma BlankTrims(s: string)
    ensures Blank(s) <==> Trim(s) == []
  {
    if Blank(s) {
      TrimOnly(s, [], []);
      assert s + [] + [] == s;
    } else {
      var i, j := TrimTakesBlanks(s);
      assert s == s[..i] + s[i..j] + s[j..];
    }
  }

  /** Blanks around a string make no difference to what is left of it. */
  lemma TrimWider(a: string, s: string, b: string)
    requires Blank(a) && Blank(b)
    ensures Trim(a + s + b) == Trim(s)
  {
    var i, j := TrimTakesBlanks(s);
    TrimOnly(a + s[..i], Trim(s), s[j..] + b);
    assert a + s + b == a + s[..i] + s[i..j] + (s[j..] + b);
  }

  /** A character that is no flag, put behind the string, is put behind its last piece. */
  lemma {:induction false} SplitSnoc(s: string, c: char, flag: char)
    requires c != flag
    ensures var pieces := Split(s, flag);
      var last := |pieces| - 1;
      Split(s + [c], flag) == pieces[..last] + [pieces[last] + [c]]
  {
    if s == [] {
      assert s + [c] == [c] && [c][1..] == [] && [c] + [] == [] + [c];
      assert Split([c], flag) == [[c] + []];
    } else {
      assert (s + [c])[0] == s[0] && (s + [c])[1..] == s[1..] + [c];
      SplitSnoc(s[1..], c, flag);
      var rest := Split(s[1..], flag);
      hide Split;
      if s[0] != flag && |rest| == 1 {
        assert [s[0]] + (rest[0] + [c]) == ([s[0]] + rest[0]) + [c];
      }
    }
  }

  /** Changing one piece by blanks at its ends makes no difference. */
  lemma PlacesSame(a: seq<string>, p: string, q: string, b: seq<string>)
    requires Trim(p) == Trim(q)
    ensures Places(a + [p] + b) == Places(a + [q] + b)
  {
    hide Trim, Places, Blank;
    PlacesOne(p);
    PlacesOne(q);
    BlankTrims(p);
    BlankTrims(q);
    PlacesAppend(a, [p]);
    PlacesAppend(a, [q]);
    PlacesAppend(a + [p], b);
    PlacesAppend(a + [q], b);
  }

  /** Trimming the path as a whole makes no difference. */
  lemma {:induction false} PlacesTrim(s: string, flag: char)
    requires !IsSpace(flag)
    ensures Places(Split(Trim(s), flag)) == Places(Split(s, flag))
  {
    hide Places, Split;
    if s != [] && IsSpace(s[0]) {
      PlacesTrim(s[1..], flag);
      PlacesCons(s, flag);
    } else if s != [] && IsSpace(s[|s| - 1]) {
      var last := |s| - 1;
      PlacesTrim(s[..last], flag);
      PlacesSnoc(s[..last], s[last], flag);
      assert s == s[..last] + [s[last]];
    }
  }

  /** A character that is no flag, put before the string, is put before its first piece. */
  lemma SplitCons(s: string, flag: char)
    requires s != [] && s[0] != flag
    ensures var pieces := Split(s[1..], flag); Split(s, flag) == [] + [[s[0]] + pieces[0]] + pieces[1..]
  {
  }

  /** A blank put before the path makes no difference. */
  lemma PlacesCons(s: string, flag: char)
    requires s != [] && IsSpace(s[0]) && !IsSpace(flag)
    ensures Places(Split(s, flag)) == Places(Split(s[1..], flag))
  {
    hide Places, Trim, Split;
    var pieces := Split(s[1..], flag);
    SplitCons(s, flag);
    TrimWider([s[0]], pieces[0], []);
    assert [s[0]] + pieces[0] + [] == [s[0]] + pieces[0];
    PlacesSame([], [s[0]] + pieces[0], pieces[0], pieces[1..]);
    assert pieces == [] + [pieces[0]] + pieces[1..];
  }

  /** A blank put behind the path makes no difference. */
  lemma PlacesSnoc(s: string, c: char, flag: char)
    requires IsSpace(c) && !IsSpace(flag)
    ensures Places(Split(s + [c], flag)) == Places(Split(s, flag))
  {
    hide Places, Trim, Split;
    var pieces := Split(s, flag);
    var back := |pieces| - 1;
    SplitSnoc(s, c, flag);
    TrimWider([], pieces[back], [c]);
    assert [] + pieces[back] + [c] == pieces[back] + [c];
    PlacesSame(pieces[..back], pieces[back] + [c], pieces[back], []);
    assert pieces == pieces[..back] + [pieces[back]] + [];
    assert Split(s + [c], flag) == pieces[..back] + [pieces[back] + [c]] + [];
  }

  /** A path of pieces that hold no flag names the pieces that are not blank, trimmed and in order. */
  lemma PathPlaces(pieces: seq<string>, flag: char)
    requires !IsSpace(flag) && pieces != [] && forall piece <- pieces :: flag !in piece
    ensures Places(Split(Trim(Glued(pieces, flag)), flag)) == Places(pieces)
  {
    PlacesTrim(Glued(pieces, flag), flag);
    SplitOnly(pieces, flag);
  }
}
