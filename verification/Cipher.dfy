/** The byte cipher with three random salts (`kg::crypto::k3xsx_salt_t`). */
module Cipher {
  import opened Passes
  import opened Sequences

  /** A byte as its bits. */
  type Octet = bv8

  const SALT_LEN: nat := 3

  type Salts = s: seq<Octet> | |s| == SALT_LEN witness [0, 0, 0]

  function IsBit(b: Octet, n: bv4): bool
    requires n < 8
  {
    (1 << n) & b != 0
  }

  function SetBit(b: Octet, n: bv4, ok: bool): Octet
    requires n < 8
  {
    if ok then b | (1 << n) else b & !(1 << n)
  }

  /** Exchanges two bits of a byte. */
  function SwapBit(b: Octet, l: bv4, r: bv4): Octet
    requires l < 8 && r < 8
  {
    if l == r then b
    else
      var c := SetBit(b, r, IsBit(b, l));
      SetBit(c, l, IsBit(b, r))
  }

  /** The four exchanges, in the order the cipher makes them. */
  function SwapBits(b: Octet): Octet {
    SwapBit(SwapBit(SwapBit(SwapBit(b, 0, 7), 1, 6), 2, 5), 3, 4)
  }

  /** Rotation to the left by a count that may exceed eight. */
  function ShlLoop(b: Octet, n: bv16): Octet {
    var k := n % 8;
    if k == 0 then b else (b << k) | (b >> (8 - k))
  }

  function ShrLoop(b: Octet, n: bv16): Octet {
    var k := n % 8;
    if k == 0 then b else (b >> k) | (b << (8 - k))
  }

  /** A salt plus the base salt: an `int`, not cut back to a byte. */
  function Sum(salt: Octet, base: Octet): bv16 {
    salt as bv16 + base as bv16
  }

  /** The exclusive or of a byte and an `int`, stored in a byte. */
  function XorInt(b: Octet, x: bv16): Octet {
    (((b as bv16) ^ x) & 0xff) as Octet
  }

  function EncryptByte(b: Octet, base: Octet, salts: Salts): Octet {
    var c := SwapBits(XorInt(b, Sum(salts[0], base)));
    XorInt(ShlLoop(c, Sum(salts[1], base)), Sum(salts[2], base))
  }

  function DecryptByte(b: Octet, base: Octet, salts: Salts): Octet {
    var c := ShrLoop(XorInt(b, Sum(salts[2], base)), Sum(salts[1], base));
    XorInt(SwapBits(c), Sum(salts[0], base))
  }

  /** The four exchanges reverse the byte. */
  lemma SwapBitsReverses(b: Octet, i: bv4)
    requires i < 8
    ensures IsBit(SwapBits(b), i) == IsBit(b, 7 - i)
  {
  }

  lemma SwapBitsInvolution(b: Octet)
    ensures SwapBits(SwapBits(b)) == b
  {
  }

  lemma RotationsCancel(b: Octet, n: bv16)
    ensures ShrLoop(ShlLoop(b, n), n) == b && ShlLoop(ShrLoop(b, n), n) == b
  {
  }

  lemma XorCancels(b: Octet, x: bv16)
    ensures XorInt(XorInt(b, x), x) == b
  {
  }

  /** A byte masked with a salt plus the base salt, all in bytes. */
  function Masked(b: Octet, salt: Octet, base: Octet): Octet {
    b ^ (salt + base)
  }

  /** Storing the result in a byte loses nothing but the carry of the sum. */
  lemma XorIntWraps(b: Octet, salt: Octet, base: Octet)
    ensures XorInt(b, Sum(salt, base)) == Masked(b, salt, base)
  {
  }

  /** A rotation moves every bit up by the count, round the byte. */
  lemma ShlLoopBits(b: Octet, n: bv16, i: bv4)
    requires i < 8
    ensures IsBit(ShlLoop(b, n), (i + (n % 8) as bv4) % 8) == IsBit(b, i)
  {
  }

  /**
   * What encryption does to a byte: masked with the first salt, reversed, rotated by the second,
   * masked with the third.
   */
  lemma EncryptedByte(b: Octet, base: Octet, salts: Salts)
    ensures EncryptByte(b, base, salts)
         == Masked(ShlLoop(SwapBits(Masked(b, salts[0], base)), Sum(salts[1], base)), salts[2], base)
  {
    hide SwapBits, ShlLoop, XorInt, Sum, Masked;
    XorIntWraps(b, salts[0], base);
    XorIntWraps(ShlLoop(SwapBits(Masked(b, salts[0], base)), Sum(salts[1], base)), salts[2], base);
  }

  lemma MaskedBits(b: Octet, salt: Octet, base: Octet, i: bv4)
    requires i < 8
    ensures IsBit(Masked(b, salt, base), i) == (IsBit(b, i) != IsBit(salt + base, i))
  {
  }

  /** Where the second salt moves a bit to. */
  function Moved(i: bv4, salt: Octet, base: Octet): (r: bv4)
    requires i < 8
    ensures r < 8
  {
    (i + ((salt + base) % 8) as bv4) % 8
  }

  lemma RotatedBits(b: Octet, salt: Octet, base: Octet, i: bv4)
    requires i < 8
    ensures IsBit(ShlLoop(b, Sum(salt, base)), Moved(i, salt, base)) == IsBit(b, i)
  {
    ShlLoopBits(b, Sum(salt, base), i);
    assert (Sum(salt, base) % 8) as bv4 == ((salt + base) % 8) as bv4;
  }

  /**
   * Every bit of a byte encrypted with the salts `x`, `y` and `z`: it comes from one bit of the byte, in
   * reverse order and moved round by the second salt, and is turned by the first salt where it came from
   * and by the third where it is.
   */
  lemma EncryptedBits(b: Octet, base: Octet, x: Octet, y: Octet, z: Octet, i: bv4)
    requires i < 8
    ensures var from, to := 7 - i, Moved(i, y, base);
      IsBit(EncryptByte(b, base, [x, y, z]), to)
      == ((IsBit(b, from) != IsBit(x + base, from)) != IsBit(z + base, to))
  {
    hide SwapBits, ShlLoop, EncryptByte, Masked, Sum, IsBit, Moved;
    var c := Masked(b, x, base);
    EncryptedByte(b, base, [x, y, z]);
    MaskedBits(b, x, base, 7 - i);
    SwapBitsReverses(c, i);
    RotatedBits(SwapBits(c), y, base, i);
    MaskedBits(ShlLoop(SwapBits(c), Sum(y, base)), z, base, Moved(i, y, base));
  }

  /** For every base salt and salts, decryption and encryption of a byte undo each other. */
  lemma ByteRoundTrip(b: Octet, base: Octet, salts: Salts)
    ensures DecryptByte(EncryptByte(b, base, salts), base, salts) == b
    ensures EncryptByte(DecryptByte(b, base, salts), base, salts) == b
  {
    hide SwapBits, ShlLoop, ShrLoop, XorInt, Sum;
    var x, n, y := Sum(salts[0], base), Sum(salts[1], base), Sum(salts[2], base);
    XorCancels(b, x);
    SwapBitsInvolution(XorInt(b, x));
    RotationsCancel(SwapBits(XorInt(b, x)), n);
    XorCancels(ShlLoop(SwapBits(XorInt(b, x)), n), y);
    XorCancels(b, y);
    RotationsCancel(XorInt(b, y), n);
    SwapBitsInvolution(ShrLoop(XorInt(b, y), n));
    XorCancels(SwapBits(ShrLoop(XorInt(b, y), n)), x);
  }

  /** The message behind its salts. */
  function Sealed(m: seq<Octet>, base: Octet, salts: Salts): (r: seq<Octet>)
    ensures |r| == SALT_LEN + |m|
  {
    salts + seq(|m|, i requires 0 <= i < |m| => EncryptByte(m[i], base, salts))
  }

  /** The message of a cipher text. */
  function Opened(c: seq<Octet>, base: Octet): (r: seq<Octet>)
    requires |c| >= SALT_LEN
    ensures |r| == |c| - SALT_LEN
  {
    seq(|c| - SALT_LEN, i requires 0 <= i < |c| - SALT_LEN => DecryptByte(c[SALT_LEN + i], base, c[..SALT_LEN]))
  }

  /** Every message comes back, and every cipher text long enough is the one of its message. */
  lemma RoundTrip(m: seq<Octet>, c: seq<Octet>, base: Octet, salts: Salts)
    ensures Opened(Sealed(m, base, salts), base) == m
    ensures |c| >= SALT_LEN ==> Sealed(Opened(c, base), base, c[..SALT_LEN]) == c
  {
    hide EncryptByte, DecryptByte;
    assert Sealed(m, base, salts)[..SALT_LEN] == salts;
    forall i | 0 <= i < |m|
      ensures Opened(Sealed(m, base, salts), base)[i] == m[i]
    {
      ByteRoundTrip(m[i], base, salts);
    }
    if |c| >= SALT_LEN {
      forall i | SALT_LEN <= i < |c|
        ensures Sealed(Opened(c, base), base, c[..SALT_LEN])[i] == c[i]
      {
        ByteRoundTrip(c[i], base, c[..SALT_LEN]);
      }
    }
  }

  // Windows on arrays: `same` says that the source is the array written.

  function Encoder(base: Octet): Maker<Octet> {
    (b, x, y, z) => EncryptByte(b, base, [x, y, z])
  }

  function Decoder(base: Octet): Maker<Octet> {
    (b, x, y, z) => DecryptByte(b, base, [x, y, z])
  }

  function EncryptCourse(from: nat, at: nat, same: bool): Course {
    Course(from, same, at, true, at + SALT_LEN)
  }

  function DecryptCourse(from: nat, at: nat, same: bool): Course {
    Course(from + SALT_LEN, same, from, same, at)
  }

  /** The array written once the salts are stored from cell `at` on and `n` bytes, from cell `from` on, encrypted. */
  function Encrypted(c: seq<Octet>, from: nat, was: seq<Octet>, at: nat, same: bool,
      n: nat, base: Octet, salts: Salts): (r: seq<Octet>)
    requires from + n <= |c| && at + SALT_LEN + n <= |was| && (same ==> c == was)
    ensures |r| == |was|
  {
    var salted := Splice(was, at, salts);
    Passed(if same then salted else c, salted, salted, EncryptCourse(from, at, same), n, Encoder(base))
  }

  /** The array written once `n` bytes behind the salts in cell `from` are decrypted to cell `at` and on. */
  function Decrypted(c: seq<Octet>, from: nat, was: seq<Octet>, at: nat, same: bool,
      n: nat, base: Octet): (r: seq<Octet>)
    requires from + SALT_LEN + n <= |c| && at + n <= |was| && (same ==> c == was)
    ensures |r| == |was|
  {
    Passed(c, c, was, DecryptCourse(from, at, same), n, Decoder(base))
  }

  /** Encryption within one array reads a cell it has written. */
  predicate SealsOver(from: nat, at: nat, n: nat) {
    n > 0 && at < from + n && from < at + SALT_LEN
  }

  /** Decryption within one array reads a cell it has written. */
  predicate OpensOver(from: nat, at: nat, n: nat) {
    n > 1 && from + 1 < at + n && at < from + SALT_LEN + n && at != from + SALT_LEN
  }

  lemma Three(s: seq<Octet>, i: nat)
    requires i + SALT_LEN <= |s|
    ensures [s[i], s[i + 1], s[i + 2]] == s[i..i + SALT_LEN]
  {
  }

  lemma SealedAt(c: seq<Octet>, from: nat, n: nat, base: Octet, salts: Salts, i: nat)
    requires from + n <= |c| && i < n
    ensures Sealed(c[from..from + n], base, salts)[SALT_LEN + i] == EncryptByte(c[from + i], base, salts)
  {
    hide EncryptByte;
  }

  lemma EncryptsWith(c: seq<Octet>, salted: seq<Octet>, from: nat, at: nat, same: bool,
      i: nat, base: Octet, salts: Salts)
    requires from + i < |c| && at + SALT_LEN <= |salted| && salted[at..at + SALT_LEN] == salts
    ensures Made(c, salted, EncryptCourse(from, at, same), i, Encoder(base)) == EncryptByte(c[from + i], base, salts)
  {
    hide EncryptByte;
    Three(salted, at);
  }

  lemma SaltedCells(was: seq<Octet>, at: nat, salts: Salts, p: nat)
    requires at + SALT_LEN <= |was| && p < |was|
    ensures var r := Splice(was, at, salts);
      r[at..at + SALT_LEN] == salts && (!(at <= p < at + SALT_LEN) ==> r[p] == was[p])
  {
  }

  /** Byte `i` is encrypted as it was. */
  lemma EncryptedOnTime(c: seq<Octet>, from: nat, was: seq<Octet>, at: nat, same: bool,
      n: nat, i: nat, base: Octet, salts: Salts)
    requires from + n <= |c| && at + SALT_LEN + n <= |was| && (same ==> c == was) && i < n
    requires !(same && SealsOver(from, at, n))
    ensures var salted, w := Splice(was, at, salts), EncryptCourse(from, at, same);
      && !Late(w, i)
      && Made(if same then salted else c, salted, w, i, Encoder(base)) == EncryptByte(c[from + i], base, salts)
  {
    var salted := Splice(was, at, salts);
    SaltedCells(was, at, salts, if same then from + i else at);
    hide Splice, EncryptByte, Made;
    EncryptsWith(if same then salted else c, salted, from, at, same, i, base, salts);
  }

  /** Encryption that reads no cell it has written puts down salts and encrypted message, and changes nothing else. */
  lemma EncryptedClean(c: seq<Octet>, from: nat, was: seq<Octet>, at: nat, same: bool,
      n: nat, base: Octet, salts: Salts)
    requires from + n <= |c| && at + SALT_LEN + n <= |was| && (same ==> c == was)
    requires !(same && SealsOver(from, at, n))
    ensures Encrypted(c, from, was, at, same, n, base, salts) == Splice(was, at, Sealed(c[from..from + n], base, salts))
  {
    hide EncryptByte, Passed, Sealed, Made, Late, Splice, SealsOver, Encoder;
    var salted, w := Splice(was, at, salts), EncryptCourse(from, at, same);
    var sealed := Sealed(c[from..from + n], base, salts);
    var d := sealed[SALT_LEN..];
    forall i | 0 <= i < n
      ensures !Late(w, i) && d[i] == Made(if same then salted else c, salted, w, i, Encoder(base))
    {
      SealedAt(c, from, n, base, salts, i);
      EncryptedOnTime(c, from, was, at, same, n, i, base, salts);
    }
    PassedClean(if same then salted else c, salted, salted, w, n, Encoder(base), d);
    SpliceBehind(was, at, salts, d);
    SealedFront(c[from..from + n], base, salts);
  }

  lemma SealedFront(m: seq<Octet>, base: Octet, salts: Salts)
    ensures Sealed(m, base, salts) == salts + Sealed(m, base, salts)[SALT_LEN..]
  {
    hide EncryptByte;
  }

  lemma SpliceBehind<T>(s: seq<T>, at: nat, a: seq<T>, b: seq<T>)
    requires at + |a| + |b| <= |s|
    ensures Splice(Splice(s, at, a), at + |a|, b) == Splice(s, at, a + b)
  {
  }

  /** Decryption that reads no cell it has written: the message is there, and nothing else changes. */
  lemma DecryptedClean(c: seq<Octet>, from: nat, was: seq<Octet>, at: nat, same: bool, n: nat, base: Octet)
    requires from + SALT_LEN + n <= |c| && at + n <= |was| && (same ==> c == was)
    requires !(same && OpensOver(from, at, n))
    ensures Decrypted(c, from, was, at, same, n, base) == Splice(was, at, Opened(c[from..from + SALT_LEN + n], base))
  {
    var w, d := DecryptCourse(from, at, same), Opened(c[from..from + SALT_LEN + n], base);
    Three(c, from);
    assert c[from..from + SALT_LEN + n][..SALT_LEN] == c[from..from + SALT_LEN];
    hide DecryptByte, Passed;
    forall i | 0 <= i < n
      ensures !Late(w, i) && d[i] == Made(c, c, w, i, Decoder(base))
    {
    }
    PassedClean(c, c, was, w, n, Decoder(base), d);
  }

  lemma SpliceNext<T>(s: seq<T>, at: nat, d: seq<T>, i: nat)
    requires at + |d| <= |s| && i < |d|
    ensures Splice(s, at, d[..i + 1]) == Splice(s, at, d[..i])[at + i := d[i]]
  {
  }

  /** The byte the loop of `Encryption` writes next. */
  lemma EncryptNext(c: seq<Octet>, salted: seq<Octet>, r: seq<Octet>, from: nat, at: nat, same: bool,
      i: nat, base: Octet)
    requires from + i < |c| && at + SALT_LEN + i < |salted| == |r| && (same ==> |c| == |r|)
    ensures var w := EncryptCourse(from, at, same);
      && w.at == at + SALT_LEN && w.from == from && w.key == at && w.fromSame == same && w.keySame
      && MadeNow(c, salted, r, w, i, Encoder(base))
         == EncryptByte((if same then r else c)[from + i], base, r[at..at + SALT_LEN])
  {
    hide EncryptByte;
    Three(r, at);
  }

  /** The byte the loop of `Decryption` writes next. */
  lemma DecryptNext(c: seq<Octet>, was: seq<Octet>, r: seq<Octet>, from: nat, at: nat, same: bool,
      i: nat, base: Octet)
    requires from + SALT_LEN + i < |c| && at + i < |was| == |r| && (same ==> |c| == |r|)
    ensures var w, s := DecryptCourse(from, at, same), if same then r else c;
      && w.at == at && w.from == from + SALT_LEN && w.key == from && w.fromSame == w.keySame == same
      && MadeNow(c, c, r, w, i, Decoder(base)) == DecryptByte(s[from + SALT_LEN + i], base, s[from..from + SALT_LEN])
  {
    hide DecryptByte;
    Three(if same then r else c, from);
  }

  class K3xsxSalt {
    const salt: Octet

    constructor (salt: Octet := 0)
      ensures this.salt == salt
    {
      this.salt := salt;
    }

    /**
     * Encrypts `n` bytes of `src`, from cell `from` on, to `dist`, from cell `at` on; `random` are the
     * salts drawn for this message.
     */
    method Encryption(src: array<Octet>, from: nat, n: nat, dist: array<Octet>, at: nat, random: Salts)
      requires from + n <= src.Length && at + SALT_LEN + n <= dist.Length
      modifies dist
      ensures dist[..] == Encrypted(old(src[..]), from, old(dist[..]), at, src == dist, n, salt, random)
      ensures !(src == dist && SealsOver(from, at, n)) ==>
        dist[..] == Splice(old(dist[..]), at, Sealed(old(src[from..from + n]), salt, random))
    {
      hide EncryptByte, Sealed, Splice, Passed, MadeNow, Encoder;
      ghost var same, c, was := src == dist, src[..], dist[..];
      assert c[from..from + n] == src[from..from + n];
      if !(same && SealsOver(from, at, n)) {
        EncryptedClean(c, from, was, at, same, n, salt, random);
      }
      RandSalts(dist, at, random);
      ghost var salted, w := dist[..], EncryptCourse(from, at, same);
      ghost var read := if same then salted else c;
      PassedNone(read, salted, salted, w, Encoder(salt));
      for i := 0 to n
        invariant !same ==> src[..] == c
        invariant dist[..] == Passed(read, salted, salted, w, i, Encoder(salt))
      {
        ghost var r := dist[..];
        EncryptNext(read, salted, r, from, at, same, i, salt);
        PassedNext(read, salted, salted, w, i, Encoder(salt));
        assert src[from + i] == (if same then r else read)[from + i] && dist[at..at + SALT_LEN] == r[at..at + SALT_LEN];
        dist[at + SALT_LEN + i] := EncryptByte(src[from + i], salt, dist[at..at + SALT_LEN]);
      }
    }

    /** Stores the salts drawn. */
    method RandSalts(salts: array<Octet>, at: nat, random: Salts)
      requires at + SALT_LEN <= salts.Length
      modifies salts
      ensures salts[..] == Splice(old(salts[..]), at, random)
    {
      ghost var was := salts[..];
      assert Splice(was, at, random[..0]) == was;
      hide Splice;
      for i := 0 to SALT_LEN
        invariant salts[..] == Splice(was, at, random[..i])
      {
        SpliceNext(was, at, random, i);
        salts[at + i] := random[i];
      }
      assert random[..SALT_LEN] == random;
    }

    /**
     * Decrypts `n` bytes of `src`, from cell `from` on, to `dist`, from cell `at` on; fails if they are
     * too few to hold the salts.
     */
    method Decryption(src: array<Octet>, from: nat, n: nat, dist: array<Octet>, at: nat) returns (ok: bool)
      requires from + n <= src.Length && at <= dist.Length && at + n <= dist.Length + SALT_LEN
      modifies dist
      ensures ok <==> n >= SALT_LEN
      ensures !ok ==> dist[..] == old(dist[..])
      ensures ok ==>
        && dist[..] == Decrypted(old(src[..]), from, old(dist[..]), at, src == dist, n - SALT_LEN, salt)
        && (!(src == dist && OpensOver(from, at, n - SALT_LEN)) ==>
              dist[..] == Splice(old(dist[..]), at, Opened(old(src[from..from + n]), salt)))
    {
      hide DecryptByte, Opened, Splice, Passed, MadeNow, Decoder;
      if n < SALT_LEN {
        return false;
      }
      ghost var same, c, was := src == dist, src[..], dist[..];
      ghost var w := DecryptCourse(from, at, same);
      assert c[from..from + n] == src[from..from + n];
      if !(same && OpensOver(from, at, n - SALT_LEN)) {
        DecryptedClean(c, from, was, at, same, n - SALT_LEN, salt);
      }
      PassedNone(c, c, was, w, Decoder(salt));
      if n == SALT_LEN {
        return true;
      }
      for i := 0 to n - SALT_LEN
        invariant !same ==> src[..] == c
        invariant dist[..] == Passed(c, c, was, w, i, Decoder(salt))
      {
        ghost var r := dist[..];
        DecryptNext(c, was, r, from, at, same, i, salt);
        PassedNext(c, c, was, w, i, Decoder(salt));
        ghost var s := if same then r else c;
        assert src[from + SALT_LEN + i] == s[from + SALT_LEN + i];
        assert src[from..from + SALT_LEN] == s[from..from + SALT_LEN];
        dist[at + i] := DecryptByte(src[from + SALT_LEN + i], salt, src[from..from + SALT_LEN]);
      }
      return true;
    }
  }
}
