/** For which windows of one array the cipher is right: exactly those where it reads no cell it has written. */
module CipherWindows {
  import opened Cipher
  import opened Passes
  import opened Sequences

  lemma OpenedAt(c: seq<Octet>, from: nat, at: nat, n: nat, base: Octet, i: nat)
    requires from + SALT_LEN + n <= |c| && i < n
    ensures Opened(c[from..from + SALT_LEN + n], base)[i] == Made(c, c, DecryptCourse(from, at, true), i, Decoder(base))
  {
    hide DecryptByte;
    Three(c, from);
    assert c[from..from + SALT_LEN + n][..SALT_LEN] == c[from..from + SALT_LEN];
  }

  /** Byte `i` of the message, where the salts overran it: the salt is encrypted in its place. */
  lemma SaltSealed(c: seq<Octet>, from: nat, at: nat, n: nat, i: nat, base: Octet, salts: Salts)
    requires from + n <= |c| && at + SALT_LEN + n <= |c| && i < n
    requires at <= from + i < at + SALT_LEN && (i > 0 ==> at == from + i)
    ensures Encrypted(c, from, c, at, true, n, base, salts)[at + (SALT_LEN + i)]
         == EncryptByte(salts[from + i - at], base, salts)
  {
    var salted, w := Splice(c, at, salts), EncryptCourse(from, at, true);
    Three(salted, at);
    assert salted[at..at + SALT_LEN] == salts && salted[from + i] == salts[from + i - at];
    hide EncryptByte, Passed, Splice;
    MadeInTime(salted, salted, salted, w, n, Encoder(base), i);
  }

  lemma SealsApart(x: Octet, y: Octet, base: Octet, salts: Salts)
    requires x != y
    ensures EncryptByte(x, base, salts) != EncryptByte(y, base, salts)
  {
    hide EncryptByte, DecryptByte;
    ByteRoundTrip(x, base, salts);
    ByteRoundTrip(y, base, salts);
  }

  lemma SealsWrongWith(c: seq<Octet>, from: nat, at: nat, n: nat, i: nat, base: Octet, salts: Salts)
    requires from + n <= |c| && at + SALT_LEN + n <= |c| && i < n
    requires at <= from + i < at + SALT_LEN && (i > 0 ==> at == from + i)
    requires c[from + i] != salts[from + i - at]
    ensures Encrypted(c, from, c, at, true, n, base, salts)[at..at + (SALT_LEN + n)]
         != Sealed(c[from..from + n], base, salts)
  {
    hide *;
    var salt, other := salts[from + i - at], c[from + i];
    SaltSealed(c, from, at, n, i, base, salts);
    SealedAt(c, from, n, base, salts, i);
    SealsApart(salt, other, base, salts);
    var r, sealed := Encrypted(c, from, c, at, true, n, base, salts), Sealed(c[from..from + n], base, salts);
    Differs(r, at, SALT_LEN + n, sealed, SALT_LEN + i);
  }

  /** Where the salts overrun the message there are arrays for which the result is wrong. */
  lemma SealsWrong(size: nat, from: nat, at: nat, n: nat, base: Octet, salts: Salts) returns (c: seq<Octet>)
    requires from + n <= size && at + SALT_LEN + n <= size && SealsOver(from, at, n)
    ensures |c| == size
    ensures Encrypted(c, from, c, at, true, n, base, salts)[at..at + (SALT_LEN + n)]
         != Sealed(c[from..from + n], base, salts)
  {
    var i := if from < at then at - from else 0;
    hide EncryptByte, Encrypted, Sealed;
    var salt := salts[from + i - at];
    assert salt != !salt;
    c := seq(size, _ => !salt);
    SealsWrongWith(c, from, at, n, i, base, salts);
  }

  /** Encryption within one array puts down salts and encrypted message, whatever the array holds. */
  ghost predicate Seals(size: nat, from: nat, at: nat, n: nat, base: Octet, salts: Salts)
    requires from + n <= size && at + SALT_LEN + n <= size
  {
    forall c: seq<Octet> :: |c| == size ==>
      Encrypted(c, from, c, at, true, n, base, salts)[at..at + (SALT_LEN + n)] == Sealed(c[from..from + n], base, salts)
  }

  /** Exactly when it reads no cell it has written. */
  lemma SealsFaithfully(size: nat, from: nat, at: nat, n: nat, base: Octet, salts: Salts)
    requires from + n <= size && at + SALT_LEN + n <= size
    ensures Seals(size, from, at, n, base, salts) <==> !SealsOver(from, at, n)
  {
    hide Encrypted, Sealed, Splice;
    if SealsOver(from, at, n) {
      var c := SealsWrong(size, from, at, n, base, salts);
    } else {
      forall c: seq<Octet> | |c| == size
        ensures Encrypted(c, from, c, at, true, n, base, salts)[at..at + (SALT_LEN + n)]
             == Sealed(c[from..from + n], base, salts)
      {
        EncryptedClean(c, from, c, at, true, n, base, salts);
        SpliceShows(c, at, Sealed(c[from..from + n], base, salts));
      }
    }
  }

  lemma SpliceShows<T>(s: seq<T>, at: nat, d: seq<T>)
    requires at + |d| <= |s|
    ensures Splice(s, at, d)[at..at + |d|] == d
  {
  }

  /** With salts that cancel the base salt, only the reversal of the bits is left. */
  lemma NeutralSalts(b: Octet, base: Octet)
    ensures DecryptByte(b, base, [-base, -base, -base]) == SwapBits(b)
  {
    hide SwapBits;
    assert Sum(-base, base) % 8 == 0;
  }

  lemma MaskedNearly(b: Octet, base: Octet)
    ensures Masked(b, -base, base) == b && Masked(b, 1 - base, base) == b ^ 1
  {
  }

  lemma TurnedNearly(base: Octet)
    ensures ShrLoop(1, Sum(-base, base)) == 1 && ShrLoop(0, Sum(-base, base)) == 0
    ensures ShrLoop(1, Sum(1 - base, base)) == 128
  {
  }

  lemma Reversals()
    ensures SwapBits(0) == 0 && SwapBits(1) == 128 && SwapBits(128) == 1
  {
  }

  /** With one of them greater by one, the byte 1 comes out otherwise. */
  lemma SpoiltSalts(base: Octet)
    ensures DecryptByte(1, base, [1 - base, -base, -base]) != SwapBits(1)
    ensures DecryptByte(1, base, [-base, 1 - base, -base]) != SwapBits(1)
    ensures DecryptByte(1, base, [-base, -base, 1 - base]) != SwapBits(1)
  {
    hide XorInt, Sum, ShrLoop, SwapBits, Masked;
    TurnedNearly(base);
    Reversals();
    XorIntWraps(1, -base, base);
    XorIntWraps(1, 1 - base, base);
    XorIntWraps(128, 1 - base, base);
    XorIntWraps(1, -base, base);
    XorIntWraps(0, -base, base);
    MaskedNearly(1, base);
    MaskedNearly(128, base);
    MaskedNearly(0, base);
  }

  /** An array of zeros but for cell `at`, where decryption puts another byte first. */
  lemma ZeroArray(size: nat, from: nat, at: nat, base: Octet) returns (c: seq<Octet>)
    requires from + SALT_LEN < at < size
    ensures |c| == size
    ensures var first := DecryptByte(0, base, [0, 0, 0]);
      && Made(c, c, DecryptCourse(from, at, true), 0, Decoder(base)) == first
      && c[from] == c[from + 1] == c[from + 2] == 0 && c[at] != first
  {
    hide DecryptByte;
    var first := DecryptByte(0, base, [0, 0, 0]);
    assert first != !first;
    c := seq(size, _ => 0);
    c := c[at := !first];
  }

  lemma OpensApart(x: Octet, y: Octet, base: Octet, salts: Salts)
    requires x != y
    ensures DecryptByte(x, base, salts) != DecryptByte(y, base, salts)
  {
    hide *;
    ByteRoundTrip(x, base, salts);
    ByteRoundTrip(y, base, salts);
  }

  /** Decrypting a byte `x` with the salts in cell `from` of an array. */
  lemma DecoderAt(x: Octet, base: Octet, a: Octet, b: Octet, c: Octet)
    ensures Decoder(base)(x, a, b, c) == DecryptByte(x, base, [a, b, c])
  {
    hide DecryptByte;
  }

  /** Where a byte of the message is overrun, the message's first byte is decrypted again in its place. */
  lemma OpensWrongBehind(size: nat, from: nat, at: nat, n: nat, base: Octet) returns (c: seq<Octet>)
    requires from + SALT_LEN + n <= size && at + n <= size && from + SALT_LEN < at < from + SALT_LEN + n
    ensures |c| == size
    ensures Decrypted(c, from, c, at, true, n, base)[at..at + n] != Opened(c[from..from + SALT_LEN + n], base)
  {
    hide DecryptByte, Made, Passed, Opened, Decrypted, Decoder, DecryptCourse;
    var i, first := at - from - SALT_LEN, DecryptByte(0, base, [0, 0, 0]);
    c := ZeroArray(size, from, at, base);
    DecryptedIs(c, from, at, n, base);
    OpenedAt(c, from, at, n, base, i);
    MadeOf(c, DecryptCourse(from, at, true), i, Decoder(base));
    OpensApart(first, c[at], base, [0, 0, 0]);
    DecoderAt(first, base, 0, 0, 0);
    DecoderAt(c[at], base, 0, 0, 0);
    LateElement(c, DecryptCourse(from, at, true), n, Decoder(base), i, Opened(c[from..from + SALT_LEN + n], base));
  }

  /** An array in which the salts from cell `from` on are neutral and the bytes `i` and `i + 1` are telling. */
  ghost predicate Telling(c: seq<Octet>, from: nat, i: nat, base: Octet) {
    && from + SALT_LEN + i + 1 < |c|
    && c[from] == c[from + 1] == c[from + 2] == -base
    && c[from + SALT_LEN + i] == SwapBits(1 - base) && c[from + SALT_LEN + i + 1] == 1
  }

  lemma TellingArray(size: nat, from: nat, i: nat, base: Octet) returns (c: seq<Octet>)
    requires from + SALT_LEN + i + 1 < size
    ensures |c| == size && Telling(c, from, i, base)
  {
    hide SwapBits;
    c := seq(size, _ => -base);
    c := c[from + SALT_LEN + i := SwapBits(1 - base)];
    c := c[from + SALT_LEN + i + 1 := 1];
  }

  /** What a telling array shows of a pass that overruns a salt. */
  lemma OverrunSalt(c: seq<Octet>, from: nat, at: nat, i: nat, base: Octet)
    requires Telling(c, from, i, base) && from <= at + i < from + SALT_LEN
    ensures var w, f := DecryptCourse(from, at, true), Decoder(base);
      && Made(c, c, w, i + 1, f) == SwapBits(1)
      && SwapBits(1) != f(c[from + SALT_LEN + i + 1],
           Overrun(c, w, f, i, from), Overrun(c, w, f, i, from + 1), Overrun(c, w, f, i, from + 2))
  {
    NeutralSalts(SwapBits(1 - base), base);
    NeutralSalts(1, base);
    SwapBitsInvolution(1 - base);
    SpoiltSalts(base);
    hide DecryptByte, SwapBits;
    assert Made(c, c, DecryptCourse(from, at, true), i, Decoder(base)) == 1 - base;
  }

  lemma DecryptedIs(c: seq<Octet>, from: nat, at: nat, n: nat, base: Octet)
    requires from + SALT_LEN + n <= |c| && at + n <= |c|
    ensures var w := DecryptCourse(from, at, true);
      && Fits(c, c, c, w, n) && w.fromSame && w.keySame && w.from == from + SALT_LEN && w.key == from && w.at == at
      && Decrypted(c, from, c, at, true, n, base) == Passed(c, c, c, w, n, Decoder(base))
  {
  }

  lemma OverrunInTime(from: nat, at: nat, i: nat)
    requires from <= at + i < from + SALT_LEN && (i > 0 ==> at + i == from)
    ensures var w := DecryptCourse(from, at, true); !Late(w, i) && !Wrote(w, i + 1, w.from + i + 1)
  {
  }

  lemma OverrunShows(c: seq<Octet>, from: nat, at: nat, n: nat, i: nat, base: Octet)
    requires Telling(c, from, i, base) && from <= at + i < from + SALT_LEN && (i > 0 ==> at + i == from)
    requires i + 1 < n && from + SALT_LEN + n <= |c| && at + n <= |c|
    ensures Decrypted(c, from, c, at, true, n, base)[at..at + n] != Opened(c[from..from + SALT_LEN + n], base)
  {
    hide *;
    var w := DecryptCourse(from, at, true);
    OverrunSalt(c, from, at, i, base);
    OverrunInTime(from, at, i);
    DecryptedIs(c, from, at, n, base);
    OpenedAt(c, from, at, n, base, i + 1);
    LateKey(c, w, n, Decoder(base), i, Opened(c[from..from + SALT_LEN + n], base));
  }

  /** Where a salt is overrun, there are arrays in which the byte decrypted next comes out wrong. */
  lemma OpensWrongBefore(size: nat, from: nat, at: nat, n: nat, base: Octet) returns (c: seq<Octet>)
    requires from + SALT_LEN + n <= size && n > 1 && at < from + SALT_LEN && from + 1 < at + n
    ensures |c| == size
    ensures Decrypted(c, from, c, at, true, n, base)[at..at + n] != Opened(c[from..from + SALT_LEN + n], base)
  {
    var i := if at < from then from - at else 0;
    c := TellingArray(size, from, i, base);
    hide Telling, Decrypted, Opened;
    OverrunShows(c, from, at, n, i, base);
  }

  /** Decryption within one array puts down the message, whatever the array holds. */
  ghost predicate Opens(size: nat, from: nat, at: nat, n: nat, base: Octet)
    requires from + SALT_LEN + n <= size && at + n <= size
  {
    forall c: seq<Octet> :: |c| == size ==>
      Decrypted(c, from, c, at, true, n, base)[at..at + n] == Opened(c[from..from + SALT_LEN + n], base)
  }

  /** Exactly when it reads no cell it has written. */
  lemma OpensFaithfully(size: nat, from: nat, at: nat, n: nat, base: Octet)
    requires from + SALT_LEN + n <= size && at + n <= size
    ensures Opens(size, from, at, n, base) <==> !OpensOver(from, at, n)
  {
    hide Decrypted, Opened, Splice;
    if OpensOver(from, at, n) {
      var c;
      if at < from + SALT_LEN {
        c := OpensWrongBefore(size, from, at, n, base);
      } else {
        c := OpensWrongBehind(size, from, at, n, base);
      }
    } else {
      forall c: seq<Octet> | |c| == size
        ensures Decrypted(c, from, c, at, true, n, base)[at..at + n] == Opened(c[from..from + SALT_LEN + n], base)
      {
        DecryptedClean(c, from, c, at, true, n, base);
        SpliceShows(c, at, Opened(c[from..from + SALT_LEN + n], base));
      }
    }
  }

  /**
   * At the same place only the empty message is encrypted rightly and at most one byte decrypted; with
   * the message right behind the salts both always work.
   */
  lemma InPlace(size: nat, p: nat, n: nat, base: Octet, salts: Salts)
    requires p + SALT_LEN + n <= size
    ensures Seals(size, p, p, n, base, salts) <==> n == 0
    ensures Opens(size, p, p, n, base) <==> n <= 1
    ensures Seals(size, p + SALT_LEN, p, n, base, salts) && Opens(size, p, p + SALT_LEN, n, base)
  {
    hide Seals, Opens;
    SealsFaithfully(size, p, p, n, base, salts);
    OpensFaithfully(size, p, p, n, base);
    SealsFaithfully(size, p + SALT_LEN, p, n, base, salts);
    OpensFaithfully(size, p, p + SALT_LEN, n, base);
  }

  /** Two bytes in place: the first, once written, takes the place of a salt, and the second comes out wrong. */
  lemma InPlaceLosesByte()
    ensures var c := Sealed([1, 0], 0, [0, 0, 0]);
      Opened(c, 0) == [1, 0] && Decrypted(c, 0, c, 0, true, 2, 0)[..2] == [1, 1]
  {
    var c := Sealed([1, 0], 0, [0, 0, 0]);
    assert c == [0, 0, 0, 128, 0];
    var w := DecryptCourse(0, 0, true);
    var first := c[0 := MadeNow(c, c, c, w, 0, Decoder(0))];
    assert Passed(c, c, c, w, 1, Decoder(0)) == first && first[0] == 1;
    assert MadeNow(c, c, first, w, 1, Decoder(0)) == 1;
  }
}
