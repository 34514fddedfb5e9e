/** Writing over part of a sequence. */
module Sequences {

  /** `s` with `d` written over it from position `at` on. */
  function Splice<T>(s: seq<T>, at: nat, d: seq<T>): (r: seq<T>)
    requires at + |d| <= |s|
    ensures |r| == |s|
  {
    s[..at] + d + s[at + |d|..]
  }
}
