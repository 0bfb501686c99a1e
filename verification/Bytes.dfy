/** Bytes, C strings and the character codes the programs compare against. */
module Bytes {
  type byte = x: int | 0 <= x < 256

  const NUL: byte := 0
  const NEWLINE: byte := 10
  const SPACE: byte := 32
  const COLON: byte := 58

  /** A value that can be stored as a C string. */
  predicate IsCString(s: seq<byte>) {
    NUL !in s
  }

  /** `k` is the index of the first `c` in `s`, or |s| when there is none. */
  predicate IsFirstIndex(s: seq<byte>, c: byte, k: nat) {
    k <= |s| && (forall i :: 0 <= i < k ==> s[i] != c) && (k < |s| ==> s[k] == c)
  }

  ghost function FirstIndex(s: seq<byte>, c: byte): (k: nat)
    ensures IsFirstIndex(s, c, k)
  {
    FirstIndexExists(s, c);
    var k: nat :| IsFirstIndex(s, c, k);
    k
  }

  lemma {:induction false} FirstIndexExists(s: seq<byte>, c: byte)
    ensures exists k: nat :: IsFirstIndex(s, c, k)
  {
    if s == [] || s[0] == c {
      assert IsFirstIndex(s, c, 0);
    } else {
      FirstIndexExists(s[1..], c);
      var k: nat :| IsFirstIndex(s[1..], c, k);
      assert forall i :: 0 < i <= k ==> s[i] == s[1..][i - 1];
      assert IsFirstIndex(s, c, k + 1);
    }
  }

  lemma FirstIndexUnique(s: seq<byte>, c: byte, k: nat)
    requires IsFirstIndex(s, c, k)
    ensures FirstIndex(s, c) == k
  {
  }
}
