/** Byte strings, little-endian integers, and memory as a total map from address to byte. */
module Bytes {

  type byte = x: int | 0 <= x < 256

  type Memory = int -> byte

  function Pow256(n: nat): (p: nat)
    ensures p >= 1
  {
    if n == 0 then 1 else 256 * Pow256(n - 1)
  }

  function LE(s: seq<byte>): (v: nat)
    ensures v < Pow256(|s|)
  {
    if s == [] then 0 else s[0] + 256 * LE(s[1..])
  }

  function ToLE(v: nat, n: nat): (s: seq<byte>)
    ensures |s| == n
  {
    if n == 0 then [] else [v % 256] + ToLE(v / 256, n - 1)
  }

  lemma {:induction false} LERoundTrip(v: nat, n: nat)
    requires v < Pow256(n)
    ensures LE(ToLE(v, n)) == v
  {
    if n > 0 {
      LERoundTrip(v / 256, n - 1);
      assert ToLE(v, n)[1..] == ToLE(v / 256, n - 1);
    }
  }

  lemma {:induction false} LEInverse(s: seq<byte>)
    ensures ToLE(LE(s), |s|) == s
  {
    if s != [] {
      LEInverse(s[1..]);
      assert s == [s[0]] + s[1..];
    }
  }

  function Read(m: Memory, a: int, n: nat): (s: seq<byte>)
    ensures |s| == n && forall i :: 0 <= i < n ==> s[i] == m(a + i)
  {
    seq(n, i => m(a + i))
  }

  function Put(m: Memory, a: int, s: seq<byte>): Memory {
    x => if a <= x < a + |s| then s[x - a] else m(x)
  }

  function Word(m: Memory, a: int): nat {
    LE(Read(m, a, 8))
  }

  lemma PutWord(m: Memory, a: int, v: nat)
    requires v < 0x1_0000_0000_0000_0000
    ensures Word(Put(m, a, ToLE(v, 8)), a) == v
  {
    LERoundTrip(v, 8);
    assert Read(Put(m, a, ToLE(v, 8)), a, 8) == ToLE(v, 8);
  }

  lemma WordFrame(m: Memory, m': Memory, a: int)
    requires forall x :: a <= x < a + 8 ==> m'(x) == m(x)
    ensures Word(m', a) == Word(m, a)
  {
    assert Read(m', a, 8) == Read(m, a, 8);
  }

  /** A C string: the bytes of s, none of them zero, followed by a zero. */
  ghost predicate IsCString(m: Memory, a: int, s: seq<byte>) {
    && (forall i :: 0 <= i < |s| ==> m(a + i) == s[i] && s[i] != 0)
    && m(a + |s|) == 0
  }

  lemma NotYetEnded(m: Memory, a: int, s: seq<byte>, i: nat)
    requires IsCString(m, a, s) && i < |s|
    ensures m(a + i) != 0
  {
    assert s[i] != 0;
  }

  lemma CStringUnique(m: Memory, a: int, s: seq<byte>, t: seq<byte>)
    requires IsCString(m, a, s) && IsCString(m, a, t)
    ensures s == t
  {
    if |s| < |t| {
      NotYetEnded(m, a, t, |s|);
    } else if |t| < |s| {
      NotYetEnded(m, a, s, |t|);
    }
  }

  function ZeroBytes(n: nat): (s: seq<byte>)
    ensures |s| == n
  {
    seq(n, _ => 0)
  }

  predicate NoNul(s: seq<byte>) {
    forall i :: 0 <= i < |s| ==> s[i] != 0
  }

  function Cut(s: seq<byte>, limit: nat): (r: seq<byte>)
    ensures |r| == (if |s| <= limit then |s| else limit) && r <= s
  {
    if |s| <= limit then s else s[..limit]
  }
}
