/** Bytes, and the common prefix and suffix of two byte strings. */
module Bytes {
  type byte = x: int | 0 <= x < 256

  function Min(a: int, b: int): int {
    if a <= b then a else b
  }

  function Max(a: int, b: int): int {
    if a >= b then a else b
  }

  /** The last `n` elements. */
  function Tail(s: seq<byte>, n: nat): seq<byte>
    requires n <= |s|
  {
    s[|s| - n..]
  }

  /** The element `j` places before the last. */
  function FromEnd(s: seq<byte>, j: nat): byte
    requires j < |s|
  {
    s[|s| - 1 - j]
  }

  function PrefixFrom(a: seq<byte>, b: seq<byte>, i: nat): (n: nat)
    requires i <= |a| && i <= |b|
    ensures i <= n <= |a| && n <= |b|
    decreases |a| - i
  {
    if i < |a| && i < |b| && a[i] == b[i] then PrefixFrom(a, b, i + 1) else i
  }

  /** The length of the longest common prefix of `a` and `b`. */
  function CommonPrefix(a: seq<byte>, b: seq<byte>): (n: nat)
    ensures n <= |a| && n <= |b|
  {
    PrefixFrom(a, b, 0)
  }

  function SuffixFrom(a: seq<byte>, b: seq<byte>, i: nat): (n: nat)
    requires i <= |a| && i <= |b|
    ensures i <= n <= |a| && n <= |b|
    decreases |a| - i
  {
    if i < |a| && i < |b| && FromEnd(a, i) == FromEnd(b, i) then SuffixFrom(a, b, i + 1) else i
  }

  /** The length of the longest common suffix of `a` and `b`. */
  function CommonSuffix(a: seq<byte>, b: seq<byte>): (n: nat)
    ensures n <= |a| && n <= |b|
  {
    SuffixFrom(a, b, 0)
  }

  /** `a` and `b` agree on `n` elements from the front, and then end or differ. */
  ghost predicate StopsAt(a: seq<byte>, b: seq<byte>, n: nat) {
    n <= |a| && n <= |b| && (n < |a| && n < |b| ==> a[n] != b[n])
  }

  ghost predicate StopsBefore(a: seq<byte>, b: seq<byte>, n: nat) {
    n <= |a| && n <= |b| && (n < |a| && n < |b| ==> FromEnd(a, n) != FromEnd(b, n))
  }

  lemma {:induction false} PrefixScan(a: seq<byte>, b: seq<byte>, i: nat)
    requires i <= |a| && i <= |b|
    ensures StopsAt(a, b, PrefixFrom(a, b, i))
    ensures forall j | i <= j < PrefixFrom(a, b, i) :: a[j] == b[j]
    decreases |a| - i
  {
    if i < |a| && i < |b| && a[i] == b[i] {
      PrefixScan(a, b, i + 1);
    }
  }

  lemma {:induction false} SuffixScan(a: seq<byte>, b: seq<byte>, i: nat)
    requires i <= |a| && i <= |b|
    ensures StopsBefore(a, b, SuffixFrom(a, b, i))
    ensures forall j | i <= j < SuffixFrom(a, b, i) :: FromEnd(a, j) == FromEnd(b, j)
    decreases |a| - i
  {
    if i < |a| && i < |b| && FromEnd(a, i) == FromEnd(b, i) {
      SuffixScan(a, b, i + 1);
    }
  }

  /** The common prefix is one, and it stops only at an end or at a difference. */
  lemma CommonPrefixIs(a: seq<byte>, b: seq<byte>)
    ensures var n := CommonPrefix(a, b); a[..n] == b[..n] && StopsAt(a, b, n)
  {
    PrefixScan(a, b, 0);
  }

  lemma CommonSuffixIs(a: seq<byte>, b: seq<byte>)
    ensures var n := CommonSuffix(a, b); Tail(a, n) == Tail(b, n) && StopsBefore(a, b, n)
  {
    SuffixScan(a, b, 0);
    var n := CommonSuffix(a, b);
    forall k | 0 <= k < n ensures Tail(a, n)[k] == Tail(b, n)[k] {
      var j := n - 1 - k;
      assert Tail(a, n)[k] == FromEnd(a, j) && Tail(b, n)[k] == FromEnd(b, j);
    }
  }

  /** Nothing longer is a common prefix, and only the longest one stops. */
  lemma {:induction false} CommonPrefixUnique(a: seq<byte>, b: seq<byte>, n: nat)
    requires n <= |a| && n <= |b| && a[..n] == b[..n]
    ensures n <= CommonPrefix(a, b)
    ensures StopsAt(a, b, n) ==> n == CommonPrefix(a, b)
  {
    forall j | 0 <= j < n ensures a[j] == b[j] {
      assert a[j] == a[..n][j] && b[j] == b[..n][j];
    }
    PrefixReaches(a, b, 0, n);
  }

  lemma {:induction false} PrefixReaches(a: seq<byte>, b: seq<byte>, i: nat, n: nat)
    requires i <= n <= |a| && n <= |b|
    requires forall j | i <= j < n :: a[j] == b[j]
    ensures n <= PrefixFrom(a, b, i)
    ensures StopsAt(a, b, n) ==> n == PrefixFrom(a, b, i)
    decreases n - i
  {
    if i < n {
      PrefixReaches(a, b, i + 1, n);
    }
  }

  lemma {:induction false} CommonSuffixUnique(a: seq<byte>, b: seq<byte>, n: nat)
    requires n <= |a| && n <= |b| && Tail(a, n) == Tail(b, n)
    ensures n <= CommonSuffix(a, b)
    ensures StopsBefore(a, b, n) ==> n == CommonSuffix(a, b)
  {
    forall j | 0 <= j < n ensures FromEnd(a, j) == FromEnd(b, j) {
      var k := n - 1 - j;
      assert FromEnd(a, j) == Tail(a, n)[k] && FromEnd(b, j) == Tail(b, n)[k];
    }
    SuffixReaches(a, b, 0, n);
  }

  lemma {:induction false} SuffixReaches(a: seq<byte>, b: seq<byte>, i: nat, n: nat)
    requires i <= n <= |a| && n <= |b|
    requires forall j | i <= j < n :: FromEnd(a, j) == FromEnd(b, j)
    ensures n <= SuffixFrom(a, b, i)
    ensures StopsBefore(a, b, n) ==> n == SuffixFrom(a, b, i)
    decreases n - i
  {
    if i < n {
      SuffixReaches(a, b, i + 1, n);
    }
  }

  /** `b` stands in `d` at `at`. */
  predicate At(d: seq<byte>, at: nat, b: seq<byte>) {
    at + |b| <= |d| && d[at..at + |b|] == b
  }

  lemma AtSplit(d: seq<byte>, at: nat, a: seq<byte>, b: seq<byte>)
    requires At(d, at, a + b)
    ensures At(d, at, a) && At(d, at + |a|, b)
  {
    assert d[at..at + |a|] == (a + b)[..|a|];
    assert d[at + |a|..at + |a| + |b|] == (a + b)[|a|..];
  }

  lemma AtBytes(d: seq<byte>, at: nat, b: seq<byte>)
    requires At(d, at, b)
    ensures forall i | 0 <= i < |b| :: d[at + i] == b[i]
  {
    forall i | 0 <= i < |b| ensures d[at + i] == b[i] {
      assert d[at..at + |b|][i] == d[at + i];
    }
  }
}
