/** Machine integers, bytes and the 512-byte block arithmetic that every tar size goes through. */
module Blocks {
  type byte = x: nat | x < 256

  const T_BLOCKSIZE: nat := 512

  // The widths of the program's uint and size_t (64-bit builds).
  const UINT_LIMIT: nat := 0x1_0000_0000
  const SIZE_LIMIT: nat := 0x1_0000_0000_0000_0000

  /** Conversion to uint and to size_t: the value modulo the width. */
  function ToUint(x: int): (u: nat)
    ensures u < UINT_LIMIT
    ensures 0 <= x < UINT_LIMIT ==> u == x
  {
    x % 0x1_0000_0000
  }

  function ToSize(x: int): (s: nat)
    ensures s < SIZE_LIMIT
    ensures 0 <= x < SIZE_LIMIT ==> s == x
  {
    x % 0x1_0000_0000_0000_0000
  }

  function Min(a: nat, b: nat): nat {
    if a <= b then a else b
  }

  lemma MinIs(a: nat, b: nat)
    ensures Min(a, b) == if a <= b then a else b
  {
  }

  /** The bytes missing from n up to the next block boundary. */
  function Fill(n: nat): (f: nat)
    ensures f < 512 && (n + f) % 512 == 0
    ensures n % 512 == 0 <==> f == 0
  {
    if n % 512 == 0 then 0 else 512 - n % 512
  }

  function Zeros(n: nat): (z: seq<byte>)
    ensures |z| == n
  {
    seq(n, _ => 0)
  }

  /** The least multiple of d that is not below n, counted in d:s. */
  function CeilDiv(n: nat, d: nat): nat
    requires d > 0
  {
    (n + d - 1) / d
  }

  lemma CeilDivIs(n: nat, d: nat, k: nat)
    requires d > 0 && k >= 1
    requires (k - 1) * d < n <= k * d
    ensures CeilDiv(n, d) == k
  {
    DivIs(n + d - 1, d, k, n + d - 1 - k * d);
  }

  lemma DivIs(n: nat, d: nat, q: nat, r: int)
    requires d > 0 && 0 <= r < d && n == q * d + r
    ensures n / d == q && n % d == r
  {
    var q2, r2 := DivMod(n, d);
    QuotientIsUnique(q, r, q2, r2, d, q * d, q2 * d);
  }

  lemma DivMod(a: nat, d: nat) returns (q: nat, r: nat)
    requires d > 0
    ensures q == a / d && r == a % d && a == q * d + r && r < d
  {
    q, r := a / d, a % d;
  }

  lemma QuotientIsUnique(q: nat, r: int, q2: nat, r2: int, d: nat, qd: nat, q2d: nat)
    requires qd == q * d && q2d == q2 * d && qd + r == q2d + r2 && 0 <= r < d && 0 <= r2 < d
    ensures q == q2 && r == r2
  {
    MulStep(q, q2, d);
    MulStep(q2, q, d);
  }

  /** One more step on the left is still within the right, times any d. */
  lemma MulStep(a: nat, b: nat, d: nat)
    ensures a < b ==> (a + 1) * d <= b * d
    ensures (a + 1) * d == a * d + d
  {
    if a < b {
      MulMonotone(a + 1, b, d);
    }
  }

  lemma {:induction false} MulMonotone(a: nat, b: nat, d: nat)
    requires a <= b
    ensures a * d <= b * d
    decreases b
  {
    if a < b {
      MulMonotone(a, b - 1, d);
      assert b * d == (b - 1) * d + d;
    }
  }

  lemma {:induction false} MulAligned(k: nat, d: nat)
    requires d % 512 == 0
    ensures k * d % 512 == 0
  {
    if k > 0 {
      MulAligned(k - 1, d);
      MulStep(k - 1, k, d);
      AddAligned((k - 1) * d, d);
    }
  }

  lemma AddAligned(a: int, b: int)
    requires a % 512 == 0 && b % 512 == 0
    ensures (a + b) % 512 == 0 && (a - b) % 512 == 0
  {
  }

  lemma SliceJoins<T>(s: seq<T>, lo: nat, mid: nat, hi: nat)
    requires lo <= mid <= hi <= |s|
    ensures s[lo..mid] + s[mid..hi] == s[lo..hi]
  {
  }

  lemma SubSlice<T>(s: seq<T>, at: nat, n: nat, lo: nat, hi: nat)
    requires at + n <= |s| && lo <= hi <= n
    ensures s[at..at + n][lo..hi] == s[at + lo..at + hi]
  {
    var t := s[at..at + n];
    forall i | 0 <= i < hi - lo
      ensures t[lo..hi][i] == s[at + lo..at + hi][i]
    {
      assert t[lo..hi][i] == t[lo + i] == s[at + lo + i];
    }
  }

  lemma SliceOfAppend<T>(a: seq<T>, b: seq<T>, lo: nat, hi: nat)
    requires lo <= hi <= |a| + |b|
    ensures hi <= |a| ==> (a + b)[lo..hi] == a[lo..hi]
    ensures |a| <= lo ==> (a + b)[lo..hi] == b[lo - |a|..hi - |a|]
  {
  }

  /** A slice of a stretch of t, taken from t directly. */
  lemma SliceThrough<T>(t: seq<T>, at: nat, stretch: seq<T>, lo: nat, hi: nat)
    requires at + |stretch| <= |t| && t[at..at + |stretch|] == stretch && lo <= hi <= |stretch|
    ensures t[at + lo..at + hi] == stretch[lo..hi]
  {
    SubSlice(t, at, |stretch|, lo, hi);
  }

  // ---------------------------------------------------------------- buffers

  /** b with its bytes from at on replaced by s. */
  function Splice<T>(b: seq<T>, at: nat, s: seq<T>): (r: seq<T>)
    requires at + |s| <= |b|
    ensures |r| == |b|
  {
    b[..at] + s + b[at + |s|..]
  }

  lemma SpliceTwice<T>(b: seq<T>, at: nat, s: seq<T>, t: seq<T>)
    requires at + |s| + |t| <= |b|
    ensures Splice(Splice(b, at, s), at + |s|, t) == Splice(b, at, s + t)
  {
  }

  lemma SpliceNothing<T>(b: seq<T>, at: nat)
    requires at <= |b|
    ensures Splice(b, at, []) == b
  {
  }

  lemma SpliceAtEnd<T>(b: seq<T>, at: nat, s: seq<T>)
    requires at + |s| == |b|
    ensures Splice(b, at, s) == b[..at] + s
  {
  }

  /** memcpy into a buffer. */
  method CopyInto(buf: array<byte>, at: nat, s: seq<byte>)
    requires at + |s| <= buf.Length
    modifies buf
    ensures buf[..] == Splice(old(buf[..]), at, s)
  {
    forall i | at <= i < at + |s| {
      buf[i] := s[i - at];
    }
  }
}
