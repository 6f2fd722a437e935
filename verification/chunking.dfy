/**
Content-defined chunking of the Data Domain engine: where a chunk ends, what the chunks of
a byte string are, and that the cuts depend only on nearby bytes.
 */
module Chunking {
  import opened Common

  const MIN_CHUNK: nat := 4096
  const AVG_CHUNK: nat := 8192
  const MAX_CHUNK: nat := 16384
  const WINDOW: nat := 48

  const WORD32: nat := 0x1_0000_0000

  // ---------------------------------------------------------------- rolling hash

  // The base-31 polynomial of the bytes, with no bound on its value.
  function Polynomial(d: Bytes): nat {
    if |d| == 0 then 0 else Polynomial(d[..|d| - 1]) * 31 + d[|d| - 1]
  }

  // The unsigned 32-bit accumulator of the code, which wraps around at every step, holds
  // the polynomial's low 32 bits.
  method RollingHash(d: Bytes) returns (hash: nat)
    ensures hash == Polynomial(d) % WORD32
  {
    hash := 0;
    for i := 0 to |d|
      invariant hash == Polynomial(d[..i]) % WORD32
    {
      assert d[..i + 1][..i] == d[..i];
      WrapStep(Polynomial(d[..i]), d[i]);
      hash := (hash * 31 % WORD32 + d[i]) % WORD32;
    }
    assert d[..|d|] == d;
  }

  lemma WrapStep(p: nat, b: Byte)
    ensures (p % WORD32 * 31 % WORD32 + b) % WORD32 == (p * 31 + b) % WORD32
  {
    var q, r := p / WORD32, p % WORD32;
    assert p * 31 + b == 31 * q * WORD32 + (r * 31 + b);
    var q2, r2 := r * 31 / WORD32, r * 31 % WORD32;
    assert r * 31 + b == q2 * WORD32 + (r2 + b);
    SameRemainder(31 * q, r * 31 + b);
    SameRemainder(q2, r2 + b);
  }

  lemma SameRemainder(k: int, x: int)
    ensures (k * WORD32 + x) % WORD32 == x % WORD32
  {
  }

  // Because 8192 divides 2^32, the wrapped hash cuts exactly where the polynomial would.
  lemma WrapKeepsCuts(p: nat)
    ensures p % WORD32 % AVG_CHUNK == p % AVG_CHUNK
  {
    var q, r := p / WORD32, p % WORD32;
    assert p == q * 524288 * AVG_CHUNK + r;
  }

  function Power31(n: nat): nat { if n == 0 then 1 else 31 * Power31(n - 1) }

  // The sum of d[i] * 31^(|d| - 1 - i) over the first n bytes.
  function WeightedSum(d: Bytes, n: nat): nat
    requires n <= |d|
  {
    if n == 0 then 0 else WeightedSum(d, n - 1) + d[n - 1] as int * Power31(|d| - n)
  }

  lemma {:induction false} SumOfPrefix(d: Bytes, b: Byte, n: nat)
    requires n <= |d|
    ensures WeightedSum(d + [b], n) == 31 * WeightedSum(d, n)
  {
    if n > 0 {
      SumOfPrefix(d, b, n - 1);
      var x, p := d[n - 1] as int, Power31(|d| - n);
      assert Power31(|d + [b]| - n) == 31 * p;
      assert x * (31 * p) == 31 * (x * p);
    }
  }

  // The hash of a window is the weighted sum of its bytes.
  lemma {:induction false} PolynomialIsSum(d: Bytes)
    ensures Polynomial(d) == WeightedSum(d, |d|)
  {
    if |d| > 0 {
      var front, b := d[..|d| - 1], d[|d| - 1];
      PolynomialIsSum(front);
      SumOfPrefix(front, b, |front|);
      assert front + [b] == d;
      assert Power31(0) == 1;
    }
  }

  // ---------------------------------------------------------------- one cut

  // Position `end` of a chunk starting at 0 is a boundary of the content.
  predicate Boundary(d: Bytes, end: nat)
    requires end <= |d|
  {
    end >= AVG_CHUNK && Polynomial(d[end - WINDOW..end]) % AVG_CHUNK == 0
  }

  function Scan(d: Bytes, end: nat): nat
    requires end <= |d|
    decreases |d| - end
  {
    if end == |d| || end >= MAX_CHUNK || Boundary(d, end) then end else Scan(d, end + 1)
  }

  // Where the first chunk of d ends.
  function Cut(d: Bytes): nat {
    Scan(d, Least(MIN_CHUNK, |d|))
  }

  lemma {:induction false} ScanStops(d: Bytes, end: nat)
    requires end <= |d| && end <= MAX_CHUNK
    ensures var n := Scan(d, end);
      && end <= n <= |d| && n <= MAX_CHUNK
      && (n == |d| || n == MAX_CHUNK || Boundary(d, n))
      && forall k: nat | end <= k < n :: !Boundary(d, k)
    decreases |d| - end
  {
    if !(end == |d| || end >= MAX_CHUNK || Boundary(d, end)) {
      ScanStops(d, end + 1);
    }
  }

  // A chunk ends at the first content boundary at or after 8192 bytes, at 16384 bytes, or
  // with the data, whichever comes first.
  lemma CutIsFirstBoundary(d: Bytes)
    ensures var n := Cut(d);
      && n <= Least(MAX_CHUNK, |d|) && (|d| > 0 ==> n > 0)
      && (forall k: nat | k < n :: !Boundary(d, k))
      && (n < |d| ==> n >= AVG_CHUNK)
      && (n < Least(MAX_CHUNK, |d|) ==> Boundary(d, n))
  {
    ScanStops(d, Least(MIN_CHUNK, |d|));
  }

  // The hash of the 48 bytes before position k, in 32 bits.
  function WindowHash(d: Bytes, k: nat): nat
    requires 48 <= k <= |d|
  {
    WeightedSum(d[k - 48..k], 48) % 4294967296
  }

  // The rule with its numbers: the first chunk ends at the first position from 8192 on whose
  // window hashes to a multiple of 8192, at 16384, or with the data, whichever comes first.
  lemma CutRule(d: Bytes)
    ensures var n := Cut(d);
      && n <= |d| && n <= 16384
      && (n == |d| || n == 16384 || (n >= 8192 && WindowHash(d, n) % 8192 == 0))
      && forall k: nat | 8192 <= k < n :: WindowHash(d, k) % 8192 != 0
  {
    CutIsFirstBoundary(d);
    forall k: nat | 8192 <= k <= |d|
      ensures Boundary(d, k) <==> WindowHash(d, k) % 8192 == 0
    {
      PolynomialIsSum(d[k - 48..k]);
      WrapKeepsCuts(Polynomial(d[k - 48..k]));
    }
  }

  // Bytes after a chunk's end have no say in where it ends.
  lemma CutIgnoresTail(a: Bytes, b: Bytes)
    requires Cut(a) < |a|
    ensures Cut(a + b) == Cut(a)
  {
    var n, m := Cut(a), Cut(a + b);
    CutIsFirstBoundary(a);
    CutIsFirstBoundary(a + b);
    forall k: nat | k <= |a|
      ensures Boundary(a + b, k) <==> Boundary(a, k)
    {
      if k >= AVG_CHUNK {
        assert (a + b)[k - WINDOW..k] == a[k - WINDOW..k];
      }
    }
    assert Boundary(a, n) || n == MAX_CHUNK;
  }

  // ---------------------------------------------------------------- all the cuts

  function Chunks(d: Bytes): seq<Bytes>
    decreases |d|
  {
    if |d| == 0 then []
    else
      CutIsFirstBoundary(d);
      [d[..Cut(d)]] + Chunks(d[Cut(d)..])
  }

  function Flatten(chunks: seq<Bytes>): Bytes {
    if |chunks| == 0 then [] else chunks[0] + Flatten(chunks[1..])
  }

  // Where the k-th chunk starts.
  function Offset(d: Bytes, k: nat): nat
    requires k <= |Chunks(d)|
  {
    |Flatten(Chunks(d)[..k])|
  }

  lemma {:induction false} ChunksCoverData(d: Bytes)
    ensures Flatten(Chunks(d)) == d
    decreases |d|
  {
    if |d| > 0 {
      CutIsFirstBoundary(d);
      ChunksCoverData(d[Cut(d)..]);
      assert Chunks(d)[1..] == Chunks(d[Cut(d)..]);
    }
  }

  // Every chunk but the last is 8192 to 16384 bytes long, the last 1 to 16384, and there
  // are at most one more than the data holds average chunks.
  lemma {:induction false} ChunkSizes(d: Bytes)
    ensures var cs := Chunks(d);
      && (forall k | 0 <= k < |cs| - 1 :: AVG_CHUNK <= |cs[k]| <= MAX_CHUNK)
      && (|cs| > 0 ==> 1 <= |cs[|cs| - 1]| <= MAX_CHUNK)
      && AVG_CHUNK * (|cs| - 1) <= |d|
      && |cs| <= |d| / AVG_CHUNK + 1
      && (|cs| == 0 <==> |d| == 0)
    decreases |d|
  {
    if |d| > 0 {
      CutIsFirstBoundary(d);
      ChunkSizes(d[Cut(d)..]);
      assert Chunks(d)[1..] == Chunks(d[Cut(d)..]);
    }
  }

  // The chunks after any cut are the chunks of what follows the cut, alone.
  lemma {:induction false} ChunksAfterCut(d: Bytes, k: nat)
    requires k <= |Chunks(d)|
    ensures Offset(d, k) <= |d| && Chunks(d)[k..] == Chunks(d[Offset(d, k)..])
    decreases k
  {
    if k == 0 {
      assert d[0..] == d && Chunks(d)[..0] == [];
    } else {
      CutIsFirstBoundary(d);
      var n, rest := Cut(d), d[Cut(d)..];
      var cs := Chunks(d);
      assert cs[1..] == Chunks(rest) && cs[0] == d[..n];
      ChunksAfterCut(rest, k - 1);
      assert cs[..k][1..] == cs[1..][..k - 1];
      assert Offset(d, k) == n + Offset(rest, k - 1);
      assert d[Offset(d, k)..] == rest[Offset(rest, k - 1)..];
      assert cs[k..] == cs[1..][k - 1..];
    }
  }

  // Appending data leaves all chunks but the last as they were.
  lemma {:induction false} AppendKeepsChunks(a: Bytes, b: Bytes)
    requires |a| > 0
    ensures var cs := Chunks(a);
      |cs| > 0 && |Chunks(a + b)| >= |cs| - 1 && cs[..|cs| - 1] == Chunks(a + b)[..|cs| - 1]
    decreases |a|
  {
    CutIsFirstBoundary(a);
    var n, cs := Cut(a), Chunks(a);
    if n < |a| {
      CutIgnoresTail(a, b);
      assert (a + b)[n..] == a[n..] + b && (a + b)[..n] == a[..n];
      AppendKeepsChunks(a[n..], b);
      var ds := Chunks(a + b);
      assert ds[1..] == Chunks(a[n..] + b) && cs[1..] == Chunks(a[n..]);
      assert cs[..|cs| - 1] == [cs[0]] + cs[1..][..|cs| - 2];
      assert ds[..|cs| - 1] == [ds[0]] + ds[1..][..|cs| - 2];
    } else {
      assert Chunks(a[n..]) == [] && |cs| == 1;
    }
  }

  // Position n of d is where some chunk starts, or the end.
  ghost predicate IsCut(d: Bytes, n: nat) {
    exists k: nat :: k <= |Chunks(d)| && Offset(d, k) == n
  }

  lemma ChunksOfTail(x: Bytes, s: Bytes) returns (i: nat)
    requires IsCut(x + s, |x|)
    ensures i <= |Chunks(x + s)| && Chunks(x + s)[i..] == Chunks(s)
  {
    i :| i <= |Chunks(x + s)| && Offset(x + s, i) == |x|;
    ChunksAfterCut(x + s, i);
    assert (x + s)[|x|..] == s;
  }

  // Two byte strings that end alike and are both cut where the common part begins end in
  // the same chunks: edits before a shared cut disturb no later segment.
  lemma EditsBeforeCutAreLocal(x: Bytes, y: Bytes, s: Bytes) returns (i: nat, j: nat)
    requires IsCut(x + s, |x|) && IsCut(y + s, |y|)
    ensures i <= |Chunks(x + s)| && j <= |Chunks(y + s)|
    ensures Chunks(x + s)[i..] == Chunks(s) && Chunks(y + s)[j..] == Chunks(s)
  {
    hide Chunks; hide IsCut;
    i := ChunksOfTail(x, s);
    j := ChunksOfTail(y, s);
  }

  // ---------------------------------------------------------------- the loop

  // The code's nested scan over absolute positions.
  method ChunkData(data: Bytes) returns (segments: seq<Bytes>)
    ensures segments == Chunks(data)
  {
    segments := [];
    var start := 0;
    while start < |data|
      invariant start <= |data| && segments + Chunks(data[start..]) == Chunks(data)
    {
      var end := FindEnd(data, start);
      ghost var rest := data[start..];
      CutIsFirstBoundary(rest);
      assert rest[..end - start] == data[start..end] && rest[end - start..] == data[end..];
      assert Chunks(rest) == [data[start..end]] + Chunks(data[end..]);
      assert segments + ([data[start..end]] + Chunks(data[end..]))
          == (segments + [data[start..end]]) + Chunks(data[end..]);
      segments := segments + [data[start..end]];
      start := end;
    }
    assert data[start..] == [];
  }

  method FindEnd(data: Bytes, start: nat) returns (end: nat)
    requires start < |data|
    ensures end == start + Cut(data[start..])
    ensures end <= |data|
  {
    ghost var rest := data[start..];
    end := start + MIN_CHUNK;
    if end > |data| {
      end := |data|;
    }
    while end < |data| && end - start < MAX_CHUNK
      invariant start <= end <= |data| && Scan(rest, end - start) == Cut(rest)
      invariant end - start >= MIN_CHUNK || end == |data|
      decreases |data| - end
    {
      if end - start >= AVG_CHUNK {
        assert data[end - WINDOW..end] == rest[end - start - WINDOW..end - start];
        var hash := RollingHash(data[end - WINDOW..end]);
        WrapKeepsCuts(Polynomial(data[end - WINDOW..end]));
        if hash % AVG_CHUNK == 0 {
          break;
        }
      }
      end := end + 1;
    }
  }
}
