/**
The stages of Purity's data reduction that only compute: pattern removal, the compression
frame, and the decode chain a read goes through.  LZ4, Zstd and SHA-256 are functions
given from outside; Sound says what is assumed of them.
 */
module Reduction {
  import opened Common

  datatype Algorithm = Lz4 | Zstd

  // `inPlay` marks the byte strings that ever get hashed; only among these is SHA-256
  // taken to be free of collisions.
  datatype Codec = Codec(
    blockSize: nat,
    algorithm: Algorithm,
    minRatio: real,
    hash: Bytes -> string,
    inPlay: Bytes -> bool,
    compress: (Algorithm, Bytes) -> Bytes,
    decompress: (Algorithm, Bytes) -> Option<Bytes>)

  ghost predicate Sound(c: Codec) {
    && (forall x, y :: c.inPlay(x) && c.inPlay(y) && c.hash(x) == c.hash(y) ==> x == y)
    && (forall a, x :: c.decompress(a, c.compress(a, x)) == Some(x))
  }

  datatype Error = Overflow | IndexOutOfRange | CorruptPayload | BlockNotFound

  // "__ZERO_BLOCK__" and "__PATTERN:" in ASCII.
  const ZERO_MARKER: Bytes := [95, 95, 90, 69, 82, 79, 95, 66, 76, 79, 67, 75, 95, 95]
  const PATTERN_PREFIX: Bytes := [95, 95, 80, 65, 84, 84, 69, 82, 78, 58]

  const WORD: nat := 0x1_0000_0000

  function Repeat(b: Byte, n: nat): Bytes { seq(n, _ => b) }

  // ---------------------------------------------------------------- 4-byte lengths

  function BigEndian4(n: nat): (r: Bytes)
    requires n < WORD
    ensures |r| == 4
  {
    [n / 0x100_0000, n / 0x1_0000 % 0x100, n / 0x100 % 0x100, n % 0x100]
  }

  function FromBigEndian4(d: Bytes): nat
    requires |d| == 4
  {
    (d[0] as int) * 0x100_0000 + (d[1] as int) * 0x1_0000 + (d[2] as int) * 0x100 + d[3] as int
  }

  lemma BigEndianRoundTrip(n: nat)
    requires n < WORD
    ensures FromBigEndian4(BigEndian4(n)) == n
  {
    assert n / 0x1_0000 == n / 0x100 / 0x100 && n / 0x100_0000 == n / 0x1_0000 / 0x100;
  }

  lemma BigEndianUnique(b: Bytes)
    requires |b| == 4
    ensures FromBigEndian4(b) < WORD && BigEndian4(FromBigEndian4(b)) == b
  {
    var n := FromBigEndian4(b);
    assert n / 0x100 == b[0] as int * 0x1_0000 + b[1] as int * 0x100 + b[2] as int;
    assert n / 0x1_0000 == b[0] as int * 0x100 + b[1] as int;
    assert n / 0x100_0000 == b[0];
  }

  // ---------------------------------------------------------------- pattern removal

  predicate AllSame(d: Bytes, b: Byte) {
    forall i | 0 <= i < |d| :: d[i] == b
  }

  datatype Analysis = Zero | Repeated(pattern: Byte) | Mixed

  // The empty block counts as a zero block.
  function Analyze(d: Bytes): Analysis {
    if AllSame(d, 0) then Zero
    else if AllSame(d, d[0]) then Repeated(d[0])
    else Mixed
  }

  function EncodePattern(d: Bytes): Result<(Bytes, bool), Error> {
    match Analyze(d)
    case Zero => Ok((ZERO_MARKER, true))
    case Repeated(b) => if |d| < WORD then Ok((PATTERN_PREFIX + [b] + BigEndian4(|d|), true)) else Err(Overflow)
    case Mixed => Ok((d, false))
  }

  predicate IsEncoded(d: Bytes) {
    d == ZERO_MARKER || PATTERN_PREFIX <= d
  }

  // What pattern removal puts in the place of a block: the zero marker, or the prefix with a
  // byte other than 0 and a length other than 0.
  predicate IsMarker(d: Bytes) {
    || d == ZERO_MARKER
    || (|d| == 15 && PATTERN_PREFIX <= d && d[10] != 0 && FromBigEndian4(d[11..]) > 0)
  }

  function DecodePattern(c: Codec, d: Bytes): Result<Bytes, Error> {
    if d == ZERO_MARKER then Ok(Repeat(0, c.blockSize))
    else if PATTERN_PREFIX <= d then
      if |d| == |PATTERN_PREFIX| then Err(IndexOutOfRange)
      else Ok(Repeat(d[|PATTERN_PREFIX|], FromBigEndian4(d[|d| - 4..])))
    else Ok(d)
  }

  // ---------------------------------------------------------------- compression frame

  function AlgorithmByte(a: Algorithm): Byte {
    match a case Lz4 => 1 case Zstd => 2
  }

  predicate WorthKeeping(c: Codec, originalSize: nat, compressedSize: nat) {
    (if compressedSize > 0 then originalSize as real / compressedSize as real else 1.0) >= c.minRatio
  }

  // One algorithm byte (0 for "stored as is") and the original size, then the payload.
  function Compress(c: Codec, d: Bytes): Result<Bytes, Error> {
    var z := c.compress(c.algorithm, d);
    if |d| >= WORD then Err(Overflow)
    else if WorthKeeping(c, |d|, |z|) then Ok([AlgorithmByte(c.algorithm)] + BigEndian4(|d|) + z)
    else Ok([0] + BigEndian4(|d|) + d)
  }

  predicate HasHeader(d: Bytes) {
    |d| >= 5 && d[0] <= 2
  }

  function Decompress(c: Codec, d: Bytes): Result<Bytes, Error> {
    if |d| < 5 then Ok(d)
    else
      var payload := d[5..];
      if d[0] == 1 || d[0] == 2 then
        match c.decompress(if d[0] == 1 then Lz4 else Zstd, payload)
        case Some(x) => Ok(x)
        case None => Err(CorruptPayload)
      else Ok(payload)
  }

  // ---------------------------------------------------------------- store form and read chain

  // What the backend gets for a block that is not deduplicated.
  function Encode(c: Codec, d: Bytes): Result<Bytes, Error> {
    match EncodePattern(d)
    case Err(e) => Err(e)
    case Ok((x, reduced)) => if reduced then Ok(x) else Compress(c, x)
  }

  function Decode(c: Codec, raw: Bytes): Result<Bytes, Error> {
    match (if HasHeader(raw) then Decompress(c, raw) else Ok(raw))
    case Err(e) => Err(e)
    case Ok(x) => if IsEncoded(x) then DecodePattern(c, x) else Ok(x)
  }

  // Data a caller can expect back: not a marker, and an all-zero block exactly one block long.
  predicate Storable(c: Codec, d: Bytes) {
    && !IsEncoded(d)
    && (AllSame(d, 0) ==> |d| == c.blockSize)
  }

  lemma FrameRoundTrip(c: Codec, d: Bytes)
    requires Sound(c) && |d| < WORD
    ensures HasHeader(Compress(c, d).value) && Decompress(c, Compress(c, d).value) == Ok(d)
  {
    var z := c.compress(c.algorithm, d);
    var head := (if WorthKeeping(c, |d|, |z|) then [AlgorithmByte(c.algorithm)] else [0]) + BigEndian4(|d|);
    var body := if WorthKeeping(c, |d|, |z|) then z else d;
    assert Compress(c, d).value == head + body;
    assert (head + body)[5..] == body;
  }

  lemma RepeatedRoundTrip(c: Codec, d: Bytes)
    requires Analyze(d).Repeated? && |d| < WORD
    ensures DecodePattern(c, EncodePattern(d).value.0) == Ok(d)
    ensures IsEncoded(EncodePattern(d).value.0) && !HasHeader(EncodePattern(d).value.0)
  {
    var x := EncodePattern(d).value.0;
    assert x[10] == d[0] && x[11..] == BigEndian4(|d|) && x[..10] == PATTERN_PREFIX;
    assert x[2] == 80;
    BigEndianRoundTrip(|d|);
    assert d == Repeat(d[0], |d|);
  }

  // A block with two different bytes never comes back from a marker.
  lemma MarkersDecodeToSame(c: Codec, d: Bytes)
    requires IsEncoded(d) && DecodePattern(c, d).Ok?
    ensures DecodePattern(c, d).value != d
  {
    if d == ZERO_MARKER {
      assert d[0] == 95;
    } else {
      assert d[0] == PATTERN_PREFIX[0] == 95 && d[2] == PATTERN_PREFIX[2] == 80;
    }
  }

  // Encoding fails only on lengths that do not fit in four bytes.
  lemma EncodeFails(c: Codec, d: Bytes)
    ensures Encode(c, d).Err? <==> !AllSame(d, 0) && |d| >= WORD
  {
  }

  // What a stored block reads back as: one block of zeros for any all-zero data, what a
  // marker stands for if the data looks like one, and otherwise the data.
  function Reads(c: Codec, d: Bytes): Result<Bytes, Error> {
    if AllSame(d, 0) then Ok(Repeat(0, c.blockSize))
    else if IsEncoded(d) then DecodePattern(c, d)
    else Ok(d)
  }

  // Whichever of the zero, repeated, compressed or incompressible paths it took.
  lemma ReadsBack(c: Codec, d: Bytes)
    requires Sound(c) && Encode(c, d).Ok?
    ensures Decode(c, Encode(c, d).value) == Reads(c, d)
  {
    match Analyze(d)
    case Zero =>
      assert Decode(c, ZERO_MARKER) == Ok(Repeat(0, c.blockSize));
    case Repeated(b) =>
      RepeatedRoundTrip(c, d);
      assert |d| >= 3 ==> d[0] == d[2];
    case Mixed =>
      FrameRoundTrip(c, d);
  }

  // A stored block reads back as the original bytes exactly when the data is storable.
  lemma RoundTripExactly(c: Codec, d: Bytes)
    requires Sound(c) && Encode(c, d).Ok?
    ensures Decode(c, Encode(c, d).value) == Ok(d) <==> Storable(c, d)
  {
    ReadsBack(c, d);
    if AllSame(d, 0) {
      assert |d| == c.blockSize ==> d == Repeat(0, c.blockSize);
      assert |d| > 0 ==> d[0] == 0;
    } else if IsEncoded(d) && DecodePattern(c, d).Ok? {
      MarkersDecodeToSame(c, d);
    }
  }

  // The two ways to fail: the bytes of the zero marker come back as a block of zeros, and
  // so does any all-zero data of another length.
  lemma RoundTripFails(c: Codec, n: nat)
    requires Sound(c) && n != c.blockSize
    ensures Encode(c, ZERO_MARKER).Ok? && Encode(c, Repeat(0, n)).Ok?
    ensures Decode(c, Encode(c, ZERO_MARKER).value) == Ok(Repeat(0, c.blockSize)) != Ok(ZERO_MARKER)
    ensures Decode(c, Encode(c, Repeat(0, n)).value) == Ok(Repeat(0, c.blockSize)) != Ok(Repeat(0, n))
  {
    var zeros := Repeat(0, c.blockSize);
    assert ZERO_MARKER[0] == 95 && ZERO_MARKER[2] == 90;
    assert |zeros| > 0 ==> zeros[0] == 0;
    ReadsBack(c, ZERO_MARKER);
    ReadsBack(c, Repeat(0, n));
    assert |Repeat(0, n)| != |zeros|;
  }

  // The markers are exactly what pattern removal produces.
  lemma MarkersAreProduced(d: Bytes)
    ensures IsMarker(d) <==> exists x :: EncodePattern(x) == Ok((d, true))
  {
    if d == ZERO_MARKER {
      assert EncodePattern([]) == Ok((d, true));
    } else if IsMarker(d) {
      BigEndianUnique(d[11..]);
      var x := Repeat(d[10], FromBigEndian4(d[11..]));
      assert x[0] == d[10];
      assert d == PATTERN_PREFIX + [d[10]] + d[11..];
      assert EncodePattern(x) == Ok((d, true));
    }
    forall x | EncodePattern(x).Ok? && EncodePattern(x).value.1
      ensures IsMarker(EncodePattern(x).value.0)
    {
      PatternIsMarker(x);
    }
  }

  lemma PatternIsMarker(x: Bytes)
    requires EncodePattern(x).Ok? && EncodePattern(x).value.1
    ensures IsMarker(EncodePattern(x).value.0)
  {
    if Analyze(x).Repeated? {
      var m := EncodePattern(x).value.0;
      assert m[..10] == PATTERN_PREFIX && m[10] == x[0] && m[11..] == BigEndian4(|x|);
      BigEndianRoundTrip(|x|);
    }
  }

  // A marker reads back as the block it stands for.
  lemma MarkerReadsAsPattern(c: Codec, x: Bytes)
    requires EncodePattern(x).Ok? && EncodePattern(x).value.1
    ensures var m := EncodePattern(x).value.0;
      Analyze(m).Mixed? && Encode(c, m).Ok? && Reads(c, m) == Reads(c, x)
  {
    var m := EncodePattern(x).value.0;
    if Analyze(x).Repeated? {
      RepeatedRoundTrip(c, x);
      assert m[..10] == PATTERN_PREFIX;
      assert m[0] == PATTERN_PREFIX[0] == 95 && m[2] == PATTERN_PREFIX[2] == 80;
      assert |x| >= 3 ==> x[0] == x[2];
    } else {
      assert m[0] == 95 && m[2] == 90;
    }
  }

  // Blocks that are not patterns have different frames.
  lemma FramesDiffer(c: Codec, d: Bytes, d': Bytes)
    requires Sound(c) && |d| < WORD && |d'| < WORD && Compress(c, d) == Compress(c, d')
    ensures d == d'
  {
    FrameRoundTrip(c, d);
    FrameRoundTrip(c, d');
  }

  // ---------------------------------------------------------------- the form on the backend

  ghost predicate TwoBytes(d: Bytes) {
    exists i, j :: 0 <= i < j < |d| && d[i] != d[j]
  }

  // The bytes that stand for block d, written out: 14 bytes for zeros, 15 for one repeated
  // byte; for any other block 1 for LZ4 or 2 for Zstd, the length and the compressed form z
  // when |d| / |z| reaches the ratio asked for, and otherwise 0, the length and the block.
  ghost predicate StoredAs(c: Codec, d: Bytes, body: Bytes) {
    && ((forall i | 0 <= i < |d| :: d[i] == 0) ==> |body| == 14 && body == ZERO_MARKER)
    && (|d| > 0 && d[0] != 0 && (forall i | 0 <= i < |d| :: d[i] == d[0]) ==>
          |body| == 15 && body[..10] == PATTERN_PREFIX && body[10] == d[0] && LengthAt(body, 11) == |d|)
    && (TwoBytes(d) ==> FramedAs(c, d, c.compress(c.algorithm, d), body))
  }

  ghost predicate FramedAs(c: Codec, d: Bytes, z: Bytes, body: Bytes) {
    && LengthAt(body, 1) == |d|
    && (|z| > 0 && |d| as real >= c.minRatio * |z| as real ==>
          |body| == 5 + |z| && body[0] == (if c.algorithm.Lz4? then 1 else 2) && body[5..] == z)
    && (|z| > 0 && |d| as real < c.minRatio * |z| as real ==>
          |body| == 5 + |d| && body[0] == 0 && body[5..] == d)
    && (|z| == 0 ==> |body| == 5 + if c.minRatio <= 1.0 then 0 else |d|)
  }

  // Four bytes, the most significant first; -1 if they are not there.
  function LengthAt(d: Bytes, i: nat): int {
    if i + 4 <= |d|
    then d[i] as int * 16777216 + d[i + 1] as int * 65536 + d[i + 2] as int * 256 + d[i + 3] as int
    else -1
  }

  lemma RatioMeaning(c: Codec, n: nat, m: nat)
    requires m > 0
    ensures WorthKeeping(c, n, m) <==> n as real >= c.minRatio * m as real
  {
    var q := n as real / m as real;
    assert q * m as real == n as real;
    ScaledOrder(c.minRatio, q, m as real);
  }

  lemma MixedHasTwoBytes(d: Bytes)
    ensures TwoBytes(d) <==> Analyze(d).Mixed?
  {
    if Analyze(d).Mixed? {
      var j :| 0 <= j < |d| && d[j] != d[0];
      assert 0 < j && d[0] != d[j];
    }
  }

  // Whatever can be encoded reaches the backend in exactly that form.
  lemma StoredForm(c: Codec, d: Bytes)
    requires Encode(c, d).Ok?
    ensures StoredAs(c, d, Encode(c, d).value)
  {
    hide LengthAt; hide FramedAs; hide TwoBytes; hide Compress; hide BigEndian4;
    var body := Encode(c, d).value;
    MixedHasTwoBytes(d);
    match Analyze(d)
    case Zero =>
    case Repeated(b) =>
      assert body[..10] == PATTERN_PREFIX && body[10] == d[0] && body[11..15] == BigEndian4(|d|);
      LengthField(body, 11, |d|);
    case Mixed =>
      FrameForm(c, d);
  }

  lemma LengthField(body: Bytes, i: nat, n: nat)
    requires n < WORD && i + 4 <= |body| && body[i..i + 4] == BigEndian4(n)
    ensures LengthAt(body, i) == n
  {
    BigEndianRoundTrip(n);
    var b := body[i..i + 4];
    assert b[0] == body[i] && b[1] == body[i + 1] && b[2] == body[i + 2] && b[3] == body[i + 3];
  }

  lemma FrameForm(c: Codec, d: Bytes)
    requires Compress(c, d).Ok?
    ensures FramedAs(c, d, c.compress(c.algorithm, d), Compress(c, d).value)
  {
    hide LengthAt; hide BigEndian4; hide WorthKeeping;
    var body, z := Compress(c, d).value, c.compress(c.algorithm, d);
    var keep := WorthKeeping(c, |d|, |z|);
    var head := [if keep then AlgorithmByte(c.algorithm) else 0] + BigEndian4(|d|);
    assert body == head + if keep then z else d;
    assert body[1..5] == BigEndian4(|d|);
    LengthField(body, 1, |d|);
    if |z| > 0 {
      RatioMeaning(c, |d|, |z|);
    } else {
      NothingLeft(c, |d|);
    }
  }

  lemma NothingLeft(c: Codec, n: nat)
    ensures WorthKeeping(c, n, 0) <==> c.minRatio <= 1.0
  {
  }

  // With a ratio of at least 1 asked for, storing never costs more than the five bytes.
  lemma NeverMuchLarger(c: Codec, d: Bytes)
    requires Encode(c, d).Ok? && c.minRatio >= 1.0
    ensures |Encode(c, d).value| <= if TwoBytes(d) then |d| + 5 else 15
  {
    hide LengthAt; hide TwoBytes; hide Encode;
    StoredForm(c, d);
    MixedHasTwoBytes(d);
    var z := c.compress(c.algorithm, d);
    if |z| > 0 && |d| as real >= c.minRatio * |z| as real {
      AtLeastAsLong(c.minRatio, |z|, |d|);
    }
  }

  lemma AtLeastAsLong(ratio: real, m: nat, n: nat)
    requires ratio >= 1.0 && n as real >= ratio * m as real
    ensures n >= m
  {
    assert (ratio - 1.0) * m as real >= 0.0;
  }

  // What pattern removal produces is never storable itself, so no caller's block is ever
  // mistaken for a marker.
  lemma MarkersAreNotStorable(c: Codec, d: Bytes)
    requires EncodePattern(d).Ok? && EncodePattern(d).value.1
    ensures !Storable(c, EncodePattern(d).value.0)
  {
    var x := EncodePattern(d).value.0;
    if Analyze(d).Repeated? {
      assert x[..10] == PATTERN_PREFIX;
    }
  }
}
