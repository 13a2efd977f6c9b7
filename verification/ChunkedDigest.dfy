/**
 The digest of a long string, taken chunk by chunk through a fixed buffer, and
 the values of exact encoded size that it is taken of.
 */
module ChunkedDigest {
  import opened Unicode
  import opened Utf8Codec
  import opened Repair

  // TextEncoder.encode (the Encoding standard's UTF-8 encode of a scalar value
  // string): lone surrogates become U+FFFD.
  function Encode(s: seq<Unit>): seq<Byte> {
    Utf8All(Points(Normalized(s)))
  }

  // TextEncoder.encodeInto: the units read and the bytes written, as many whole
  // points as the buffer holds.
  function EncodeInto(s: seq<Unit>, capacity: nat): (r: (nat, seq<Byte>)) {
    var ps := Points(Normalized(s));
    var fitting := ps[..Fit(ps, capacity)];
    (|UnitsAll(fitting)|, Utf8All(fitting))
  }

  // Three bytes a unit always suffice.
  lemma {:induction false} ThreeBytesAUnit(s: seq<Unit>)
    requires WellFormed(s)
    ensures |Utf8All(Points(s))| <= 3 * |s|
  {
    if s != [] {
      ThreeBytesAUnit(Rest(s));
    }
  }

  // So a buffer of that size takes the whole chunk.
  lemma EncodesWhole(s: seq<Unit>, capacity: nat)
    requires capacity >= 3 * |s|
    ensures EncodeInto(s, capacity) == (|s|, Encode(s))
  {
    var t := Normalized(s);
    var ps := Points(t);
    RepairIsWellFormed(s);
    ThreeBytesAUnit(t);
    FitAll(ps, capacity);
    assert ps[..|ps|] == ps;
    PointsRoundTrip(t);
  }

  lemma RestConcat(s: seq<Unit>, t: seq<Unit>)
    requires s != [] && WellFormed(s)
    ensures Rest(s + t) == Rest(s) + t && FirstPoint(s + t) == FirstPoint(s) && WellFormed(Rest(s))
  {
    hide Combine;
    assert (s + t)[1..] == s[1..] + t;
    if IsHigh(s[0]) {
      assert (s + t)[2..] == s[2..] + t;
    }
  }

  lemma {:induction false} PointsConcat(s: seq<Unit>, t: seq<Unit>)
    requires WellFormed(s)
    ensures Points(s + t) == Points(s) + Points(t)
    decreases |s|
  {
    hide WellFormed, Rest, FirstPoint;
    if s == [] {
      assert s + t == t;
    } else {
      RestConcat(s, t);
      PointsConcat(Rest(s), t);
    }
  }

  // Encoding works piece by piece at a cut that splits no surrogate pair.
  lemma EncodeByPieces(s: seq<Unit>, n: nat)
    requires n <= |s| && CleanCut(s, n)
    ensures Encode(s) == Encode(s[..n]) + Encode(s[n..])
  {
    hide Utf8All, Normalized;
    RepairByPieces(s, n);
    RepairIsWellFormed(s[..n]);
    PointsConcat(Normalized(s[..n]), Normalized(s[n..]));
    Utf8AllConcat(Points(Normalized(s[..n])), Points(Normalized(s[n..])));
  }

  // The bytes fed to the hash, which are those of the whole string.  The check
  // of the length read never fails.
  method Digest(value: seq<Unit>, chunkUnits: nat) returns (thrown: bool, fed: seq<Byte>, ghost chunks: seq<seq<Unit>>)
    requires chunkUnits >= 2
    ensures !thrown && fed == Encode(value)
    ensures Flatten(chunks) == value
    ensures SplitsNoPair(chunks) && NoneLonger(chunks, chunkUnits) && AllFull(chunks, chunkUnits)
  {
    hide Encode, EncodeInto, SplitsNoPair, NoneLonger, NoPairAt, Flatten, CleanCut, AllFull, IsFull;
    NothingSplits(chunkUnits);
    thrown, fed, chunks := false, [], [];
    var offset := 0;
    assert value[offset..] == value;
    while offset < |value|
      invariant 0 <= offset <= |value| && !thrown
      invariant fed + Encode(value[offset..]) == Encode(value)
      invariant Flatten(chunks) == value[..offset]
      invariant SplitsNoPair(chunks) && NoneLonger(chunks, chunkUnits)
      invariant chunks != [] && offset < |value| ==>
        NoPairAt(chunks[|chunks| - 1], value[offset..]) && IsFull(chunks[|chunks| - 1], value[offset], chunkUnits)
      invariant AllFull(chunks, chunkUnits)
    {
      var end := if |value| < offset + chunkUnits then |value| else offset + chunkUnits;
      if end < |value| && 0xD800 <= value[end - 1] <= 0xDBFF {
        end := end - 1;
      }
      var chunk := value[offset..end];
      var encoded := EncodeInto(chunk, 3 * chunkUnits);
      EncodesWhole(chunk, 3 * chunkUnits);
      if encoded.0 != |chunk| {
        return true, fed, chunks;
      }
      CutAfterChunk(value, offset, end);
      EncodeByPieces(value[offset..], end - offset);
      FlattenAppend(chunks, chunk);
      ChunkSplitsNoPair(value, offset, end, chunks, chunkUnits);
      ChunkIsFull(value, offset, end, chunks, chunkUnits);
      fed := fed + encoded.1;
      chunks := chunks + [chunk];
      offset := end;
    }
    assert value[offset..] == [] && value[..offset] == value;
    EncodeEmpty();
  }

  // The first text is not empty and ends in no high surrogate whose low one begins the second.
  ghost predicate NoPairAt(s: seq<Unit>, t: seq<Unit>) {
    s != [] && t != [] && !(IsHigh(s[|s| - 1]) && IsLow(t[0]))
  }

  ghost predicate NoneLonger(chunks: seq<seq<Unit>>, units: nat) {
    forall i :: 0 <= i < |chunks| ==> |chunks[i]| <= units
  }

  // A chunk takes all the units there is room for, but for a high surrogate at
  // the end, which begins the next.
  ghost predicate IsFull(chunk: seq<Unit>, next: Unit, units: nat) {
    || (|chunk| == units && units > 0 && !IsHigh(chunk[units - 1]))
    || (|chunk| + 1 == units && IsHigh(next))
  }

  ghost predicate AllFull(chunks: seq<seq<Unit>>, units: nat) {
    forall i :: 0 < i < |chunks| ==> chunks[i] != [] && IsFull(chunks[i - 1], chunks[i][0], units)
  }

  lemma ChunkIsFull(value: seq<Unit>, offset: nat, end: nat, chunks: seq<seq<Unit>>, units: nat)
    requires offset < end <= |value| && AllFull(chunks, units)
    requires chunks != [] ==> IsFull(chunks[|chunks| - 1], value[offset], units)
    requires end < |value| ==>
      (end == offset + units && !IsHigh(value[end - 1])) || (end + 1 == offset + units && IsHigh(value[end]))
    ensures AllFull(chunks + [value[offset..end]], units)
    ensures end < |value| ==> IsFull(value[offset..end], value[end], units)
  {
  }

  lemma NothingSplits(units: nat)
    ensures SplitsNoPair([]) && NoneLonger([], units) && Flatten([]) == [] && AllFull([], units)
  {
  }

  // The next chunk keeps apart from the one before it, and from what follows it.
  lemma ChunkSplitsNoPair(value: seq<Unit>, offset: nat, end: nat, chunks: seq<seq<Unit>>, units: nat)
    requires offset < end <= |value| && end - offset <= units
    requires end < |value| ==> !IsHigh(value[end - 1]) || !IsLow(value[end])
    requires SplitsNoPair(chunks) && NoneLonger(chunks, units)
    requires chunks != [] ==> NoPairAt(chunks[|chunks| - 1], value[offset..])
    ensures var chunk := value[offset..end];
      && SplitsNoPair(chunks + [chunk]) && NoneLonger(chunks + [chunk], units)
      && (end < |value| ==> NoPairAt(chunk, value[end..]))
  {
    var chunk := value[offset..end];
    assert chunks != [] ==> NoPairAt(chunks[|chunks| - 1], chunk);
  }

  ghost predicate SplitsNoPair(chunks: seq<seq<Unit>>) {
    forall i :: 0 < i < |chunks| ==> NoPairAt(chunks[i - 1], chunks[i])
  }

  ghost function Flatten(chunks: seq<seq<Unit>>): seq<Unit> {
    if chunks == [] then [] else Flatten(chunks[..|chunks| - 1]) + chunks[|chunks| - 1]
  }

  lemma FlattenAppend(chunks: seq<seq<Unit>>, chunk: seq<Unit>)
    ensures Flatten(chunks + [chunk]) == Flatten(chunks) + chunk
  {
    assert (chunks + [chunk])[..|chunks|] == chunks;
  }

  // A chunk that does not end in a high surrogate splits no pair.
  lemma CutAfterChunk(value: seq<Unit>, offset: nat, end: nat)
    requires offset < end <= |value| && (end < |value| ==> !IsHigh(value[end - 1]) || !IsLow(value[end]))
    ensures CleanCut(value[offset..], end - offset)
    ensures value[offset..][..end - offset] == value[offset..end]
    ensures value[offset..][end - offset..] == value[end..]
  {
  }

  lemma EncodeEmpty()
    ensures Encode([]) == [] && WellFormed([])
  {
  }

  // ----- Values of an exact encoded size -----

  // Three Hangul syllables and an emoji: 13 bytes in 5 units.
  const PATTERN: seq<Unit> := [0xAC00, 0xB098, 0xB2E4, 0xD83D, 0xDE00]
  const FILLER: seq<Unit> := [0x78]
  const PATTERN_BYTES: nat := 13
  const CHUNK_REPEATS: nat := 8192

  // String.prototype.repeat.
  function Repeat(s: seq<Unit>, n: nat): seq<Unit> {
    if n == 0 then [] else Repeat(s, n - 1) + s
  }

  function ExactValue(bytes: nat): seq<Unit> {
    Repeat(PATTERN, bytes / PATTERN_BYTES) + Repeat(FILLER, bytes % PATTERN_BYTES)
  }

  // The pattern over and over, as often as it fits, and `x` for what is left.
  lemma ExactValueAt(bytes: nat, i: nat)
    ensures var whole := 5 * (bytes / 13);
      && |ExactValue(bytes)| == whole + bytes % 13
      && (i < whole ==> ExactValue(bytes)[i] == [0xAC00, 0xB098, 0xB2E4, 0xD83D, 0xDE00][i % 5])
      && (whole <= i < whole + bytes % 13 ==> ExactValue(bytes)[i] == 0x78)
  {
    hide Repeat;
    RepeatAt(PATTERN, bytes / 13, i);
    RepeatAt(FILLER, bytes % 13, if i < 5 * (bytes / 13) then 0 else i - 5 * (bytes / 13));
  }

  lemma {:induction false} RepeatAt(s: seq<Unit>, n: nat, i: nat)
    requires |s| == 1 || |s| == 5
    ensures |Repeat(s, n)| == |s| * n && (i < |s| * n ==> Repeat(s, n)[i] == s[i % |s|])
  {
    if n > 0 {
      RepeatAt(s, n - 1, i);
      assert |s| * n == |s| * (n - 1) + |s|;
      if |s| * (n - 1) <= i < |s| * n {
        RemainderIn(i - |s| * (n - 1), |s|, n - 1);
      }
    }
  }

  lemma RemainderIn(r: nat, m: nat, n: nat)
    requires r < m && (m == 1 || m == 5)
    ensures (m * n + r) % m == r
  {
    if m == 5 {
      assert (5 * n + r) % 5 == r;
    }
  }

  // The same value joined from shared chunks.
  method JoinChunks(bytes: nat) returns (value: seq<Unit>)
    ensures value == ExactValue(bytes)
  {
    hide Repeat;
    var repeats := bytes / PATTERN_BYTES;
    RepeatNothing(PATTERN);
    var chunk := Repeat(PATTERN, CHUNK_REPEATS);
    value := [];
    var i := 0;
    while i < repeats / CHUNK_REPEATS
      invariant 0 <= i <= repeats / CHUNK_REPEATS
      invariant value == Repeat(PATTERN, i * CHUNK_REPEATS)
    {
      RepeatConcat(PATTERN, i * CHUNK_REPEATS, CHUNK_REPEATS);
      value := value + chunk;
      i := i + 1;
    }
    RepeatConcat(PATTERN, i * CHUNK_REPEATS, repeats % CHUNK_REPEATS);
    value := value + Repeat(PATTERN, repeats % CHUNK_REPEATS);
    value := value + Repeat(FILLER, bytes % PATTERN_BYTES);
  }

  lemma RepeatNothing(s: seq<Unit>)
    ensures Repeat(s, 0) == []
  {
  }

  lemma {:induction false} RepeatConcat(s: seq<Unit>, m: nat, n: nat)
    ensures Repeat(s, m + n) == Repeat(s, m) + Repeat(s, n)
  {
    if n > 0 {
      RepeatConcat(s, m, n - 1);
    }
  }

  // A string of one point encodes to that point's bytes.
  lemma EncodeOnePoint(s: seq<Unit>)
    requires WellFormed(s) && s != [] && Rest(s) == []
    ensures Encode(s) == Utf8(FirstPoint(s))
  {
    hide FirstPoint, Utf8;
    RepairIsWellFormed(s);
    assert Points(s) == [FirstPoint(s)];
    assert Utf8All([FirstPoint(s)]) == Utf8(FirstPoint(s));
  }

  lemma PatternEncodes()
    ensures WellFormed(PATTERN) && |Encode(PATTERN)| == PATTERN_BYTES
    ensures WellFormed(FILLER) && |Encode(FILLER)| == 1
  {
    hide Encode;
    var a, b, c, d: seq<Unit> := [0xAC00], [0xB098], [0xB2E4], [0xD83D, 0xDE00];
    EncodeOnePoint(a);
    EncodeOnePoint(b);
    EncodeOnePoint(c);
    EncodeOnePoint(d);
    EncodeOnePoint(FILLER);
    WellFormedConcat(a, b);
    WellFormedConcat(a + b, c);
    WellFormedConcat(a + b + c, d);
    EncodeConcat(a, b);
    EncodeConcat(a + b, c);
    EncodeConcat(a + b + c, d);
    assert a + b + c + d == PATTERN;
  }

  // Text repeated encodes to its bytes repeated, when it is well formed.
  lemma {:induction false} RepeatEncodes(s: seq<Unit>, n: nat)
    requires WellFormed(s)
    ensures WellFormed(Repeat(s, n)) && |Encode(Repeat(s, n))| == n * |Encode(s)|
  {
    hide Encode, WellFormed;
    if n == 0 {
      EncodeEmpty();
    } else {
      assert (n - 1) * |Encode(s)| + |Encode(s)| == n * |Encode(s)|;
      RepeatEncodes(s, n - 1);
      WellFormedConcat(Repeat(s, n - 1), s);
      EncodeConcat(Repeat(s, n - 1), s);
    }
  }

  lemma {:induction false} WellFormedConcat(s: seq<Unit>, t: seq<Unit>)
    requires WellFormed(s) && WellFormed(t)
    ensures WellFormed(s + t)
    decreases |s|
  {
    if s == [] {
      assert s + t == t;
    } else {
      RestConcat(s, t);
      WellFormedConcat(Rest(s), t);
      assert (s + t)[0] == s[0];
    }
  }

  lemma EncodeConcat(s: seq<Unit>, t: seq<Unit>)
    requires WellFormed(s) && WellFormed(t)
    ensures Encode(s + t) == Encode(s) + Encode(t)
  {
    WellFormedConcat(s, t);
    RepairIsWellFormed(s);
    RepairIsWellFormed(t);
    RepairIsWellFormed(s + t);
    PointsConcat(s, t);
    Utf8AllConcat(Points(s), Points(t));
  }

  // The value takes exactly the bytes asked for.
  lemma ExactValueIsExact(bytes: nat)
    ensures |Encode(ExactValue(bytes))| == bytes
  {
    PatternEncodes();
    var repeats, rest := bytes / PATTERN_BYTES, bytes % PATTERN_BYTES;
    RepeatEncodes(PATTERN, repeats);
    RepeatEncodes(FILLER, rest);
    EncodeConcat(Repeat(PATTERN, repeats), Repeat(FILLER, rest));
  }
}
