/** UTF-8 on the heap: the bounded writer, the length count and the manual decoder. */
module Utf8Codec {
  import opened Unicode
  import opened Heap
  import opened Wrappers

  // What is left of a string; the index may have run one past the end.
  function From(s: seq<Unit>, i: nat): seq<Unit> {
    if i <= |s| then s[i..] else []
  }

  lemma RestFrom(s: seq<Unit>, i: nat)
    requires i < |s|
    ensures Rest(From(s, i)) == From(s, if IsSurrogate(s[i]) then i + 2 else i + 1)
    ensures FirstPoint(From(s, i)) == if IsSurrogate(s[i]) then Combine(s[i], UnitAt(s, i + 1)) else s[i]
  {
  }

  method LengthBytesUTF8(str: seq<Unit>) returns (len: nat)
    ensures len == |Utf8All(Points(str))|
  {
    len := 0;
    var i := 0;
    while i < |str|
      invariant 0 <= i <= |str| + 1
      invariant len + |Utf8All(Points(From(str, i)))| == |Utf8All(Points(str))|
      decreases |str| - i
    {
      RestFrom(str, i);
      var u: Point := str[i];
      if 55296 <= u <= 57343 {
        i := i + 1;
        u := Combine(u, UnitAt(str, i));
      }
      if u <= 127 {
        len := len + 1;
      } else if u <= 2047 {
        len := len + 2;
      } else if u <= 65535 {
        len := len + 3;
      } else {
        len := len + 4;
      }
      i := i + 1;
    }
  }

  // How many leading points fit in `room` bytes.
  function Fit(ps: seq<Point>, room: int): (k: nat)
    ensures k <= |ps|
  {
    if ps == [] || |Utf8(ps[0])| > room then 0 else 1 + Fit(ps[1..], room - |Utf8(ps[0])|)
  }

  // They are the longest prefix of whole points that fits.
  lemma {:induction false} FitIsLongest(ps: seq<Point>, room: nat, k: nat)
    requires k <= |ps|
    ensures |Utf8All(ps[..k])| <= room <==> k <= Fit(ps, room)
  {
    if k > 0 {
      assert ps[..k][0] == ps[0] && ps[..k][1..] == ps[1..][..k - 1];
      if |Utf8(ps[0])| <= room {
        FitIsLongest(ps[1..], room - |Utf8(ps[0])|, k - 1);
      }
    }
  }

  // A window longer than the whole encoding takes every point.
  lemma FitAll(ps: seq<Point>, room: nat)
    requires |Utf8All(ps)| <= room
    ensures Fit(ps, room) == |ps|
  {
    assert ps[..|ps|] == ps;
    FitIsLongest(ps, room, |ps|);
  }

  lemma Utf8AllNext(ps: seq<Point>, j: nat)
    requires j < |ps|
    ensures Utf8All(ps[..j + 1]) == Utf8All(ps[..j]) + Utf8(ps[j])
  {
    assert ps[..j + 1] == ps[..j] + [ps[j]];
    Utf8AllConcat(ps[..j], [ps[j]]);
    assert Utf8All([ps[j]]) == Utf8(ps[j]);
  }

  // One point's bytes, or nothing if they would reach the end.
  method PutPoint(heap: array<Byte>, outIdx: nat, endIdx: nat, u: Point) returns (fits: bool, next: nat)
    requires endIdx <= heap.Length
    modifies heap
    ensures fits <==> outIdx + |Utf8(u)| <= endIdx
    ensures fits ==> next == outIdx + |Utf8(u)| && heap[..] == Replace(old(heap[..]), outIdx, Utf8(u))
    ensures !fits ==> heap[..] == old(heap[..])
  {
    hide Replace;
    if u <= 127 {
      if outIdx >= endIdx { return false, outIdx; }
      heap[outIdx] := u;
      next := outIdx + 1;
    } else if u <= 2047 {
      if outIdx + 1 >= endIdx { return false, outIdx; }
      heap[outIdx] := 0xC0 + u / 0x40;
      heap[outIdx + 1] := 0x80 + u % 0x40;
      next := outIdx + 2;
    } else if u <= 65535 {
      if outIdx + 2 >= endIdx { return false, outIdx; }
      heap[outIdx] := 0xE0 + u / 0x1000;
      heap[outIdx + 1] := 0x80 + u / 0x40 % 0x40;
      heap[outIdx + 2] := 0x80 + u % 0x40;
      next := outIdx + 3;
    } else {
      if outIdx + 3 >= endIdx { return false, outIdx; }
      heap[outIdx] := 0xF0 + u / 0x4_0000;
      heap[outIdx + 1] := 0x80 + u / 0x1000 % 0x40;
      heap[outIdx + 2] := 0x80 + u / 0x40 % 0x40;
      heap[outIdx + 3] := 0x80 + u % 0x40;
      next := outIdx + 4;
    }
    fits := true;
    IsReplace(old(heap[..]), heap[..], outIdx, Utf8(u));
  }

  // The first `j` points are on the heap, from `start` up to `out`.
  ghost predicate Copied(h0: seq<Byte>, h: seq<Byte>, start: nat, ps: seq<Point>, j: nat, out: nat) {
    && j <= |ps| && out == start + |Utf8All(ps[..j])| && out <= |h0|
    && h == Replace(h0, start, Utf8All(ps[..j]))
  }

  lemma CopiedNone(h0: seq<Byte>, start: nat, ps: seq<Point>, str: seq<Unit>)
    requires start <= |h0| && ps == Points(str)
    ensures Copied(h0, h0, start, ps, 0, start)
    ensures ps[0..] == Points(From(str, 0)) && ps[0..] == ps
  {
  }

  lemma CopiedNext(h0: seq<Byte>, h: seq<Byte>, start: nat, ps: seq<Point>, j: nat, out: nat)
    requires Copied(h0, h, start, ps, j, out) && j < |ps| && out + |Utf8(ps[j])| <= |h|
    ensures Copied(h0, Replace(h, out, Utf8(ps[j])), start, ps, j + 1, out + |Utf8(ps[j])|)
  {
    Utf8AllNext(ps, j);
    ReplaceTwice(h0, start, Utf8All(ps[..j]), Utf8(ps[j]));
  }

  lemma CopiedEnd(h0: seq<Byte>, h: seq<Byte>, start: nat, ps: seq<Point>, j: nat, out: nat)
    requires Copied(h0, h, start, ps, j, out) && out < |h0|
    ensures Replace(h, out, [0]) == Replace(h0, start, Utf8All(ps[..j]) + [0])
    ensures j <= |ps| && out == start + |Utf8All(ps[..j])|
  {
    ReplaceTwice(h0, start, Utf8All(ps[..j]), [0]);
  }

  lemma FitNext(ps: seq<Point>, j: nat, room: int)
    requires j < |ps|
    ensures if |Utf8(ps[j])| <= room then Fit(ps[j..], room) == 1 + Fit(ps[j + 1..], room - |Utf8(ps[j])|)
      else Fit(ps[j..], room) == 0
  {
    assert ps[j..][1..] == ps[j + 1..];
  }

  lemma NoneLeft(str: seq<Unit>, i: nat, room: int)
    requires i >= |str|
    ensures Fit(Points(From(str, i)), room) == 0
  {
  }

  lemma NextPoint(str: seq<Unit>, i: nat, ps: seq<Point>, j: nat)
    requires i < |str| && j <= |ps| && ps[j..] == Points(From(str, i))
    ensures j < |ps|
    ensures ps[j] == if IsSurrogate(str[i]) then Combine(str[i], UnitAt(str, i + 1)) else str[i]
    ensures ps[j + 1..] == Points(From(str, if IsSurrogate(str[i]) then i + 2 else i + 1))
  {
    RestFrom(str, i);
    assert ps[j] == ps[j..][0] && ps[j + 1..] == ps[j..][1..];
  }

  // The writing loop: whole points, while they end by `endIdx`.
  method CopyPoints(str: seq<Unit>, heap: array<Byte>, start: nat, endIdx: nat)
    returns (outIdx: nat, ghost j: nat)
    requires start <= endIdx <= heap.Length
    modifies heap
    ensures j == Fit(Points(str), endIdx - start) && outIdx <= endIdx
    ensures Copied(old(heap[..]), heap[..], start, Points(str), j, outIdx)
  {
    hide Replace, Points, Fit, Utf8, Utf8All, Combine, Copied, From;
    ghost var h0 := heap[..];
    ghost var ps := Points(str);
    outIdx := start;
    j := 0;
    var i := 0;
    CopiedNone(h0, start, ps, str);
    while i < |str|
      invariant 0 <= i <= |str| + 1
      invariant 0 <= j <= |ps| && ps[j..] == Points(From(str, i))
      invariant Copied(h0, heap[..], start, ps, j, outIdx) && outIdx <= endIdx
      invariant Fit(ps, endIdx - start) == j + Fit(ps[j..], endIdx - outIdx)
      decreases |str| - i
    {
      NextPoint(str, i, ps, j);
      FitNext(ps, j, endIdx - outIdx);
      ghost var before := heap[..];
      var u: Point := str[i];
      if 55296 <= u <= 57343 {
        i := i + 1;
        u := Combine(u, UnitAt(str, i));
      }
      var fits, next := PutPoint(heap, outIdx, endIdx, u);
      if !fits { return; }
      CopiedNext(h0, before, start, ps, j, outIdx);
      outIdx := next;
      i := i + 1;
      j := j + 1;
    }
    NoneLeft(str, i, endIdx - outIdx);
  }

  // Writes the longest run of whole points that leaves room for a final zero.
  method StringToUTF8Array(str: seq<Unit>, heap: array<Byte>, start: nat, maxBytesToWrite: int) returns (written: nat)
    requires maxBytesToWrite > 0 ==> start + maxBytesToWrite <= heap.Length
    modifies heap
    ensures maxBytesToWrite <= 0 ==> written == 0 && heap[..] == old(heap[..])
    ensures maxBytesToWrite > 0 ==>
      var bytes := Utf8All(Points(str)[..Fit(Points(str), maxBytesToWrite - 1)]);
      && written == |bytes| && written < maxBytesToWrite
      && heap[..] == Replace(old(heap[..]), start, bytes + [0])
  {
    hide Replace, Points, Fit, Utf8All, Copied;
    if !(maxBytesToWrite > 0) {
      return 0;
    }
    ghost var h0 := heap[..];
    ghost var j;
    var outIdx;
    outIdx, j := CopyPoints(str, heap, start, start + maxBytesToWrite - 1);
    CopiedEnd(h0, heap[..], start, Points(str), j, outIdx);
    Store8(heap, outIdx, 0);
    written := outIdx - start;
  }

  // ----- The manual decoder -----

  // A character's units and width from its four bytes, whatever they are.
  function DecodeBytes(u0: Byte, b1: Byte, b2: Byte, b3: Byte): (r: (seq<Unit>, nat))
    ensures 1 <= r.1 <= 4
  {
    if u0 < 0x80 then (UnitsOf(u0), 1)
    else if u0 / 0x20 == 6 then (UnitsOf(u0 % 0x20 * 0x40 + b1 % 0x40), 2)
    else if u0 / 0x10 == 14 then (UnitsOf(u0 % 0x10 * 0x1000 + b1 % 0x40 * 0x40 + b2 % 0x40), 3)
    else (UnitsOf(u0 % 8 * 0x4_0000 + b1 % 0x40 * 0x1000 + b2 % 0x40 * 0x40 + b3 % 0x40), 4)
  }

  // One character read at `idx`: its units and the next index.
  function DecodeOne(h: seq<Byte>, idx: nat): (r: (seq<Unit>, nat))
    ensures idx < r.1 <= idx + 4
  {
    var d := DecodeBytes(ByteAt(h, idx), ByteAt(h, idx + 1), ByteAt(h, idx + 2), ByteAt(h, idx + 3));
    (d.0, idx + d.1)
  }

  function Decode(h: seq<Byte>, idx: nat, end: nat): seq<Unit>
    decreases end - idx
  {
    if idx >= end then [] else DecodeOne(h, idx).0 + Decode(h, DecodeOne(h, idx).1, end)
  }

  // Where reading from `start` ends at the latest: without a limit, at the end of the heap.
  function Limit(length: nat, start: nat, maxBytesToRead: Option<nat>): (end: nat)
    ensures start <= end
  {
    if maxBytesToRead.Some? then start + maxBytesToRead.value else if start < length then length else start
  }

  // Where the text at `p` ends: at a zero, at `end` or at the end of the heap.
  function EndOfText(h: seq<Byte>, p: nat, end: nat): (q: nat)
    requires p <= end
    ensures p <= q <= end
    decreases end - p
  {
    if p < |h| && h[p] != 0 && p < end then EndOfText(h, p + 1, end) else p
  }

  method UTF8ArrayToString(heap: array<Byte>, start: nat, maxBytesToRead: Option<nat>) returns (str: seq<Unit>)
    ensures str == Decode(heap[..], start, EndOfText(heap[..], start, Limit(heap.Length, start, maxBytesToRead)))
  {
    hide DecodeOne;
    ghost var h := heap[..];
    ghost var endIdx := Limit(heap.Length, start, maxBytesToRead);
    var endPtr := start;
    while endPtr < heap.Length && heap[endPtr] != 0
        && !(maxBytesToRead.Some? && endPtr >= start + maxBytesToRead.value)
      invariant start <= endPtr <= endIdx
      invariant EndOfText(h, start, endIdx) == EndOfText(h, endPtr, endIdx)
      decreases endIdx - endPtr
    {
      endPtr := endPtr + 1;
    }
    str := [];
    var idx := start;
    while idx < endPtr
      invariant str + Decode(h, idx, endPtr) == Decode(h, start, endPtr)
      decreases endPtr - idx
    {
      var units, next := ReadCharacter(heap, idx);
      str := str + units;
      idx := next;
    }
  }

  // One turn of the decoding loop.
  method ReadCharacter(heap: array<Byte>, at: nat) returns (units: seq<Unit>, idx: nat)
    ensures (units, idx) == DecodeOne(heap[..], at)
  {
    hide UnitsOf;
    idx := at;
    var u0: int := Read(heap, idx);
    idx := idx + 1;
    if u0 < 128 {
      units := UnitsOf(u0);
      return;
    }
    var u1 := Read(heap, idx) % 64;
    idx := idx + 1;
    if u0 / 32 == 6 {
      units := UnitsOf(u0 % 32 * 64 + u1);
      return;
    }
    var u2 := Read(heap, idx) % 64;
    idx := idx + 1;
    if u0 / 16 == 14 {
      u0 := u0 % 16 * 4096 + u1 * 64 + u2;
    } else {
      var u3 := Read(heap, idx) % 64;
      u0 := u0 % 8 * 262144 + u1 * 4096 + u2 * 64 + u3;
      idx := idx + 1;
    }
    units := UnitsOf(u0);
  }

  function Read(heap: array<Byte>, i: nat): (b: Byte)
    reads heap
    ensures b == ByteAt(heap[..], i)
  {
    if i < heap.Length then heap[i] else 0
  }

  // ----- Decoding inverts encoding -----

  lemma DecodeOnePoint(h: seq<Byte>, idx: nat, p: Point)
    requires idx + |Utf8(p)| <= |h| && h[idx..idx + |Utf8(p)|] == Utf8(p)
    ensures DecodeOne(h, idx) == (UnitsOf(p), idx + |Utf8(p)|)
  {
    hide UnitsOf, DecodeBytes, Utf8;
    var b := h[idx..idx + |Utf8(p)|];
    assert forall i :: 0 <= i < |b| ==> ByteAt(h, idx + i) == b[i];
    assert ByteAt(h, idx) == b[0];
    DecodePoint(p, ByteAt(h, idx + 1), ByteAt(h, idx + 2), ByteAt(h, idx + 3));
  }

  lemma DecodePoint(p: Point, b1: Byte, b2: Byte, b3: Byte)
    requires var b := Utf8(p);
      && (|b| > 1 ==> b1 == b[1]) && (|b| > 2 ==> b2 == b[2]) && (|b| > 3 ==> b3 == b[3])
    ensures DecodeBytes(Utf8(p)[0], b1, b2, b3) == (UnitsOf(p), |Utf8(p)|)
  {
    hide UnitsOf;
    PointFromSextets(p);
    if p <= 0x7F {
    } else if p <= 0x7FF {
      Tagged(0xC0, p / 0x40, 0x20);
      Tagged(0x80, p % 0x40, 0x40);
    } else if p <= 0xFFFF {
      DecodePoint3(p);
    } else {
      DecodePoint4(p);
    }
  }

  lemma DecodePoint3(p: Point)
    requires 0x800 <= p <= 0xFFFF
    ensures var b := Utf8(p);
      b[0] / 0x10 == 14 && b[0] % 0x10 == p / 0x1000 && b[1] % 0x40 == p / 0x40 % 0x40 && b[2] % 0x40 == p % 0x40
  {
    Tagged(0xE0, p / 0x1000, 0x10);
    Tagged(0x80, p / 0x40 % 0x40, 0x40);
    Tagged(0x80, p % 0x40, 0x40);
  }

  lemma DecodePoint4(p: Point)
    requires 0x1_0000 <= p
    ensures var b := Utf8(p);
      && b[0] / 0x10 == 15 && b[0] % 8 == p / 0x4_0000
      && b[1] % 0x40 == p / 0x1000 % 0x40 && b[2] % 0x40 == p / 0x40 % 0x40 && b[3] % 0x40 == p % 0x40
  {
    Tagged(0xF0, p / 0x4_0000, 8);
    Tagged(0x80, p / 0x1000 % 0x40, 0x40);
    Tagged(0x80, p / 0x40 % 0x40, 0x40);
    Tagged(0x80, p % 0x40, 0x40);
  }

  // A tag in the high bits leaves the low ones as they are.
  lemma Tagged(tag: int, low: int, n: int)
    requires n in {8, 0x10, 0x20, 0x40} && 0 <= low < n && tag % n == 0
    ensures (tag + low) % n == low && (tag + low) / n == tag / n
  {
  }

  lemma PointFromSextets(p: Point)
    ensures p <= 0x7FF ==> p == p / 0x40 * 0x40 + p % 0x40
    ensures p == p / 0x1000 * 0x1000 + p / 0x40 % 0x40 * 0x40 + p % 0x40
    ensures p == p / 0x4_0000 * 0x4_0000 + p / 0x1000 % 0x40 * 0x1000 + p / 0x40 % 0x40 * 0x40 + p % 0x40
  {
    assert p / 0x40 / 0x40 == p / 0x1000;
    assert p / 0x1000 / 0x40 == p / 0x4_0000;
  }

  lemma {:induction false} DecodeUtf8(h: seq<Byte>, idx: nat, ps: seq<Point>)
    requires idx + |Utf8All(ps)| <= |h| && h[idx..idx + |Utf8All(ps)|] == Utf8All(ps)
    ensures Decode(h, idx, idx + |Utf8All(ps)|) == UnitsAll(ps)
    decreases |ps|
  {
    hide Utf8, DecodeOne, UnitsOf;
    if ps != [] {
      var n := |Utf8(ps[0])|;
      SplitUtf8(h, idx, ps);
      DecodeOnePoint(h, idx, ps[0]);
      DecodeUtf8(h, idx + n, ps[1..]);
    }
  }

  // The bytes of the first point, then those of the others.
  lemma SplitUtf8(h: seq<Byte>, idx: nat, ps: seq<Point>)
    requires ps != [] && idx + |Utf8All(ps)| <= |h| && h[idx..idx + |Utf8All(ps)|] == Utf8All(ps)
    ensures var n := |Utf8(ps[0])|;
      && |Utf8All(ps)| == n + |Utf8All(ps[1..])|
      && h[idx..idx + n] == Utf8(ps[0])
      && h[idx + n..idx + n + |Utf8All(ps[1..])|] == Utf8All(ps[1..])
  {
    hide Utf8, Utf8All;
    Utf8Unfolds(ps);
    SliceOfConcat(h, idx, Utf8(ps[0]), Utf8All(ps[1..]));
  }

  lemma Utf8Unfolds(ps: seq<Point>)
    requires ps != []
    ensures Utf8All(ps) == Utf8(ps[0]) + Utf8All(ps[1..])
  {
    hide Utf8;
  }

  lemma SliceOfConcat(h: seq<Byte>, idx: nat, xs: seq<Byte>, ys: seq<Byte>)
    requires idx + |xs + ys| <= |h| && h[idx..idx + |xs + ys|] == xs + ys
    ensures h[idx..idx + |xs|] == xs
    ensures h[idx + |xs|..idx + |xs| + |ys|] == ys
  {
    var all := h[idx..idx + |xs + ys|];
    assert h[idx..idx + |xs|] == all[..|xs|];
    assert h[idx + |xs|..idx + |xs| + |ys|] == all[|xs|..];
  }

  // ----- The bytes are UTF-8 (section 3 of RFC 3629) -----

  predicate IsTail(b: Byte) {
    0x80 <= b <= 0xBF
  }

  predicate IsScalar(v: int) {
    0 <= v <= 0x10_FFFF && !(0xD800 <= v <= 0xDFFF)
  }

  // What a byte holds beside its tag.
  function Bits(b: int, tag: int): int {
    b - tag
  }

  // A strict reader's first code point and its width: it takes the shortest form
  // of a scalar value and nothing else.
  function StrictFirst(b: seq<Byte>): Option<(Point, nat)>
    requires b != []
  {
    if b[0] <= 0x7F then Some((b[0], 1))
    else if 0xC2 <= b[0] <= 0xDF && |b| >= 2 && IsTail(b[1]) then
      Some((Bits(b[0], 0xC0) * 0x40 + Bits(b[1], 0x80), 2))
    else if 0xE0 <= b[0] <= 0xEF && |b| >= 3 && IsTail(b[1]) && IsTail(b[2]) then
      var v := Bits(b[0], 0xE0) * 0x1000 + Bits(b[1], 0x80) * 0x40 + Bits(b[2], 0x80);
      if v >= 0x800 && IsScalar(v) then Some((v, 3)) else None
    else if 0xF0 <= b[0] <= 0xF4 && |b| >= 4 && IsTail(b[1]) && IsTail(b[2]) && IsTail(b[3]) then
      var v := Bits(b[0], 0xF0) * 0x4_0000 + Bits(b[1], 0x80) * 0x1000 + Bits(b[2], 0x80) * 0x40 + Bits(b[3], 0x80);
      if v >= 0x1_0000 && IsScalar(v) then Some((v, 4)) else None
    else None
  }

  function StrictDecode(b: seq<Byte>): Option<seq<Point>>
    decreases |b|
  {
    if b == [] then Some([])
    else
      var first := StrictFirst(b);
      if first.None? || first.value.1 == 0 || first.value.1 > |b| then None
      else
        var rest := StrictDecode(b[first.value.1..]);
        if rest.None? then None else Some([first.value.0] + rest.value)
  }

  // The bytes of a code point: how many, the lead's range, and the tails'.
  lemma Utf8Syntax(p: Point)
    ensures var b := Utf8(p);
      && |b| == (if p < 0x80 then 1 else if p < 0x800 then 2 else if p < 0x1_0000 then 3 else 4)
      && (|b| == 1 ==> b[0] <= 0x7F)
      && (|b| == 2 ==> 0xC2 <= b[0] <= 0xDF)
      && (|b| == 3 ==> 0xE0 <= b[0] <= 0xEF)
      && (|b| == 4 ==> 0xF0 <= b[0] <= 0xF4)
      && forall i :: 1 <= i < |b| ==> 0x80 <= b[i] <= 0xBF
  {
  }

  // ... and its bits, six in each tail.
  lemma Utf8Bits(p: Point)
    ensures var b := Utf8(p);
      && (|b| == 1 ==> p == b[0])
      && (|b| == 2 ==> p == Bits(b[0], 0xC0) * 0x40 + Bits(b[1], 0x80))
      && (|b| == 3 ==> p == Bits(b[0], 0xE0) * 0x1000 + Bits(b[1], 0x80) * 0x40 + Bits(b[2], 0x80))
      && (|b| == 4 ==>
            p == Bits(b[0], 0xF0) * 0x4_0000 + Bits(b[1], 0x80) * 0x1000 + Bits(b[2], 0x80) * 0x40 + Bits(b[3], 0x80))
  {
    PointFromSextets(p);
  }

  // A strict reader takes the bytes written for scalar values, as exactly those
  // values, and no other bytes.
  lemma StrictFirstReads(p: Point, rest: seq<Byte>)
    requires IsScalar(p)
    ensures StrictFirst(Utf8(p) + rest) == Some((p, |Utf8(p)|))
  {
    hide Utf8;
    Utf8Syntax(p);
    Utf8Bits(p);
    var b := Utf8(p);
    assert forall i :: 0 <= i < |b| ==> (b + rest)[i] == b[i];
  }

  lemma StrictFirstIsUtf8(b: seq<Byte>)
    requires b != [] && StrictFirst(b).Some?
    ensures var (p, n) := StrictFirst(b).value;
      IsScalar(p) && 1 <= n <= |b| && b[..n] == Utf8(p)
  {
    if b[0] > 0x7F {
      if b[0] <= 0xDF {
        Sextets2(Bits(b[0], 0xC0), Bits(b[1], 0x80));
      } else if b[0] <= 0xEF {
        Sextets3(Bits(b[0], 0xE0), Bits(b[1], 0x80), Bits(b[2], 0x80));
      } else {
        Sextets4(Bits(b[0], 0xF0), Bits(b[1], 0x80), Bits(b[2], 0x80), Bits(b[3], 0x80));
      }
    }
  }

  lemma Sextets2(a: int, b: int)
    requires 0 <= a && 0 <= b < 0x40
    ensures (a * 0x40 + b) / 0x40 == a && (a * 0x40 + b) % 0x40 == b
  {
  }

  lemma Sextets3(a: int, b: int, c: int)
    requires 0 <= a && 0 <= b < 0x40 && 0 <= c < 0x40
    ensures var v := a * 0x1000 + b * 0x40 + c;
      v / 0x1000 == a && v / 0x40 % 0x40 == b && v % 0x40 == c
  {
    var v := a * 0x1000 + b * 0x40 + c;
    Sextets2(a * 0x40 + b, c);
    Sextets2(a, b);
    assert v / 0x40 == a * 0x40 + b && v / 0x1000 == v / 0x40 / 0x40;
  }

  lemma Sextets4(a: int, b: int, c: int, d: int)
    requires 0 <= a && 0 <= b < 0x40 && 0 <= c < 0x40 && 0 <= d < 0x40
    ensures var v := a * 0x4_0000 + b * 0x1000 + c * 0x40 + d;
      v / 0x4_0000 == a && v / 0x1000 % 0x40 == b && v / 0x40 % 0x40 == c && v % 0x40 == d
  {
    var v := a * 0x4_0000 + b * 0x1000 + c * 0x40 + d;
    Sextets3(a * 0x40 + b, c, d);
    Sextets2(a, b);
    assert v / 0x1000 == a * 0x40 + b && v / 0x4_0000 == v / 0x1000 / 0x40;
  }

  lemma {:induction false} StrictReadsBack(ps: seq<Point>)
    requires forall p <- ps :: IsScalar(p)
    ensures StrictDecode(Utf8All(ps)) == Some(ps)
  {
    hide Utf8, StrictFirst;
    if ps != [] {
      var b, rest := Utf8(ps[0]), Utf8All(ps[1..]);
      StrictFirstReads(ps[0], rest);
      StrictReadsBack(ps[1..]);
      assert (b + rest)[|b|..] == rest;
      assert ps == [ps[0]] + ps[1..];
    }
  }

  lemma {:induction false} StrictReadsOnlyUtf8(b: seq<Byte>, ps: seq<Point>)
    requires StrictDecode(b) == Some(ps)
    ensures b == Utf8All(ps) && forall p <- ps :: IsScalar(p)
    decreases |b|
  {
    hide Utf8, StrictFirst;
    if b != [] {
      var (p, n) := StrictFirst(b).value;
      StrictFirstIsUtf8(b);
      StrictReadsOnlyUtf8(b[n..], ps[1..]);
      assert b == b[..n] + b[n..] && ps == [p] + ps[1..];
    }
  }

  // Whatever the string, what is written for it is UTF-8, and only its own.
  lemma WrittenIsUtf8(s: seq<Unit>, k: nat)
    requires k <= |Points(s)|
    ensures StrictDecode(Utf8All(Points(s)[..k])) == Some(Points(s)[..k])
    ensures forall b :: StrictDecode(b) == Some(Points(s)) ==> b == Utf8All(Points(s))
  {
    PointsAreScalar(s);
    forall p | p in Points(s)[..k]
      ensures IsScalar(p)
    {
      assert p in Points(s);
    }
    StrictReadsBack(Points(s)[..k]);
    forall b | StrictDecode(b) == Some(Points(s))
      ensures b == Utf8All(Points(s))
    {
      StrictReadsOnlyUtf8(b, Points(s));
    }
  }

  // ----- Where reading ends, and what malformed bytes give -----

  // At the first zero, at the limit or at the end of the heap, whichever comes first.
  lemma {:induction false} EndOfTextIsFirst(h: seq<Byte>, p: nat, end: nat)
    requires p <= end
    ensures var q := EndOfText(h, p, end);
      && p <= q <= end && (q == p || q <= |h|) && (forall i :: p <= i < q ==> h[i] != 0)
      && (q == end || q >= |h| || h[q] == 0)
    decreases end - p
  {
    if p < |h| && h[p] != 0 && p < end {
      EndOfTextIsFirst(h, p + 1, end);
    }
  }

  // The lead byte decides the width, also of what is not UTF-8, and six bits are
  // taken of each byte after it.
  lemma DecodesByLead(u0: Byte, b1: Byte, b2: Byte, b3: Byte)
    ensures var (units, n) := DecodeBytes(u0, b1, b2, b3);
      && n == (if u0 <= 0x7F then 1 else if 0xC0 <= u0 <= 0xDF then 2 else if 0xE0 <= u0 <= 0xEF then 3 else 4)
      && (n == 1 ==> units == [u0])
      && (n == 2 ==> units == UnitsOf((u0 - 0xC0) * 0x40 + b1 % 0x40))
      && (n == 3 ==> units == UnitsOf((u0 - 0xE0) * 0x1000 + b1 % 0x40 * 0x40 + b2 % 0x40))
      && (n == 4 ==> units == UnitsOf(u0 % 8 * 0x4_0000 + b1 % 0x40 * 0x1000 + b2 % 0x40 * 0x40 + b3 % 0x40))
  {
    hide OrHigh;
  }
}
