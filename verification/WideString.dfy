/**
 UTF-16 and UTF-32 on the heap, and the wire type of std::wstring built on
 them: a count of characters, then characters of two or four bytes.
 */
module WideString {
  import opened Unicode
  import opened Heap
  import opened Utf8Codec

  // The bytes of one character.
  type CharSize = n: int | n == 2 || n == 4 witness 2

  function WordBytes(size: CharSize, v: int): (bytes: seq<Byte>)
    ensures |bytes| == size
  {
    if size == 2 then Bytes16(v) else Bytes32(v)
  }

  function WordsBytes(size: CharSize, vs: seq<int>): (bytes: seq<Byte>)
    ensures |bytes| == size * |vs|
  {
    if vs == [] then [] else WordsBytes(size, vs[..|vs| - 1]) + WordBytes(size, vs[|vs| - 1])
  }

  // The character at `at` through the signed views; a 16-bit one is cut back to
  // a unit by String.fromCharCode, so it is taken unsigned here.
  function WordAt(h: seq<Byte>, size: CharSize, at: nat): int
    requires at + size <= |h|
  {
    if size == 2 then Load16(h, at) else Signed32(Load32(h, at))
  }

  // ----- Writing -----

  method StoreWord(heap: array<Byte>, size: CharSize, at: nat, v: int)
    requires at + size <= heap.Length
    modifies heap
    ensures heap[..] == Replace(old(heap[..]), at, WordBytes(size, v))
  {
    if size == 2 {
      Store16(heap, at, v);
    } else {
      Store32(heap, at, v);
    }
  }

  // Characters `vs` stand on the heap from `start` up to `out`.
  ghost predicate Laid(h0: seq<Byte>, h: seq<Byte>, size: CharSize, start: nat, vs: seq<int>, out: nat) {
    out == start + size * |vs| && out <= |h0| && h == Replace(h0, start, WordsBytes(size, vs))
  }

  lemma LaidNext(h0: seq<Byte>, h: seq<Byte>, size: CharSize, start: nat, vs: seq<int>, out: nat, v: int)
    requires Laid(h0, h, size, start, vs, out) && out + size <= |h0|
    ensures Laid(h0, Replace(h, out, WordBytes(size, v)), size, start, vs + [v], out + size)
  {
    hide WordBytes;
    assert (vs + [v])[..|vs|] == vs;
    ReplaceTwice(h0, start, WordsBytes(size, vs), WordBytes(size, v));
  }

  lemma LaidNone(h0: seq<Byte>, size: CharSize, start: nat)
    requires start <= |h0|
    ensures Laid(h0, h0, size, start, [], start)
  {
  }

  // How many units stringToUTF16 writes into a window of `max` bytes.
  function Count16(max: nat, n: nat): (k: nat)
    requires max >= 2
    ensures k <= n
  {
    if max - 2 < 2 * n then (max - 1) / 2 else n
  }

  // The units and the final zero stay in the window unless it is odd and too
  // small, where the half unit left over is rounded up.
  lemma Count16InWindow(max: nat, n: nat)
    requires max >= 2
    ensures 2 * (Count16(max, n) + 1) <= max <==> max % 2 == 0 || max >= 2 * n + 2
  {
  }

  // A unit is written while there is one and the room before the zero is not
  // used up, be it half a unit.
  lemma Count16Fills(max: nat, n: nat, i: nat)
    requires max >= 2
    ensures i < Count16(max, n) <==> i < n && 2 * i < max - 2
  {
  }

  method StringToUTF16(str: seq<Unit>, heap: array<Byte>, start: nat, maxBytesToWrite: nat) returns (written: nat)
    requires maxBytesToWrite >= 2 ==> start + 2 * (Count16(maxBytesToWrite, |str|) + 1) <= heap.Length
    modifies heap
    ensures maxBytesToWrite < 2 ==> written == 0 && heap[..] == old(heap[..])
    ensures maxBytesToWrite >= 2 ==>
      var k := Count16(maxBytesToWrite, |str|);
      && written == 2 * k
      && Laid(old(heap[..]), heap[..], 2, start, str[..k] + [0], start + written + 2)
  {
    hide Laid;
    if maxBytesToWrite < 2 {
      return 0;
    }
    ghost var h0 := heap[..];
    var room := maxBytesToWrite - 2;
    var outPtr := start;
    var i := 0;
    LaidNone(h0, 2, start);
    // i counts up to room / 2, which is not rounded
    while if room < 2 * |str| then 2 * i < room else i < |str|
      invariant 0 <= i <= Count16(maxBytesToWrite, |str|)
      invariant outPtr == start + 2 * i && Laid(h0, heap[..], 2, start, str[..i], outPtr)
      decreases |str| - i
    {
      LaidNext(h0, heap[..], 2, start, str[..i], outPtr, str[i]);
      assert str[..i + 1] == str[..i] + [str[i]];
      StoreWord(heap, 2, outPtr, str[i]);
      outPtr := outPtr + 2;
      i := i + 1;
    }
    LaidNext(h0, heap[..], 2, start, str[..i], outPtr, 0);
    StoreWord(heap, 2, outPtr, 0);
    written := outPtr - start;
  }

  // How many points stringToUTF32 writes into a window of `max` bytes: it tests
  // the room only after writing one.
  function Count32(max: nat, n: nat): (k: nat)
    requires max >= 4
    ensures k <= n
  {
    if n == 0 then 0 else if max < 12 then 1 else if max / 4 - 1 < n then max / 4 - 1 else n
  }

  // The points and the final zero stay in the window unless it has room for the
  // zero alone and there is something to write.
  lemma Count32InWindow(max: nat, n: nat)
    requires max >= 4
    ensures 4 * (Count32(max, n) + 1) <= max <==> n == 0 || max >= 8
  {
  }

  // The first point is written in any case, another while it and the zero fit.
  lemma Count32Fills(max: nat, n: nat, i: nat)
    requires max >= 4
    ensures i < Count32(max, n) <==> i < n && (i == 0 || 4 * i + 8 <= max)
  {
  }

  method StringToUTF32(str: seq<Unit>, heap: array<Byte>, start: nat, maxBytesToWrite: nat) returns (written: nat)
    requires maxBytesToWrite >= 4 ==> start + 4 * (Count32(maxBytesToWrite, |Points(str)|) + 1) <= heap.Length
    modifies heap
    ensures maxBytesToWrite < 4 ==> written == 0 && heap[..] == old(heap[..])
    ensures maxBytesToWrite >= 4 ==>
      var k := Count32(maxBytesToWrite, |Points(str)|);
      && written == 4 * k
      && Laid(old(heap[..]), heap[..], 4, start, Points(str)[..k] + [0], start + written + 4)
  {
    hide Laid, Points;
    if maxBytesToWrite < 4 {
      return 0;
    }
    ghost var h0 := heap[..];
    var outPtr := LayPoints(str, heap, start, maxBytesToWrite);
    LaidNext(h0, heap[..], 4, start, Points(str)[..Count32(maxBytesToWrite, |Points(str)|)], outPtr, 0);
    StoreWord(heap, 4, outPtr, 0);
    written := outPtr - start;
  }

  // The writing loop, which tests for room at the end of a turn.
  method LayPoints(str: seq<Unit>, heap: array<Byte>, start: nat, maxBytesToWrite: nat) returns (outPtr: nat)
    requires maxBytesToWrite >= 4 && start + 4 * (Count32(maxBytesToWrite, |Points(str)|) + 1) <= heap.Length
    modifies heap
    ensures var k := Count32(maxBytesToWrite, |Points(str)|);
      && outPtr == start + 4 * k
      && Laid(old(heap[..]), heap[..], 4, start, Points(str)[..k], outPtr)
  {
    hide Laid, Points, From, Combine, WordBytes;
    ghost var h0 := heap[..];
    ghost var ps := Points(str);
    ghost var j := 0;
    outPtr := start;
    var endPtr := start + maxBytesToWrite - 4;
    var i := 0;
    LaidNone(h0, 4, start);
    AllToRead(str);
    while i < |str|
      invariant 0 <= i <= |str| + 1
      invariant 0 <= j <= |ps| && ps[j..] == Points(From(str, i))
      invariant outPtr == start + 4 * j && (j == 0 || outPtr + 4 <= endPtr)
      invariant Laid(h0, heap[..], 4, start, ps[..j], outPtr)
      decreases |str| - i
    {
      NextPoint(str, i, ps, j);
      LaidNext(h0, heap[..], 4, start, ps[..j], outPtr, ps[j]);
      assert ps[..j + 1] == ps[..j] + [ps[j]];
      var codeUnit: Point := str[i];
      if 55296 <= codeUnit <= 57343 {
        i := i + 1;
        codeUnit := Combine(codeUnit, UnitAt(str, i));
      }
      StoreWord(heap, 4, outPtr, codeUnit);
      outPtr := outPtr + 4;
      j := j + 1;
      if outPtr + 4 > endPtr {
        assert j == Count32(maxBytesToWrite, |ps|);
        return;
      }
      i := i + 1;
    }
    NothingToRead(str, i);
    assert j == |ps| == Count32(maxBytesToWrite, |ps|);
  }

  lemma AllToRead(str: seq<Unit>)
    ensures Points(str)[0..] == Points(From(str, 0))
  {
  }

  lemma NothingToRead(str: seq<Unit>, i: nat)
    requires i >= |str|
    ensures Points(From(str, i)) == []
  {
  }

  // ----- Reading -----

  // `n` characters from `at`, up to the first zero.
  function ReadWords(h: seq<Byte>, size: CharSize, at: nat, n: nat): seq<Unit>
    requires at + size * n <= |h|
    decreases n
  {
    if n == 0 || WordAt(h, size, at) == 0 then []
    else UnitsOf(WordAt(h, size, at)) + ReadWords(h, size, at + size, n - 1)
  }

  method LoadWord(heap: array<Byte>, size: CharSize, at: nat) returns (v: int)
    requires at + size <= heap.Length
    ensures v == WordAt(heap[..], size, at)
  {
    var b0: int, b1: int := heap[at], heap[at + 1];
    v := b0 + 0x100 * b1;
    if size == 4 {
      var b2: int, b3: int := heap[at + 2], heap[at + 3];
      v := Signed32(v + 0x1_0000 * b2 + 0x100_0000 * b3);
    }
  }

  // A word that the signed view reads as negative is cut to one unit.
  lemma NegativeIsOneUnit(h: seq<Byte>, at: nat)
    requires at + 4 <= |h| && Load32(h, at) >= 0x8000_0000
    ensures UnitsOf(WordAt(h, 4, at)) == [Load32(h, at) % 0x1_0000]
  {
    hide Load32;
  }

  // What is still to be read after `i` characters.
  ghost function ReadFrom(h: seq<Byte>, size: CharSize, ptr: nat, n: nat, i: nat): seq<Unit>
    requires i <= n && ptr + size * n <= |h|
  {
    assert size * i + size * (n - i) == size * n;
    ReadWords(h, size, ptr + size * i, n - i)
  }

  lemma ReadNext(h: seq<Byte>, size: CharSize, ptr: nat, n: nat, i: nat)
    requires i < n && ptr + size * n <= |h|
    ensures ptr + size * i + size <= |h|
    ensures var code := WordAt(h, size, ptr + size * i);
      ReadFrom(h, size, ptr, n, i) == if code == 0 then [] else UnitsOf(code) + ReadFrom(h, size, ptr, n, i + 1)
  {
    hide WordAt, UnitsOf;
    assert size * i + size * (n - i) == size * n;
    assert ptr + size * (i + 1) == ptr + size * i + size;
  }

  // UTF16ToString and UTF32ToString, on a whole number of characters.
  method DecodeString(heap: array<Byte>, size: CharSize, ptr: nat, maxBytesToRead: nat) returns (str: seq<Unit>)
    requires maxBytesToRead % size == 0 && ptr + maxBytesToRead <= heap.Length
    ensures str == ReadWords(heap[..], size, ptr, maxBytesToRead / size)
  {
    hide WordAt, UnitsOf, ReadFrom, ReadWords;
    ghost var h := heap[..];
    ghost var n := maxBytesToRead / size;
    str := [];
    var i := 0;
    ReadFromStart(h, size, ptr, n);
    while !(size * i >= maxBytesToRead)
      invariant 0 <= i <= n
      invariant ReadFrom(h, size, ptr, n, 0) == str + ReadFrom(h, size, ptr, n, i)
      decreases n - i
    {
      InWords(size, maxBytesToRead, i);
      ReadNext(h, size, ptr, n, i);
      var code := LoadWord(heap, size, ptr + size * i);
      if code == 0 {
        return;
      }
      i := i + 1;
      str := str + UnitsOf(code);
    }
    InWords(size, maxBytesToRead, i);
  }

  lemma ReadFromStart(h: seq<Byte>, size: CharSize, ptr: nat, n: nat)
    requires ptr + size * n <= |h|
    ensures ReadFrom(h, size, ptr, n, 0) == ReadWords(h, size, ptr, n)
    ensures ReadFrom(h, size, ptr, n, n) == []
  {
    assert ptr + size * 0 == ptr;
  }

  // Bytes compared are words compared.
  lemma InWords(size: CharSize, bytes: nat, i: nat)
    requires bytes % size == 0
    ensures size * i < bytes <==> i < bytes / size
    ensures size * (i + 1) <= bytes <==> i < bytes / size
  {
    assert bytes == size * (bytes / size);
  }

  // The characters from the segment start `seg`, scanned up to `cur`, to the
  // last one: each zero closes a segment and stands for itself.
  function SplitWords(h: seq<Byte>, size: CharSize, seg: nat, cur: nat, n: nat): seq<Unit>
    requires seg <= cur && (cur - seg) % size == 0 && cur + size * n <= |h|
    decreases n
  {
    if n == 0 then ReadWords(h, size, seg, (cur - seg) / size)
    else if WordAt(h, size, cur) == 0 then
      ReadWords(h, size, seg, (cur - seg) / size) + [0] + SplitWords(h, size, cur + size, cur + size, n - 1)
    else SplitWords(h, size, seg, cur + size, n - 1)
  }

  // A std::wstring at `ptr`: its character count, then its characters.
  ghost predicate Holds(h: seq<Byte>, size: CharSize, ptr: nat, vs: seq<int>) {
    && ptr + 4 + size * |vs| <= |h|
    && Load32(h, ptr) == |vs|
    && h[ptr + 4..ptr + 4 + size * |vs|] == WordsBytes(size, vs)
  }

  // ----- The wire type -----

  // What each character size writes: the units themselves, or the points.
  function Characters(size: CharSize, str: seq<Unit>): seq<int> {
    if size == 2 then str else Points(str)
  }

  method LengthBytes(size: CharSize, str: seq<Unit>) returns (length: nat)
    ensures length == size * |Characters(size, str)|
  {
    if size == 2 {
      length := |str| * 2;
      return;
    }
    hide Points, From, Combine;
    ghost var ps := Points(str);
    length := 0;
    var i := 0;
    ghost var j := 0;
    AllToRead(str);
    while i < |str|
      invariant 0 <= i <= |str| + 1
      invariant 0 <= j <= |ps| && ps[j..] == Points(From(str, i)) && length == 4 * j
      decreases |str| - i
    {
      NextPoint(str, i, ps, j);
      var codeUnit := str[i];
      if 55296 <= codeUnit <= 57343 {
        i := i + 1;
      }
      length := length + 4;
      j := j + 1;
      i := i + 1;
    }
    NothingToRead(str, i);
  }

  // toWireType, with `ptr` the block that malloc returned for it.  The
  // characters and the final zero end exactly at the end of the block.
  method ToWireType(heap: array<Byte>, size: CharSize, str: seq<Unit>, ptr: nat)
    requires ptr + 4 + size * |Characters(size, str)| + size <= heap.Length <= 0x8000_0000
    modifies heap
    ensures Holds(heap[..], size, ptr, Characters(size, str))
    ensures heap[..ptr] == old(heap[..ptr])
    ensures var end := ptr + 4 + size * |Characters(size, str)| + size; heap[end..] == old(heap[end..])
  {
    hide Laid, Points, Bytes32, Replace, Count16, Count32;
    ghost var h0 := heap[..];
    ghost var vs := Characters(size, str);
    var length := LengthBytes(size, str);
    Store32(heap, ptr, if size == 2 then length / 2 else length / 4);
    ghost var h1 := heap[..];
    if size == 2 {
      WholeCount(|str|);
      assert str[..|str|] == str;
      var written := StringToUTF16(str, heap, ptr + 4, length + size);
    } else {
      WholeCount(|Points(str)|);
      assert Points(str)[..|Points(str)|] == Points(str);
      var written := StringToUTF32(str, heap, ptr + 4, length + size);
    }
    Assembled(h0, h1, heap[..], size, ptr, vs);
  }

  // A window with room for the terminator takes the whole string.
  lemma WholeCount(n: nat)
    ensures Count16(2 * n + 2, n) == n && Count32(4 * n + 4, n) == n
  {
  }

  lemma Assembled(h0: seq<Byte>, h1: seq<Byte>, h2: seq<Byte>, size: CharSize, ptr: nat, vs: seq<int>)
    requires ptr + 4 + size * |vs| + size <= |h0| <= 0x8000_0000
    requires h1 == Replace(h0, ptr, Bytes32(|vs|))
    requires Laid(h1, h2, size, ptr + 4, vs + [0], ptr + 4 + size * |vs| + size)
    ensures Holds(h2, size, ptr, vs)
    ensures h2[..ptr] == h0[..ptr]
    ensures var end := ptr + 4 + size * |vs| + size; h2[end..] == h0[end..]
  {
    hide WordBytes, Bytes32;
    assert (vs + [0])[..|vs|] == vs;
    var w := WordsBytes(size, vs);
    assert WordsBytes(size, vs + [0]) == w + WordBytes(size, 0);
    assert h2[ptr..ptr + 4] == h1[ptr..ptr + 4] == Bytes32(|vs|);
    assert h2[ptr + 4..ptr + 4 + |w|] == h2[ptr + 4..ptr + 4 + |w + WordBytes(size, 0)|][..|w|];
    LoadBytes32(h2, ptr, |vs|);
  }

  // fromWireType.
  method FromWireType(heap: array<Byte>, size: CharSize, value: nat) returns (str: seq<Unit>)
    requires value + 4 <= heap.Length && value + 4 + size * Load32(heap[..], value) <= heap.Length
    ensures str == SplitWords(heap[..], size, value + 4, value + 4, Load32(heap[..], value))
  {
    hide WordAt, ReadWords, Load32, SplitWords;
    ghost var h := heap[..];
    ghost var whole := SplitWords(h, size, value + 4, value + 4, Load32(h, value));
    var length := Fetch32(heap, value);
    str := [];
    var first := true;
    var decodeStartPtr := value + 4;
    var i := 0;
    ghost var done := [];
    while i <= length
      invariant 0 <= i <= length + 1
      invariant i <= length ==>
        value + 4 <= decodeStartPtr <= value + 4 + i * size && (value + 4 + i * size - decodeStartPtr) % size == 0
      invariant first ==> str == [] && done == []
      invariant !first ==> done == str + [0]
      invariant i <= length ==> whole == done + SplitWords(h, size, decodeStartPtr, value + 4 + i * size, length - i)
      invariant i == length + 1 ==> str == whole
    {
      var currentBytePtr := value + 4 + i * size;
      SplitWordsStep(h, size, decodeStartPtr, currentBytePtr, length - i);
      var atZero := i == length;
      if i < length {
        var code := LoadWord(heap, size, currentBytePtr);
        atZero := code == 0;
      }
      if atZero {
        var maxReadBytes := currentBytePtr - decodeStartPtr;
        var stringSegment := DecodeString(heap, size, decodeStartPtr, maxReadBytes);
        ghost var next := currentBytePtr + size;
        JoinSegment(done, stringSegment,
                    if i == length then [] else SplitWords(h, size, next, next, length - i - 1));
        if first {
          str := stringSegment;
        } else {
          str := str + [0];
          str := str + stringSegment;
        }
        first := false;
        done := str + [0];
        decodeStartPtr := currentBytePtr + size;
      }
      i := i + 1;
    }
  }

  lemma SplitWordsStep(h: seq<Byte>, size: CharSize, seg: nat, cur: nat, n: nat)
    requires seg <= cur && (cur - seg) % size == 0 && cur + size * n <= |h|
    ensures var segment := ReadWords(h, size, seg, (cur - seg) / size);
      SplitWords(h, size, seg, cur, n) ==
      if n == 0 then segment
      else if WordAt(h, size, cur) == 0 then segment + [0] + SplitWords(h, size, cur + size, cur + size, n - 1)
      else SplitWords(h, size, seg, cur + size, n - 1)
  {
    hide ReadWords, WordAt;
  }

  lemma JoinSegment(done: seq<Unit>, segment: seq<Unit>, rest: seq<Unit>)
    ensures done + (segment + [0] + rest) == done + segment + [0] + rest
    ensures [] + segment == segment && [] + (segment + [0] + rest) == segment + [0] + rest
  {
  }

  // ----- The round trip -----

  // Characters that survive the trip through a word.
  ghost predicate Storable(size: CharSize, vs: seq<int>) {
    forall i :: 0 <= i < |vs| ==> 0 <= vs[i] < (if size == 2 then 0x1_0000 else 0x8000_0000)
  }

  ghost predicate CharsAt(h: seq<Byte>, size: CharSize, at: nat, vs: seq<int>) {
    && at + size * |vs| <= |h|
    && forall i :: 0 <= i < |vs| ==> at + size * i + size <= |h| && WordAt(h, size, at + size * i) == vs[i]
  }

  lemma {:induction false} BytesAreChars(h: seq<Byte>, size: CharSize, at: nat, vs: seq<int>)
    requires at + size * |vs| <= |h| && h[at..at + size * |vs|] == WordsBytes(size, vs) && Storable(size, vs)
    ensures CharsAt(h, size, at, vs)
  {
    hide WordAt, WordBytes;
    if vs != [] {
      var n := |vs| - 1;
      var last := at + size * n;
      assert size * |vs| == size * n + size;
      SliceOfConcat(h, at, WordsBytes(size, vs[..n]), WordBytes(size, vs[n]));
      BytesAreChars(h, size, at, vs[..n]);
      WordBack(h, size, last, vs[n]);
      CharsNext(h, size, at, vs[..n], vs[n]);
      assert vs[..n] + [vs[n]] == vs;
    }
  }

  lemma WordBack(h: seq<Byte>, size: CharSize, at: nat, v: int)
    requires at + size <= |h| && h[at..at + size] == WordBytes(size, v)
    requires 0 <= v < (if size == 2 then 0x1_0000 else 0x8000_0000)
    ensures WordAt(h, size, at) == v
  {
    if size == 2 {
      LoadBytes16(h, at, v);
    } else {
      LoadBytes32(h, at, v);
    }
  }

  lemma {:induction false} ReadWordsInverts(h: seq<Byte>, size: CharSize, at: nat, vs: seq<int>)
    requires CharsAt(h, size, at, vs) && 0 !in vs
    ensures ReadWords(h, size, at, |vs|) == UnitsAll(vs)
    decreases |vs|
  {
    hide WordAt, UnitsOf;
    if vs != [] {
      CharsTail(h, size, at, vs);
      ReadWordsInverts(h, size, at + size, vs[1..]);
    }
  }

  lemma CharsTail(h: seq<Byte>, size: CharSize, at: nat, vs: seq<int>)
    requires vs != [] && CharsAt(h, size, at, vs)
    ensures at + size <= |h| && WordAt(h, size, at) == vs[0] && CharsAt(h, size, at + size, vs[1..])
  {
    hide WordAt;
    assert WordAt(h, size, at + size * 0) == vs[0];
    forall i | 0 <= i < |vs[1..]|
      ensures at + size + size * i + size <= |h| && WordAt(h, size, at + size + size * i) == vs[1..][i]
    {
      assert at + size + size * i == at + size * (i + 1);
    }
  }

  // With `pre` scanned and `vs` to come, the rest reads as both.
  lemma {:induction false} SplitWordsInverts(h: seq<Byte>, size: CharSize, seg: nat, pre: seq<int>, vs: seq<int>)
    requires CharsAt(h, size, seg, pre) && 0 !in pre
    requires CharsAt(h, size, seg + size * |pre|, vs)
    ensures SplitWords(h, size, seg, seg + size * |pre|, |vs|) == UnitsAll(pre) + UnitsAll(vs)
    decreases |vs|
  {
    hide WordAt, UnitsOf, CharsAt, ReadWords, SplitWords;
    var cur := seg + size * |pre|;
    CharsFit(h, size, cur, vs);
    SplitWordsStep(h, size, seg, cur, |vs|);
    ReadWordsInverts(h, size, seg, pre);
    assert size * |pre| / size == |pre|;
    if vs != [] {
      CharsTail(h, size, cur, vs);
      if vs[0] == 0 {
        NoChars(h, size, cur + size);
        SplitWordsInverts(h, size, cur + size, [], vs[1..]);
        UnitsOfZero();
      } else {
        CharsNext(h, size, seg, pre, vs[0]);
        UnitsAllConcat(pre, [vs[0]]);
        assert UnitsAll([vs[0]]) == UnitsOf(vs[0]);
        SplitWordsInverts(h, size, seg, pre + [vs[0]], vs[1..]);
      }
    }
  }

  lemma CharsFit(h: seq<Byte>, size: CharSize, at: nat, vs: seq<int>)
    requires CharsAt(h, size, at, vs)
    ensures at + size * |vs| <= |h|
  {
  }

  lemma NoChars(h: seq<Byte>, size: CharSize, at: nat)
    requires at <= |h|
    ensures CharsAt(h, size, at, [])
  {
  }

  lemma CharsNext(h: seq<Byte>, size: CharSize, at: nat, vs: seq<int>, v: int)
    requires CharsAt(h, size, at, vs)
    requires at + size * |vs| + size <= |h| && WordAt(h, size, at + size * |vs|) == v
    ensures CharsAt(h, size, at, vs + [v])
  {
    hide WordAt;
  }

  lemma {:induction false} UnitsOfUnits(s: seq<Unit>)
    ensures UnitsAll(s) == s
  {
    if s != [] {
      UnitsOfUnits(s[1..]);
    }
  }

  // A wide string reads back as itself: always with two-byte characters, and
  // exactly when it is well formed with four-byte ones.  Zeros are kept.
  lemma WideRoundTrip(h: seq<Byte>, size: CharSize, ptr: nat, str: seq<Unit>)
    requires Holds(h, size, ptr, Characters(size, str))
    ensures SplitWords(h, size, ptr + 4, ptr + 4, Load32(h, ptr)) == str <==> size == 2 || WellFormed(str)
  {
    hide WordAt, WordsBytes, Load32, SplitWords;
    var vs := Characters(size, str);
    BytesAreChars(h, size, ptr + 4, vs);
    NoChars(h, size, ptr + 4);
    SplitWordsInverts(h, size, ptr + 4, [], vs);
    if size == 2 {
      UnitsOfUnits(str);
    } else {
      PointsRoundTrip(str);
    }
  }

  // toWireType, then fromWireType.
  method RoundTrip(heap: array<Byte>, size: CharSize, str: seq<Unit>, ptr: nat) returns (back: seq<Unit>)
    requires ptr + 4 + size * |Characters(size, str)| + size <= heap.Length <= 0x8000_0000
    modifies heap
    ensures back == str <==> size == 2 || WellFormed(str)
  {
    ToWireType(heap, size, str, ptr);
    back := FromWireType(heap, size, ptr);
    WideRoundTrip(heap[..], size, ptr, str);
  }
}
