/**
 The wire type of std::string: a 32-bit length, then the bytes.  Text goes
 through UTF-8; reading splits at the zero bytes and decodes each segment.
 */
module StdString {
  import opened Unicode
  import opened Heap
  import opened Utf8Codec
  import opened Wrappers

  // What JavaScript may pass: a string, a byte array, or anything else.
  datatype Value = Text(units: seq<Unit>) | Bytes(bytes: seq<Byte>) | Other

  // The bytes that go on the wire; None where toWireType throws.
  datatype Payload = Wire(bytes: seq<Byte>) | Throws

  predicate FitsBytes(s: seq<Unit>) {
    forall i :: 0 <= i < |s| ==> s[i] <= 255
  }

  function Latin1(s: seq<Unit>): (bytes: seq<Byte>)
    requires FitsBytes(s)
    ensures |bytes| == |s| && forall i :: 0 <= i < |s| ==> bytes[i] == s[i]
  {
    if s == [] then [] else [s[0]] + Latin1(s[1..])
  }

  function PayloadOf(isUtf8: bool, value: Value): Payload {
    match value
    case Text(s) =>
      if isUtf8 then Wire(Utf8All(Points(s)))
      else if FitsBytes(s) then Wire(Latin1(s))
      else Throws
    case Bytes(b) => Wire(b)
    case Other => Throws
  }

  // A string object at `ptr`: its length word, then its bytes.
  ghost predicate Holds(h: seq<Byte>, ptr: nat, payload: seq<Byte>) {
    && ptr + 4 + |payload| <= |h|
    && Load32(h, ptr) == |payload|
    && h[ptr + 4..ptr + 4 + |payload|] == payload
  }

  // The size asked of malloc for the object.
  function BlockSize(isUtf8: bool, value: Value): nat {
    match value
    case Text(s) => 4 + (if isUtf8 then |Utf8All(Points(s))| else |s|) + 1
    case Bytes(b) => 4 + |b| + 1
    case Other => 0
  }

  // toWireType, with `ptr` the block that malloc returned for it.
  method ToWireType(heap: array<Byte>, isUtf8: bool, value: Value, ptr: nat) returns (thrown: bool)
    requires ptr + BlockSize(isUtf8, value) <= heap.Length <= 0x8000_0000
    modifies heap
    ensures thrown <==> PayloadOf(isUtf8, value).Throws?
    ensures thrown <==>
      value.Other? || (value.Text? && !isUtf8 && exists i :: 0 <= i < |value.units| && value.units[i] > 255)
    ensures !thrown ==> Holds(heap[..], ptr, PayloadOf(isUtf8, value).bytes)
    ensures heap[..ptr] == old(heap[..ptr])
    ensures var end := ptr + BlockSize(isUtf8, value); heap[end..] == old(heap[end..])
  {
    hide Replace, Points, Utf8All, Bytes32, Load32, Holds, FitsBytes, Latin1;
    ThrowsExactly(isUtf8, value);
    if value.Other? {
      return true;
    }
    var length;
    if isUtf8 && value.Text? {
      length := LengthBytesUTF8(value.units);
    } else {
      length := if value.Text? then |value.units| else |value.bytes|;
    }
    ghost var end := ptr + 4 + length + 1;
    ghost var h0 := heap[..];
    Store32(heap, ptr, length);
    ghost var h1 := heap[..];
    thrown := WritePayload(heap, isUtf8, value, ptr + 4, length);
    Undone(h0, h1, heap[..], ptr, length, end);
    if !thrown {
      Assembled(h0, h1, heap[..], ptr, PayloadOf(isUtf8, value).bytes, end);
    }
  }

  lemma ThrowsExactly(isUtf8: bool, value: Value)
    ensures PayloadOf(isUtf8, value).Throws? <==>
      value.Other? || (value.Text? && !isUtf8 && exists i :: 0 <= i < |value.units| && value.units[i] > 255)
  {
  }

  // The bytes after the length word, or an exception that leaves some of them.
  method WritePayload(heap: array<Byte>, isUtf8: bool, value: Value, at: nat, length: nat) returns (thrown: bool)
    requires !value.Other? && length + 5 == BlockSize(isUtf8, value) && at + length + 1 <= heap.Length
    modifies heap
    ensures thrown <==> PayloadOf(isUtf8, value).Throws?
    ensures !thrown ==>
      && |PayloadOf(isUtf8, value).bytes| == length
      && heap[at..at + length] == PayloadOf(isUtf8, value).bytes
    ensures heap[..at] == old(heap[..at]) && heap[at + length + 1..] == old(heap[at + length + 1..])
  {
    hide Replace, Points, Utf8All, Latin1, FitsBytes;
    ghost var h := heap[..];
    thrown := false;
    if value.Text? && isUtf8 {
      WriteText(heap, value.units, at, length);
    } else if value.Text? {
      var fits := WriteLatin1(heap, value.units, at);
      TailLater(h, heap[..], at + length);
      thrown := !fits;
    } else {
      WriteBytes(heap, value.bytes, at);
      TailLater(h, heap[..], at + length);
    }
  }

  lemma TailLater(h1: seq<Byte>, h2: seq<Byte>, at: nat)
    requires |h1| == |h2| && at < |h1|
    ensures h2[at..] == h1[at..] ==> h2[at + 1..] == h1[at + 1..]
  {
    assert h1[at + 1..] == h1[at..][1..] && h2[at + 1..] == h2[at..][1..];
  }

  // A length word, then the payload after it, make the object.
  lemma Assembled(h0: seq<Byte>, h1: seq<Byte>, h2: seq<Byte>, ptr: nat, payload: seq<Byte>, end: nat)
    requires |h0| == |h1| == |h2| && ptr + 4 + |payload| <= end <= |h0| <= 0x8000_0000
    requires h1 == Replace(h0, ptr, Bytes32(|payload|))
    requires h2[..ptr + 4] == h1[..ptr + 4] && h2[end..] == h1[end..]
    requires h2[ptr + 4..ptr + 4 + |payload|] == payload
    ensures Holds(h2, ptr, payload) && h2[..ptr] == h0[..ptr] && h2[end..] == h0[end..]
  {
    Undone(h0, h1, h2, ptr, |payload|, end);
    LoadBytes32(h2, ptr, |payload|);
  }

  lemma Undone(h0: seq<Byte>, h1: seq<Byte>, h2: seq<Byte>, ptr: nat, length: int, end: nat)
    requires |h0| == |h1| == |h2| && ptr + 4 <= end <= |h0|
    requires h1 == Replace(h0, ptr, Bytes32(length))
    requires h2[..ptr + 4] == h1[..ptr + 4] && h2[end..] == h1[end..]
    ensures h2[..ptr] == h0[..ptr] && h2[end..] == h0[end..] && h2[ptr..ptr + 4] == Bytes32(length)
  {
    hide Bytes32;
    ReplaceKeepsRest(h0, ptr, Bytes32(length));
    assert h2[..ptr] == h2[..ptr + 4][..ptr] && h1[..ptr] == h1[..ptr + 4][..ptr];
    assert h2[ptr..ptr + 4] == h2[..ptr + 4][ptr..] && h1[ptr..ptr + 4] == h1[..ptr + 4][ptr..];
  }

  lemma ReplaceKeepsRest(h: seq<Byte>, at: nat, bytes: seq<Byte>)
    requires at + |bytes| <= |h|
    ensures var h' := Replace(h, at, bytes);
      && h'[..at] == h[..at] && h'[at + |bytes|..] == h[at + |bytes|..]
      && forall end :: at + |bytes| <= end <= |h| ==> h'[end..] == h[end..]
  {
  }

  // The bytes are at `at`, and nothing before them or after `end` has changed.
  twostate predicate Written(heap: array<Byte>, at: nat, bytes: seq<Byte>, end: nat)
    requires at + |bytes| <= end <= heap.Length
    reads heap
  {
    && heap[at..at + |bytes|] == bytes
    && heap[..at] == old(heap[..at]) && heap[end..] == old(heap[end..])
  }

  method WriteText(heap: array<Byte>, s: seq<Unit>, at: nat, length: nat)
    requires length == |Utf8All(Points(s))| && at + length + 1 <= heap.Length
    modifies heap
    ensures Written(heap, at, Utf8All(Points(s)), at + length + 1)
  {
    hide Replace, Points, Fit;
    ghost var ps := Points(s);
    FitAll(ps, length);
    assert ps[..|ps|] == ps;
    ghost var h := heap[..];
    var written := StringToUTF8Array(s, heap, at, length + 1);
    ReplaceKeepsRest(h, at, Utf8All(ps) + [0]);
    assert heap[at..at + length] == heap[at..at + length + 1][..length];
  }

  method WriteLatin1(heap: array<Byte>, s: seq<Unit>, at: nat) returns (fits: bool)
    requires at + |s| <= heap.Length
    modifies heap
    ensures fits <==> FitsBytes(s)
    ensures fits ==> Written(heap, at, Latin1(s), at + |s|)
    ensures heap[..at] == old(heap[..at]) && heap[at + |s|..] == old(heap[at + |s|..])
  {
    var i := 0;
    while i < |s|
      invariant 0 <= i <= |s|
      invariant forall x :: 0 <= x < i ==> s[x] <= 255 && heap[at + x] == s[x]
      invariant forall x :: 0 <= x < at || at + |s| <= x < heap.Length ==> heap[x] == old(heap[x])
    {
      var charCode := s[i];
      if charCode > 255 {
        return false;
      }
      heap[at + i] := charCode;
      i := i + 1;
    }
    return true;
  }

  method WriteBytes(heap: array<Byte>, bytes: seq<Byte>, at: nat)
    requires at + |bytes| <= heap.Length
    modifies heap
    ensures Written(heap, at, bytes, at + |bytes|)
  {
    var i := 0;
    while i < |bytes|
      invariant 0 <= i <= |bytes|
      invariant forall x :: 0 <= x < i ==> heap[at + x] == bytes[x]
      invariant forall x :: 0 <= x < at || at + |bytes| <= x < heap.Length ==> heap[x] == old(heap[x])
    {
      heap[at + i] := bytes[i];
      i := i + 1;
    }
  }

  // ----- Reading -----

  // The text from the segment start `seg`, scanned up to `cur`, to `end`: each
  // zero byte closes a segment and stands for itself.
  function SplitDecode(h: seq<Byte>, seg: nat, cur: nat, end: nat): seq<Unit>
    requires seg <= cur <= end <= |h|
    decreases end - cur
  {
    if cur == end then Segment(h, seg, cur)
    else if h[cur] == 0 then Segment(h, seg, cur) + [0] + SplitDecode(h, cur + 1, cur + 1, end)
    else SplitDecode(h, seg, cur + 1, end)
  }

  // UTF8ToString of a segment, which the decoder cuts at its first zero.
  function Segment(h: seq<Byte>, seg: nat, cur: nat): seq<Unit>
    requires seg <= cur
  {
    Decode(h, seg, EndOfText(h, seg, cur))
  }

  function ReadBack(h: seq<Byte>, isUtf8: bool, ptr: nat): seq<Unit>
    requires ptr + 4 <= |h| && ptr + 4 + Load32(h, ptr) <= |h|
  {
    var end := ptr + 4 + Load32(h, ptr);
    if isUtf8 then SplitDecode(h, ptr + 4, ptr + 4, end) else h[ptr + 4..end]
  }

  // fromWireType.
  method FromWireType(heap: array<Byte>, isUtf8: bool, value: nat) returns (str: seq<Unit>)
    requires value + 4 <= heap.Length && value + 4 + Load32(heap[..], value) <= heap.Length
    ensures str == ReadBack(heap[..], isUtf8, value)
  {
    hide Load32, Decode, EndOfText;
    ghost var h := heap[..];
    var length := Fetch32(heap, value);
    str := [];
    if isUtf8 {
      var first := true;
      var decodeStartPtr := value + 4;
      var i := 0;
      ghost var done := [];
      while i <= length
        invariant 0 <= i <= length + 1
        invariant i <= length ==> value + 4 <= decodeStartPtr <= value + 4 + i
        invariant first ==> str == [] && done == []
        invariant !first ==> done == str + [0]
        invariant i <= length ==>
          ReadBack(h, isUtf8, value) == done + SplitDecode(h, decodeStartPtr, value + 4 + i, value + 4 + length)
        invariant i == length + 1 ==> !first && str == ReadBack(h, isUtf8, value)
      {
        var currentBytePtr := value + 4 + i;
        if i == length || heap[currentBytePtr] == 0 {
          var maxRead := currentBytePtr - decodeStartPtr;
          var stringSegment := UTF8ArrayToString(heap, decodeStartPtr, Some(maxRead));
          if first {
            str := stringSegment;
          } else {
            str := str + [0];
            str := str + stringSegment;
          }
          first := false;
          done := str + [0];
          decodeStartPtr := currentBytePtr + 1;
        }
        i := i + 1;
      }
    } else {
      var i := 0;
      while i < length
        invariant 0 <= i <= length
        invariant str == h[value + 4..value + 4 + i]
      {
        str := str + [heap[value + 4 + i]];
        i := i + 1;
      }
    }
  }

  // ----- The round trip -----

  // Bytes that are not zero only move the scan along.
  lemma {:induction false} SkipNonzero(h: seq<Byte>, seg: nat, cur: nat, k: nat, end: nat)
    requires seg <= cur && cur + k <= end <= |h|
    requires forall i :: cur <= i < cur + k ==> h[i] != 0
    ensures SplitDecode(h, seg, cur, end) == SplitDecode(h, seg, cur + k, end)
    decreases k
  {
    if k > 0 {
      SkipNonzero(h, seg, cur + 1, k - 1, end);
    }
  }

  lemma {:induction false} NonzeroText(h: seq<Byte>, p: nat, end: nat)
    requires p <= end <= |h| && forall i :: p <= i < end ==> h[i] != 0
    ensures EndOfText(h, p, end) == end
    decreases end - p
  {
    if p < end {
      NonzeroText(h, p + 1, end);
    }
  }

  // A segment that encodes points without a zero reads back as those points.
  lemma SegmentOfPoints(h: seq<Byte>, seg: nat, pre: seq<Point>)
    requires EncodedAt(h, seg, pre) && NoZero(h, seg, seg + |Utf8All(pre)|)
    ensures seg + |Utf8All(pre)| <= |h|
    ensures Segment(h, seg, seg + |Utf8All(pre)|) == UnitsAll(pre)
  {
    hide Utf8All, UnitsAll, Decode, EndOfText;
    NonzeroText(h, seg, seg + |Utf8All(pre)|);
    DecodeUtf8(h, seg, pre);
  }

  ghost predicate EncodedAt(h: seq<Byte>, at: nat, ps: seq<Point>) {
    at + |Utf8All(ps)| <= |h| && h[at..at + |Utf8All(ps)|] == Utf8All(ps)
  }

  ghost predicate NoZero(h: seq<Byte>, a: nat, b: nat)
    requires b <= |h|
  {
    forall i :: a <= i < b ==> h[i] != 0
  }

  // The first of the points to come, when not zero, joins those scanned.
  lemma ScanPoint(h: seq<Byte>, seg: nat, pre: seq<Point>, ps: seq<Point>)
    requires ps != [] && ps[0] != 0
    requires EncodedAt(h, seg, pre) && NoZero(h, seg, seg + |Utf8All(pre)|)
    requires EncodedAt(h, seg + |Utf8All(pre)|, ps)
    ensures var cur := seg + |Utf8All(pre)|;
      var next := cur + |Utf8(ps[0])|;
      && EncodedAt(h, seg, pre + [ps[0]]) && next == seg + |Utf8All(pre + [ps[0]])| && NoZero(h, seg, next)
      && EncodedAt(h, next, ps[1..]) && next + |Utf8All(ps[1..])| == cur + |Utf8All(ps)|
      && SplitDecode(h, seg, cur, cur + |Utf8All(ps)|) == SplitDecode(h, seg, next, cur + |Utf8All(ps)|)
  {
    hide Utf8, SplitDecode, Utf8All;
    var cur := seg + |Utf8All(pre)|;
    SplitUtf8(h, cur, ps);
    PointHasNoZero(h, cur, ps[0]);
    SkipNonzero(h, seg, cur, |Utf8(ps[0])|, cur + |Utf8All(ps)|);
    JoinPoint(h, seg, pre, ps[0]);
  }

  lemma PointHasNoZero(h: seq<Byte>, cur: nat, p: Point)
    requires p != 0 && cur + |Utf8(p)| <= |h| && h[cur..cur + |Utf8(p)|] == Utf8(p)
    ensures NoZero(h, cur, cur + |Utf8(p)|)
  {
    hide Utf8;
    var n := |Utf8(p)|;
    Utf8Zero(p);
    forall i | cur <= i < cur + n
      ensures h[i] != 0
    {
      assert h[i] == h[cur..cur + n][i - cur] && Utf8(p)[i - cur] in Utf8(p);
    }
  }

  lemma JoinPoint(h: seq<Byte>, seg: nat, pre: seq<Point>, p: Point)
    requires EncodedAt(h, seg, pre)
    requires var cur := seg + |Utf8All(pre)|; cur + |Utf8(p)| <= |h| && h[cur..cur + |Utf8(p)|] == Utf8(p)
    ensures EncodedAt(h, seg, pre + [p]) && |Utf8All(pre + [p])| == |Utf8All(pre)| + |Utf8(p)|
  {
    hide Utf8;
    var cur := seg + |Utf8All(pre)|;
    Utf8AllConcat(pre, [p]);
    assert Utf8All([p]) == Utf8(p);
    assert h[seg..cur + |Utf8(p)|] == h[seg..cur] + h[cur..cur + |Utf8(p)|];
  }

  lemma ScanZero(h: seq<Byte>, cur: nat, ps: seq<Point>)
    requires ps != [] && ps[0] == 0 && EncodedAt(h, cur, ps)
    ensures h[cur] == 0 && EncodedAt(h, cur + 1, ps[1..]) && |Utf8All(ps)| == 1 + |Utf8All(ps[1..])|
    ensures EncodedAt(h, cur + 1, []) && Utf8All([]) == []
  {
    SplitUtf8(h, cur, ps);
    assert h[cur] == h[cur..cur + 1][0];
  }

  lemma UnitsAllSplit(pre: seq<Point>, ps: seq<Point>)
    requires ps != []
    ensures UnitsAll(pre + [ps[0]]) + UnitsAll(ps[1..]) == UnitsAll(pre) + UnitsAll(ps)
    ensures ps[0] == 0 ==> UnitsAll(ps) == [0] + UnitsAll(ps[1..])
  {
    hide UnitsOf;
    UnitsAllConcat(pre, [ps[0]]);
    assert UnitsAll([ps[0]]) == UnitsOf(ps[0]);
    UnitsOfZero();
  }

  // With `pre` scanned and `ps` to come, the rest reads as both.
  lemma {:induction false} SplitDecodeInverts(h: seq<Byte>, seg: nat, pre: seq<Point>, ps: seq<Point>)
    requires EncodedAt(h, seg, pre) && NoZero(h, seg, seg + |Utf8All(pre)|)
    requires EncodedAt(h, seg + |Utf8All(pre)|, ps)
    ensures var cur := seg + |Utf8All(pre)|;
      SplitDecode(h, seg, cur, cur + |Utf8All(ps)|) == UnitsAll(pre) + UnitsAll(ps)
    decreases |ps|
  {
    hide Utf8, Segment, UnitsOf, UnitsAll, Utf8All, EncodedAt, NoZero, SplitDecode;
    var cur := seg + |Utf8All(pre)|;
    SegmentOfPoints(h, seg, pre);
    NothingLeft();
    if ps == [] {
      SplitAtEnd(h, seg, cur);
    } else {
      UnitsAllSplit(pre, ps);
      if ps[0] == 0 {
        ScanZero(h, cur, ps);
        NothingScanned(h, cur + 1);
        SplitAtZero(h, seg, cur, cur + |Utf8All(ps)|);
        SplitDecodeInverts(h, cur + 1, [], ps[1..]);
      } else {
        ScanPoint(h, seg, pre, ps);
        SplitDecodeInverts(h, seg, pre + [ps[0]], ps[1..]);
      }
    }
  }

  lemma SplitAtEnd(h: seq<Byte>, seg: nat, cur: nat)
    requires seg <= cur <= |h|
    ensures SplitDecode(h, seg, cur, cur) == Segment(h, seg, cur)
  {
  }

  lemma SplitAtZero(h: seq<Byte>, seg: nat, cur: nat, end: nat)
    requires seg <= cur < end <= |h| && h[cur] == 0
    ensures SplitDecode(h, seg, cur, end) == Segment(h, seg, cur) + [0] + SplitDecode(h, cur + 1, cur + 1, end)
  {
  }

  lemma NothingLeft()
    ensures Utf8All([]) == [] && UnitsAll([]) == []
  {
  }

  lemma NothingScanned(h: seq<Byte>, at: nat)
    requires at <= |h|
    ensures NoZero(h, at, at)
  {
  }

  // Text written to the wire reads back as itself exactly when it is well formed;
  // embedded zeros included.
  lemma TextRoundTrip(h: seq<Byte>, ptr: nat, s: seq<Unit>)
    requires Holds(h, ptr, Utf8All(Points(s)))
    ensures ReadBack(h, true, ptr) == UnitsAll(Points(s))
    ensures ReadBack(h, true, ptr) == s <==> WellFormed(s)
  {
    assert Utf8All([]) == [];
    SplitDecodeInverts(h, ptr + 4, [], Points(s));
    PointsRoundTrip(s);
  }

  // toWireType, then fromWireType.
  method RoundTrip(heap: array<Byte>, isUtf8: bool, value: Value, ptr: nat) returns (thrown: bool, back: seq<Unit>)
    requires ptr + BlockSize(isUtf8, value) <= heap.Length <= 0x8000_0000
    modifies heap
    ensures thrown <==> PayloadOf(isUtf8, value).Throws?
    ensures !thrown && isUtf8 && value.Text? ==> (back == value.units <==> WellFormed(value.units))
    ensures !thrown && !isUtf8 && value.Text? ==> back == value.units
    ensures !thrown && !isUtf8 && value.Bytes? ==> back == value.bytes
  {
    back := [];
    thrown := ToWireType(heap, isUtf8, value, ptr);
    if !thrown {
      back := FromWireType(heap, isUtf8, ptr);
      if isUtf8 && value.Text? {
        TextRoundTrip(heap[..], ptr, value.units);
      }
    }
  }
}
