/**
 Code units, code points and UTF-8.  Strings are sequences of UTF-16 code
 units, well formed or not; encoders pair surrogates blindly, as the runtime does.
 */
module Unicode {

  type Unit = x: int | 0 <= x < 0x1_0000
  type Byte = x: int | 0 <= x < 0x100
  type Point = x: int | 0 <= x <= 0x10_FFFF

  predicate IsHigh(u: int) {
    0xD800 <= u <= 0xDBFF
  }

  predicate IsLow(u: int) {
    0xDC00 <= u <= 0xDFFF
  }

  predicate IsSurrogate(u: int) {
    0xD800 <= u <= 0xDFFF
  }

  // Well-formed UTF-16 (section 2 of RFC 2781): every surrogate is one half of a pair.
  predicate WellFormed(s: seq<Unit>) {
    if s == [] then true
    else if IsHigh(s[0]) then |s| >= 2 && IsLow(s[1]) && WellFormed(s[2..])
    else !IsLow(s[0]) && WellFormed(s[1..])
  }

  // A code unit past the end reads as NaN, whose bits are all zero.
  function UnitAt(s: seq<Unit>, i: nat): Unit {
    if i < |s| then s[i] else 0
  }

  function Combine(u: Unit, v: Unit): (p: Point)
    ensures p >= 0x1_0000
  {
    0x1_0000 + u % 0x400 * 0x400 + v % 0x400
  }

  // What follows the first point: a surrogate takes the next unit with it.
  function Rest(s: seq<Unit>): (rest: seq<Unit>)
    requires s != []
    ensures |rest| < |s|
  {
    if IsSurrogate(s[0]) && |s| > 1 then s[2..] else s[1..]
  }

  function FirstPoint(s: seq<Unit>): Point
    requires s != []
  {
    if IsSurrogate(s[0]) then Combine(s[0], UnitAt(s, 1)) else s[0]
  }

  // The runtime's reading of a string: any surrogate is taken as the first half
  // of a pair, whatever follows it.
  function Points(s: seq<Unit>): seq<Point> {
    if s == [] then [] else [FirstPoint(s)] + Points(Rest(s))
  }

  // Any surrogate takes the unit after it for the other half, or nothing for
  // zero bits; ten bits are taken of each.
  lemma PointsAreBlind(s: seq<Unit>)
    requires s != []
    ensures Points(s) == [FirstPoint(s)] + Points(Rest(s))
    ensures !(0xD800 <= s[0] <= 0xDFFF) ==> FirstPoint(s) == s[0] && Rest(s) == s[1..]
    ensures 0xD800 <= s[0] <= 0xDFFF ==>
      && FirstPoint(s) == Halves(s[0], if |s| > 1 then s[1] else 0)
      && Rest(s) == if |s| > 1 then s[2..] else []
  {
  }

  function Halves(u: int, v: int): int {
    0x1_0000 + u % 0x400 * 0x400 + v % 0x400
  }

  // 0xD800 | x, cut to a code unit.
  function OrHigh(x: nat): (u: Unit)
    ensures x < 0x400 ==> u == 0xD800 + x
  {
    0xD800 + x % 0x800 + x / 0x2000 % 2 * 0x2000
  }

  // String.fromCharCode of a decoded value, as one unit or as a pair.
  function UnitsOf(v: int): seq<Unit> {
    if v >= 0x1_0000 then [OrHigh((v - 0x1_0000) / 0x400), 0xDC00 + (v - 0x1_0000) % 0x400]
    else [v % 0x1_0000]
  }

  function UnitsAll(ps: seq<int>): seq<Unit> {
    if ps == [] then [] else UnitsOf(ps[0]) + UnitsAll(ps[1..])
  }

  lemma UnitsOfZero()
    ensures UnitsOf(0) == [0]
  {
  }

  lemma {:induction false} UnitsAllConcat(ps: seq<int>, qs: seq<int>)
    ensures UnitsAll(ps + qs) == UnitsAll(ps) + UnitsAll(qs)
  {
    if ps == [] {
      assert ps + qs == qs;
    } else {
      assert (ps + qs)[1..] == ps[1..] + qs;
      UnitsAllConcat(ps[1..], qs);
    }
  }

  // No point read from a string is a surrogate.
  lemma {:induction false} PointsAreScalar(s: seq<Unit>)
    ensures forall p <- Points(s) :: !IsSurrogate(p)
  {
    if s != [] {
      PointsAreScalar(Rest(s));
    }
  }

  lemma WellFormedPrepend(p: Point, s: seq<Unit>)
    requires !IsSurrogate(p) && WellFormed(s)
    ensures WellFormed(UnitsOf(p) + s)
  {
    var t := UnitsOf(p) + s;
    if p >= 0x1_0000 {
      assert (p - 0x1_0000) / 0x400 < 0x400;
      assert IsHigh(t[0]) && IsLow(t[1]) && t[2..] == s;
    } else {
      assert t[0] == p && t[1..] == s;
    }
  }

  lemma {:induction false} UnitsOfScalarsWellFormed(ps: seq<Point>)
    requires forall p <- ps :: !IsSurrogate(p)
    ensures WellFormed(UnitsAll(ps))
  {
    if ps != [] {
      UnitsOfScalarsWellFormed(ps[1..]);
      WellFormedPrepend(ps[0], UnitsAll(ps[1..]));
    }
  }

  lemma CombineSplits(u: Unit, v: Unit)
    requires IsHigh(u) && IsLow(v)
    ensures UnitsOf(Combine(u, v)) == [u, v]
  {
    hide OrHigh;
    LowTenBits(u - 0xD800, 0xD800);
    LowTenBits(v - 0xDC00, 0xDC00);
    TwoHalves(u - 0xD800, v - 0xDC00);
  }

  lemma LowTenBits(x: int, base: int)
    requires 0 <= x < 0x400 && (base == 0xD800 || base == 0xDC00)
    ensures (base + x) % 0x400 == x
  {
  }

  lemma TwoHalves(high: int, low: int)
    requires 0 <= high < 0x400 && 0 <= low < 0x400
    ensures (high * 0x400 + low) / 0x400 == high && (high * 0x400 + low) % 0x400 == low
  {
  }

  lemma {:induction false} WellFormedReads(s: seq<Unit>)
    requires WellFormed(s)
    ensures UnitsAll(Points(s)) == s
  {
    if s != [] {
      if IsHigh(s[0]) {
        WellFormedReads(s[2..]);
        CombineSplits(s[0], s[1]);
        assert Rest(s) == s[2..] && FirstPoint(s) == Combine(s[0], s[1]);
        assert UnitsAll(Points(s)) == UnitsOf(FirstPoint(s)) + UnitsAll(Points(Rest(s)));
      } else {
        WellFormedReads(s[1..]);
        assert Rest(s) == s[1..] && UnitsOf(FirstPoint(s)) == [s[0]];
        assert UnitsAll(Points(s)) == UnitsOf(FirstPoint(s)) + UnitsAll(Points(Rest(s)));
      }
    }
  }

  // Reading a string as points and writing the points back is the identity on
  // the well-formed strings, and on no others.
  lemma PointsRoundTrip(s: seq<Unit>)
    ensures UnitsAll(Points(s)) == s <==> WellFormed(s)
  {
    if WellFormed(s) {
      WellFormedReads(s);
    } else {
      PointsAreScalar(s);
      UnitsOfScalarsWellFormed(Points(s));
    }
  }

  // ----- UTF-8 (section 3 of RFC 3629) -----

  function Utf8(p: Point): (bytes: seq<Byte>)
    ensures 1 <= |bytes| <= 4
  {
    if p <= 0x7F then [p]
    else if p <= 0x7FF then [0xC0 + p / 0x40, 0x80 + p % 0x40]
    else if p <= 0xFFFF then [0xE0 + p / 0x1000, 0x80 + p / 0x40 % 0x40, 0x80 + p % 0x40]
    else [0xF0 + p / 0x4_0000, 0x80 + p / 0x1000 % 0x40, 0x80 + p / 0x40 % 0x40, 0x80 + p % 0x40]
  }

  function Utf8All(ps: seq<Point>): seq<Byte> {
    if ps == [] then [] else Utf8(ps[0]) + Utf8All(ps[1..])
  }

  lemma {:induction false} Utf8AllConcat(ps: seq<Point>, qs: seq<Point>)
    ensures Utf8All(ps + qs) == Utf8All(ps) + Utf8All(qs)
  {
    if ps == [] {
      assert ps + qs == qs;
    } else {
      assert (ps + qs)[1..] == ps[1..] + qs;
      Utf8AllConcat(ps[1..], qs);
    }
  }

  // A zero byte is the code point zero, and nothing else holds one.
  lemma Utf8Zero(p: Point)
    ensures p == 0 ==> Utf8(p) == [0]
    ensures p != 0 ==> forall b <- Utf8(p) :: b != 0
  {
  }
}
