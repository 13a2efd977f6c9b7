/** Growth of the WebAssembly heap: three attempts at shrinking, page-aligned sizes. */
module HeapGrowth {

  const PAGE: nat := 65536
  const MAX_HEAP: nat := 2147483648
  const MAX_OVERGROWTH: nat := 100663296
  // What 32-bit addresses reach.
  const MAX_PAGES: nat := 65536
  const MAX_LENGTH: nat := 0x1_0000_0000

  function RealMin(a: real, b: real): real {
    if a < b then a else b
  }

  function RealMax(a: real, b: real): real {
    if a > b then a else b
  }

  // JavaScript's remainder, for a number that is not negative.
  function RealRem(x: real, m: nat): real
    requires x >= 0.0 && m > 0
  {
    x - m as real * (x / m as real).Floor as real
  }

  function AlignUp(x: real, multiple: nat): real
    requires x >= 0.0 && multiple > 0
  {
    RemainderInRange(x, multiple);
    x + RealRem(multiple as real - RealRem(x, multiple), multiple)
  }

  lemma RemainderInRange(x: real, m: nat)
    requires x >= 0.0 && m > 0
    ensures 0.0 <= RealRem(x, m) < m as real
  {
    var d := x / m as real;
    var e := d - d.Floor as real;
    QuotientTimes(x, m as real);
    Distributes(d, d.Floor as real, m as real);
    Share(e, m as real);
    assert RealRem(x, m) == e * m as real;
  }

  lemma Share(e: real, m: real)
    requires 0.0 <= e < 1.0 && m > 0.0
    ensures 0.0 <= e * m < m
  {
  }

  lemma QuotientTimes(x: real, m: real)
    requires m > 0.0
    ensures x / m * m == x
  {
  }

  lemma Distributes(a: real, b: real, m: real)
    ensures (a - b) * m == a * m - m * b
  {
  }

  lemma Scaled(a: real, b: real, m: real)
    requires a <= b && m >= 0.0
    ensures a * m <= b * m
  {
  }

  lemma StrictlyScaled(a: real, b: real, m: real)
    requires a < b && m > 0.0
    ensures a * m < b * m
  {
  }

  // Aligning gives the least multiple that is not below the number.
  lemma AlignUpIsLeast(x: real, m: nat) returns (k: nat)
    requires x >= 0.0 && m > 0
    ensures AlignUp(x, m) == (k * m) as real && x <= (k * m) as real < x + m as real
  {
    var q := (x / m as real).Floor;
    var r := RealRem(x, m);
    RemainderInRange(x, m);
    assert x == (q * m) as real + r;
    if r == 0.0 {
      RemainderOfSelf(m);
      k := q;
    } else {
      RemainderOfLess(m as real - r, m);
      k := q + 1;
      assert (k * m) as real == (q * m) as real + m as real;
    }
  }

  lemma RemainderOfSelf(m: nat)
    requires m > 0
    ensures RealRem(m as real, m) == 0.0
  {
    assert m as real / m as real == 1.0;
  }

  lemma RemainderOfLess(x: real, m: nat)
    requires m > 0 && 0.0 <= x < m as real
    ensures RealRem(x, m) == x
  {
    assert 0.0 <= x / m as real < 1.0;
  }

  // A rounding of real numbers as floating point does it: it keeps the order
  // and every whole number up to 2^53.
  ghost predicate Rounding(round: real -> real) {
    && (forall x: real, y: real :: x <= y ==> round(x) <= round(y))
    && (forall n: int :: 0 <= n <= 0x20_0000_0000_0000 ==> Keeps(round, n))
  }

  ghost predicate Keeps(round: real -> real, n: int) {
    round(n as real) == n as real
  }

  // The old size and a fifth of it, cut down; each operation is rounded.
  function Overgrown(round: real -> real, oldSize: nat, cutDown: nat): real
    requires cutDown > 0
  {
    round(Times(Factor(round, cutDown), oldSize as real))
  }

  function Times(a: real, b: real): real {
    a * b
  }

  lemma TimesInOrder(a: real, b: real, m: real)
    requires a <= b && m >= 0.0
    ensures Times(a, m) <= Times(b, m)
    ensures Times(1.0, m) == m
  {
  }

  function Factor(round: real -> real, cutDown: nat): real
    requires cutDown > 0
  {
    round(1.0 + round(round(0.2) / cutDown as real))
  }

  // The request, or the old size overgrown within bounds if that is more.
  function Wanted(round: real -> real, oldSize: nat, requested: nat, cutDown: nat): (w: real)
    requires cutDown > 0
    ensures w >= requested as real
  {
    RealMax(requested as real, RealMin(Overgrown(round, oldSize, cutDown), (requested + MAX_OVERGROWTH) as real))
  }

  // The size tried with a given cut in the overgrowth.
  function NewSize(round: real -> real, oldSize: nat, requested: nat, cutDown: nat): real
    requires cutDown > 0
  {
    RealMin(MAX_HEAP as real, AlignUp(Wanted(round, oldSize, requested, cutDown), PAGE))
  }

  // Every size tried is a whole number of pages between the request and the maximum.
  lemma NewSizeInRange(round: real -> real, oldSize: nat, requested: nat, cutDown: nat) returns (pages: nat)
    requires cutDown > 0 && requested <= MAX_HEAP
    ensures NewSize(round, oldSize, requested, cutDown) == (pages * PAGE) as real
    ensures requested <= pages * PAGE <= MAX_HEAP
    ensures Wanted(round, oldSize, requested, cutDown) > 0.0 ==> pages > 0
  {
    hide AlignUp, Wanted;
    pages := AlignUpIsLeast(Wanted(round, oldSize, requested, cutDown), PAGE);
    if MAX_HEAP < pages * PAGE {
      pages := MAX_HEAP / PAGE;
    }
  }

  lemma AlignUpGrows(x: real, y: real)
    requires 0.0 <= x <= y
    ensures AlignUp(x, PAGE) <= AlignUp(y, PAGE)
  {
    hide AlignUp;
    var j := AlignUpIsLeast(x, PAGE);
    var k := AlignUpIsLeast(y, PAGE);
    MultiplesInOrder(j, k);
  }

  lemma MultiplesInOrder(j: nat, k: nat)
    requires (j * PAGE) as real < (k * PAGE) as real + PAGE as real
    ensures (j * PAGE) as real <= (k * PAGE) as real
  {
    assert j * PAGE < k * PAGE + PAGE;
    assert j <= k;
    assert j * PAGE <= k * PAGE;
  }

  lemma SmallerShare(a: real, c: real, d: real)
    requires a >= 0.0 && 0.0 < c <= d
    ensures a / d <= a / c
  {
    var g := a / d;
    assert g * d == a && a / c * c == a;
    assert g >= 0.0;
    if g > a / c {
      StrictlyScaled(a / c, g, c);
      Scaled(c, d, g);
    }
  }

  lemma RoundedInOrder(round: real -> real, x: real, y: real)
    requires Rounding(round) && x <= y
    ensures round(x) <= round(y)
  {
  }

  lemma WholeIsKept(round: real -> real, n: nat)
    requires Rounding(round)
    ensures n <= MAX_LENGTH ==> round(n as real) == n as real
  {
    assert n <= MAX_LENGTH ==> Keeps(round, n);
  }

  // The factor is at least 1, and a larger cut makes it smaller.
  lemma FactorShrinks(round: real -> real, c: nat, d: nat)
    requires Rounding(round) && 0 < c <= d
    ensures 1.0 <= Factor(round, d) <= Factor(round, c)
  {
    var fifth := round(0.2);
    assert Keeps(round, 0) && Keeps(round, 1);
    assert fifth >= 0.0;
    SmallerShare(fifth, c as real, d as real);
    assert fifth / d as real >= 0.0;
    assert round(0.0) <= round(fifth / d as real) <= round(fifth / c as real);
  }

  lemma OvergrownShrinks(round: real -> real, oldSize: nat, c: nat, d: nat)
    requires Rounding(round) && 0 < c <= d
    ensures Overgrown(round, oldSize, d) <= Overgrown(round, oldSize, c)
    ensures oldSize <= MAX_LENGTH ==> Overgrown(round, oldSize, c) >= oldSize as real
  {
    hide Factor, Rounding, Times;
    FactorShrinks(round, c, d);
    var size := oldSize as real;
    TimesInOrder(Factor(round, d), Factor(round, c), size);
    TimesInOrder(1.0, Factor(round, c), size);
    RoundedInOrder(round, Times(Factor(round, d), size), Times(Factor(round, c), size));
    RoundedInOrder(round, size, Times(Factor(round, c), size));
    WholeIsKept(round, oldSize);
  }

  lemma WantedShrinks(round: real -> real, oldSize: nat, requested: nat, c: nat, d: nat)
    requires Rounding(round) && 0 < c <= d
    ensures Wanted(round, oldSize, requested, d) <= Wanted(round, oldSize, requested, c)
    ensures 0 < oldSize <= MAX_LENGTH ==> Wanted(round, oldSize, requested, c) > 0.0
  {
    hide Overgrown, Rounding;
    OvergrownShrinks(round, oldSize, c, d);
  }

  // A larger cut never asks for more.
  lemma CutDownShrinks(round: real -> real, oldSize: nat, requested: nat, c: nat, d: nat)
    requires Rounding(round) && 0 < c <= d
    ensures NewSize(round, oldSize, requested, d) <= NewSize(round, oldSize, requested, c)
  {
    hide AlignUp, Wanted, Rounding;
    WantedShrinks(round, oldSize, requested, c, d);
    AlignUpGrows(Wanted(round, oldSize, requested, d), Wanted(round, oldSize, requested, c));
  }

  // The size of attempt `i`: the cut doubles each time.
  function Attempt(round: real -> real, oldSize: nat, requested: nat, i: nat): int
    requires i < 3
  {
    NewSize(round, oldSize, requested, [1, 2, 4][i]).Floor
  }

  lemma AttemptIs(round: real -> real, oldSize: nat, requested: nat, i: nat)
    requires i < 3
    ensures Attempt(round, oldSize, requested, i) == NewSize(round, oldSize, requested, [1, 2, 4][i]).Floor
  {
  }

  // Every attempt is a whole number of pages, at least the request and at most
  // the maximum, and no attempt asks for more than the one before.
  lemma AttemptsInRange(round: real -> real, oldSize: nat, requested: nat, i: nat)
    requires Rounding(round) && i < 3 && requested <= MAX_HEAP
    ensures Attempt(round, oldSize, requested, i) % PAGE == 0
    ensures requested <= Attempt(round, oldSize, requested, i) <= MAX_HEAP
    ensures 0 < oldSize <= MAX_LENGTH ==> Attempt(round, oldSize, requested, i) > 0
    ensures i > 0 ==> Attempt(round, oldSize, requested, i) <= Attempt(round, oldSize, requested, i - 1)
  {
    hide NewSize, Rounding, Wanted;
    var cut := [1, 2, 4][i];
    var k := NewSizeInRange(round, oldSize, requested, cut);
    WantedShrinks(round, oldSize, requested, cut, cut);
    if i > 0 {
      var j := NewSizeInRange(round, oldSize, requested, [1, 2, 4][i - 1]);
      CutDownShrinks(round, oldSize, requested, [1, 2, 4][i - 1], cut);
    }
  }

  // ----- What an attempt asks for, without rounding -----

  // A size is enough that reaches the request and either the old size and a
  // fifth of it over the cut, or 96 MiB past the request.
  ghost predicate IsEnough(oldSize: nat, requested: nat, cut: nat, size: int) {
    size >= requested && (5 * cut * size >= (5 * cut + 1) * oldSize || size >= requested + 100663296)
  }

  lemma EnoughIsWanted(round: real -> real, oldSize: nat, requested: nat, cut: nat, size: int)
    requires (forall x: real :: round(x) == x) && (cut == 1 || cut == 2 || cut == 4)
    ensures IsEnough(oldSize, requested, cut, size) <==> size as real >= Wanted(round, oldSize, requested, cut)
  {
    var factor := Factor(round, cut);
    assert factor == 1.0 + 0.2 / cut as real;
    assert Overgrown(round, oldSize, cut) == factor * oldSize as real;
    if cut == 1 {
      assert factor == 1.2;
    } else if cut == 2 {
      assert factor == 1.1;
    } else {
      assert factor == 1.05;
    }
  }

  // Where nothing is rounded, an attempt asks for the least whole number of
  // pages that is enough, or for the maximum.
  lemma AttemptIsLeast(round: real -> real, oldSize: nat, requested: nat, i: nat)
    requires (forall x: real :: round(x) == x) && i < 3 && requested <= 2147483648
    ensures var cut, size := [1, 2, 4][i], Attempt(round, oldSize, requested, i);
      && size % 65536 == 0 && size <= 2147483648
      && (size == 2147483648 || IsEnough(oldSize, requested, cut, size))
      && forall m :: 0 <= m < size && m % 65536 == 0 ==> !IsEnough(oldSize, requested, cut, m)
  {
    hide Wanted, IsEnough, AlignUp;
    var cut, size := [1, 2, 4][i], Attempt(round, oldSize, requested, i);
    var wanted := Wanted(round, oldSize, requested, cut);
    var k := AlignUpIsLeast(wanted, PAGE);
    EnoughIsWanted(round, oldSize, requested, cut, size);
    forall m | 0 <= m < size && m % 65536 == 0
      ensures !IsEnough(oldSize, requested, cut, m)
    {
      EnoughIsWanted(round, oldSize, requested, cut, m);
      assert m <= (k - 1) * 65536;
    }
  }

  // The pages asked for, by unsigned 32-bit arithmetic: a size below the length wraps around.
  function MorePages(size: int, length: nat): nat {
    (size - length + PAGE - 1) % 0x1_0000_0000 / PAGE
  }

  // The host's memory.
  class Memory {
    var pages: nat

    ghost predicate Valid()
      reads this
    {
      pages <= MAX_PAGES
    }

    constructor (pages: nat)
      requires pages <= MAX_PAGES
      ensures Valid() && this.pages == pages
    {
      this.pages := pages;
    }

    function Length(): nat
      reads this
    {
      pages * PAGE
    }

    // emscripten_realloc_buffer.  The host may refuse any growth, and refuses
    // one past the address space.
    method Grow(size: nat, granted: bool) returns (grown: bool)
      requires Valid()
      modifies this
      ensures Valid() && grown == (granted && old(pages) + MorePages(size, old(Length())) <= MAX_PAGES)
      ensures pages == if grown then old(pages) + MorePages(size, old(Length())) else old(pages)
    {
      var more := MorePages(size, Length());
      grown := granted && pages + more <= MAX_PAGES;
      if grown {
        pages := pages + more;
      }
    }

    // _emscripten_resize_heap, with the sizes it tried; `granted` is whether the
    // host is willing at each attempt.
    method Resize(requestedSize: nat, round: real -> real, granted: seq<bool>) returns (grown: bool, tried: seq<int>)
      requires Valid() && Rounding(round) && |granted| == 3
      modifies this
      ensures Valid()
      ensures var requested := requestedSize % 0x1_0000_0000;
        && (requested > MAX_HEAP ==> !grown && tried == [])
        && (requested <= MAX_HEAP ==> 1 <= |tried| <= 3 && (grown || |tried| == 3))
        && |tried| <= 3
        && (forall i :: 0 <= i < |tried| ==> tried[i] == Attempt(round, old(Length()), requested, i))
      // an attempt succeeds when the host is willing and it does not ask for less than there is
      ensures forall i :: 0 <= i < |tried| ==>
        (granted[i] && tried[i] >= old(Length()) <==> grown && i == |tried| - 1)
      // growing ends at exactly the size last tried
      ensures Length() == if grown then tried[|tried| - 1] else old(Length())
    {
      hide NewSize, Attempt, Rounding, MorePages;
      var oldSize := Length();
      grown, tried := false, [];
      var requested := requestedSize % 0x1_0000_0000;
      if requested > MAX_HEAP {
        return;
      }
      var cutDown := 1;
      while cutDown <= 4
        invariant pages == old(pages) && !grown && |tried| <= 3
        invariant cutDown == [1, 2, 4, 8][|tried|]
        invariant forall i :: 0 <= i < |tried| ==> tried[i] == Attempt(round, oldSize, requested, i)
        invariant forall i :: 0 <= i < |tried| ==> !(granted[i] && tried[i] >= oldSize)
        decreases 8 - cutDown
      {
        var newSize := NewSize(round, oldSize, requested, cutDown).Floor;
        AttemptIs(round, oldSize, requested, |tried|);
        AttemptsInRange(round, oldSize, requested, |tried|);
        WholePages(newSize, pages);
        tried := tried + [newSize];
        grown := Grow(newSize, granted[|tried| - 1]);
        if grown {
          return;
        }
        cutDown := cutDown * 2;
      }
    }
  }

  // Growing by whole pages reaches the size asked for; asking for less wraps
  // around to more pages than there can be.
  lemma WholePages(newSize: int, pages: nat)
    requires newSize % PAGE == 0 && 0 <= newSize <= MAX_HEAP && pages <= MAX_PAGES
    requires pages > 0 ==> newSize > 0
    ensures var more := MorePages(newSize, pages * PAGE);
      if newSize >= pages * PAGE then (pages + more) * PAGE == newSize && pages + more <= MAX_PAGES
      else pages + more > MAX_PAGES
  {
    var k := newSize / PAGE;
    assert newSize == k * PAGE;
    var gap := k - pages;
    assert newSize - pages * PAGE + PAGE - 1 == gap * PAGE + PAGE - 1;
    if gap >= 0 {
      assert (gap * PAGE + PAGE - 1) % 0x1_0000_0000 == gap * PAGE + PAGE - 1;
      assert (gap * PAGE + PAGE - 1) / PAGE == gap;
    } else {
      var wrapped := (gap + MAX_PAGES) * PAGE + PAGE - 1;
      assert gap * PAGE + PAGE - 1 == wrapped - 0x1_0000_0000;
      assert (gap * PAGE + PAGE - 1) % 0x1_0000_0000 == wrapped;
      assert wrapped / PAGE == gap + MAX_PAGES;
    }
  }
}
