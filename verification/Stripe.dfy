/**
 The checkerboard marker in a captured frame: four neighbouring coloured runs
 of a pixel row, found in one pass that remembers only the last four.
 */
module Stripe {
  import opened Wrappers

  datatype Pixel = Pixel(r: nat, g: nat, b: nat)

  function Colour(p: Pixel): (c: nat)
    ensures c <= 2
  {
    if p.r > 180 && p.g < 80 && p.b > 180 then 1
    else if p.r < 80 && p.g > 180 && p.b > 180 then 2
    else 0
  }

  // Pixels `begin` up to `end`, all of one colour.
  datatype Run = Run(colour: nat, begin: nat, end: nat)

  // ----- What the row holds -----

  // A coloured run, maximal, that the row goes on after.
  ghost predicate IsRun(row: seq<Pixel>, r: Run) {
    && r.begin < r.end < |row| && r.colour != 0
    && (forall x :: r.begin <= x < r.end ==> Colour(row[x]) == r.colour)
    && (r.begin > 0 ==> Colour(row[r.begin - 1]) != r.colour)
    && Colour(row[r.end]) != r.colour
  }

  // Where the run through pixel `x` begins.
  ghost function RunStart(row: seq<Pixel>, x: nat): (s: nat)
    requires x < |row|
    ensures s <= x && forall y :: s <= y <= x ==> Colour(row[y]) == Colour(row[x])
    ensures s > 0 ==> Colour(row[s - 1]) != Colour(row[x])
  {
    if x > 0 && Colour(row[x - 1]) == Colour(row[x]) then RunStart(row, x - 1) else x
  }

  // The coloured runs seen to end within the first `n` pixels, in order.
  ghost function Runs(row: seq<Pixel>, n: nat): seq<Run>
    requires n <= |row|
  {
    if n <= 1 then []
    else
      Runs(row, n - 1)
      + (if Colour(row[n - 1]) != Colour(row[n - 2]) && Colour(row[n - 2]) != 0
         then [Run(Colour(row[n - 2]), RunStart(row, n - 2), n - 1)] else [])
  }

  // They are exactly the maximal coloured runs, from left to right.
  lemma {:induction false} RunsAreMaximal(row: seq<Pixel>, n: nat, r: Run)
    requires n <= |row|
    ensures r in Runs(row, n) <==> IsRun(row, r) && r.end < n
  {
    if n > 1 {
      RunsAreMaximal(row, n - 1, r);
      if r.end == n - 1 && r.begin < r.end && (forall x :: r.begin <= x < r.end ==> Colour(row[x]) == r.colour) {
        StartIsUnique(row, r, n - 2);
      }
    }
  }

  lemma StartIsUnique(row: seq<Pixel>, r: Run, x: nat)
    requires r.begin <= x < |row| && forall y :: r.begin <= y <= x ==> Colour(row[y]) == r.colour
    ensures (r.begin > 0 ==> Colour(row[r.begin - 1]) != r.colour) <==> RunStart(row, x) == r.begin
  {
  }

  lemma {:induction false} RunsInOrder(row: seq<Pixel>, n: nat)
    requires n <= |row|
    ensures forall i, j :: 0 <= i < j < |Runs(row, n)| ==> Runs(row, n)[i].end <= Runs(row, n)[j].begin
    ensures forall i :: 0 <= i < |Runs(row, n)| ==> Runs(row, n)[i].begin < Runs(row, n)[i].end < n
  {
    if n > 1 {
      RunsInOrder(row, n - 1);
      if Colour(row[n - 1]) != Colour(row[n - 2]) && Colour(row[n - 2]) != 0 {
        var runs := Runs(row, n - 1);
        forall i | 0 <= i < |runs|
          ensures runs[i].end <= RunStart(row, n - 2)
        {
          RunsAreMaximal(row, n - 1, runs[i]);
          assert IsRun(row, runs[i]) && Colour(row[runs[i].end - 1]) != Colour(row[runs[i].end]);
        }
      }
    }
  }

  // ----- The marker -----

  function Width(r: Run): int {
    r.end - r.begin
  }

  function Min(a: int, b: int): int {
    if a < b then a else b
  }

  function Max(a: int, b: int): int {
    if a > b then a else b
  }

  function MinWidth(w: seq<Run>): int
    requires |w| == 4
  {
    Min(Min(Width(w[0]), Width(w[1])), Min(Width(w[2]), Width(w[3])))
  }

  function MaxWidth(w: seq<Run>): int
    requires |w| == 4
  {
    Max(Max(Width(w[0]), Width(w[1])), Max(Width(w[2]), Width(w[3])))
  }

  // Colours 1, 2, 1, 2; widths of at least 8 and within a quarter of each
  // other; gaps of at most 2 pixels or a tenth of the least width.
  predicate IsMarker(w: seq<Run>) {
    && |w| == 4
    && w[0].colour == 1 && w[1].colour == 2 && w[2].colour == 1 && w[3].colour == 2
    && MinWidth(w) >= 8 && 4 * MaxWidth(w) <= 5 * MinWidth(w)
    && forall i :: 0 <= i < 3 ==> GapOk(w[i + 1].begin - w[i].end, MinWidth(w))
  }

  predicate GapOk(gap: int, width: int) {
    0 <= gap && (gap <= 2 || 10 * gap <= width)
  }

  // The gap after run `i` is at most 2 pixels, or a tenth of every width.
  ghost predicate GapIsSmall(w: seq<Run>, i: nat)
    requires |w| == 4 && i < 3
  {
    var gap := w[i + 1].begin - w[i].end;
    0 <= gap && (gap <= 2 || forall j :: 0 <= j < 4 ==> 10 * gap <= Width(w[j]))
  }

  // The same, run by run: no width is more than a quarter over another.
  lemma MarkerIsPairwise(w: seq<Run>)
    requires |w| == 4
    ensures IsMarker(w) <==>
      && w[0].colour == w[2].colour == 1 && w[1].colour == w[3].colour == 2
      && (forall i :: 0 <= i < 4 ==> Width(w[i]) >= 8)
      && (forall i, j :: 0 <= i < 4 && 0 <= j < 4 ==> 4 * Width(w[i]) <= 5 * Width(w[j]))
      && forall i :: 0 <= i < 3 ==> GapIsSmall(w, i)
  {
    hide MinWidth, MaxWidth;
    WidthsAre(w);
    forall i | 0 <= i < 3
      ensures GapIsSmall(w, i) <==> GapOk(w[i + 1].begin - w[i].end, MinWidth(w))
    {
    }
  }

  lemma WidthsAre(w: seq<Run>)
    requires |w| == 4
    ensures forall i :: 0 <= i < 4 ==> MinWidth(w) <= Width(w[i]) <= MaxWidth(w)
    ensures exists i :: 0 <= i < 4 && MinWidth(w) == Width(w[i])
    ensures exists i :: 0 <= i < 4 && MaxWidth(w) == Width(w[i])
  {
    hide Width;
    var a, b, c, d := Width(w[0]), Width(w[1]), Width(w[2]), Width(w[3]);
    assert MinWidth(w) == a || MinWidth(w) == b || MinWidth(w) == c || MinWidth(w) == d;
    assert MaxWidth(w) == a || MaxWidth(w) == b || MaxWidth(w) == c || MaxWidth(w) == d;
  }

  ghost predicate MarkerAt(runs: seq<Run>, k: int) {
    0 <= k && k + 4 <= |runs| && IsMarker(runs[k..k + 4])
  }

  function LastFour(runs: seq<Run>): seq<Run> {
    if |runs| > 4 then runs[|runs| - 4..] else runs
  }

  // The extent of the first marker among the row's runs, if there is one.
  ghost predicate FirstMarker(runs: seq<Run>, result: Option<(nat, nat)>) {
    match result
    case None => forall k :: !MarkerAt(runs, k)
    case Some(extent) =>
      exists k :: MarkerAt(runs, k) && (forall j :: 0 <= j < k ==> !MarkerAt(runs, j))
        && extent == (runs[k].begin, runs[k + 3].end)
  }

  lemma {:induction false} RunsGrow(row: seq<Pixel>, m: nat, n: nat)
    requires m <= n <= |row|
    ensures Runs(row, m) <= Runs(row, n)
    decreases n
  {
    if m < n {
      RunsGrow(row, m, n - 1);
    }
  }

  method FindStripe(row: seq<Pixel>) returns (result: Option<(nat, nat)>)
    ensures FirstMarker(Runs(row, |row|), result)
  {
    hide Runs, RunStart, LastFour, Colour, MinWidth, MaxWidth;
    NoRunsYet(row);
    var runs: seq<Run> := [];
    var previous, start := 0, 0;
    var x := 0;
    while x < |row|
      invariant 0 <= x <= |row|
      invariant x > 0 ==> previous == Colour(row[x - 1])
      invariant x > 0 && previous != 0 ==> start == RunStart(row, x - 1)
      invariant x == 0 ==> previous == 0
      invariant runs == LastFour(Runs(row, x))
      invariant forall k :: !MarkerAt(Runs(row, x), k)
    {
      ghost var before := Runs(row, x);
      NextRuns(row, x);
      assert before + [] == before;
      var value := Colour(row[x]);
      if value != previous {
        if previous != 0 {
          var run := Run(previous, start, x);
          runs := LastFour(runs + [run]);
          LastOnly(before, run);
          if IsMarker(runs) {
            RunsGrow(row, x + 1, |row|);
            assert MarkerAt(before + [run], |before| - 3);
            MarkerInPrefix(before + [run], Runs(row, |row|), |before| - 3);
            LastFourAre(before + [run]);
            return Some((runs[0].begin, runs[3].end));
          }
        }
        previous, start := value, x;
      }
      x := x + 1;
    }
    result := None;
  }

  lemma NoRunsYet(row: seq<Pixel>)
    ensures Runs(row, 0) == [] && LastFour([]) == []
  {
  }

  // At a change of colour the run before it ends, and one begins.
  lemma NextRuns(row: seq<Pixel>, x: nat)
    requires x < |row|
    ensures Runs(row, x + 1) == Runs(row, x) +
      (if x > 0 && Colour(row[x]) != Colour(row[x - 1]) && Colour(row[x - 1]) != 0
       then [Run(Colour(row[x - 1]), RunStart(row, x - 1), x)] else [])
    ensures RunStart(row, x)
      == if x > 0 && Colour(row[x]) == Colour(row[x - 1]) then RunStart(row, x - 1) else x
  {
    hide Colour;
  }

  lemma LastFourAre(runs: seq<Run>)
    requires |LastFour(runs)| == 4
    ensures |runs| >= 4 && LastFour(runs)[0] == runs[|runs| - 4] && LastFour(runs)[3] == runs[|runs| - 1]
  {
  }

  // A new run makes at most the window it ends a marker.
  lemma LastOnly(before: seq<Run>, run: Run)
    requires forall k :: !MarkerAt(before, k)
    ensures LastFour(LastFour(before) + [run]) == LastFour(before + [run])
    ensures forall k :: MarkerAt(before + [run], k) <==> k == |before| - 3 && IsMarker(LastFour(before + [run]))
  {
    hide MinWidth, MaxWidth, GapOk;
    forall k: nat | k + 4 <= |before|
      ensures (before + [run])[k..k + 4] == before[k..k + 4] && !MarkerAt(before + [run], k)
    {
      assert !MarkerAt(before, k);
    }
    if |before| >= 3 {
      assert (before + [run])[|before| - 3..|before| + 1] == LastFour(before + [run]);
    }
  }

  lemma MarkerInPrefix(s: seq<Run>, t: seq<Run>, k: int)
    requires s <= t && 0 <= k && k + 4 == |s| && MarkerAt(s, k)
    requires forall j :: 0 <= j < k ==> !MarkerAt(s, j)
    ensures FirstMarker(t, Some((s[k].begin, s[k + 3].end)))
  {
    forall j: nat | j + 4 <= |s|
      ensures t[j..j + 4] == s[j..j + 4] && (MarkerAt(t, j) <==> MarkerAt(s, j))
    {
    }
    assert MarkerAt(t, k);
  }

  // A maximal coloured run, wherever it ends.
  ghost predicate IsMaximal(row: seq<Pixel>, r: Run) {
    && r.begin < r.end <= |row| && r.colour != 0
    && (forall x :: r.begin <= x < r.end ==> Colour(row[x]) == r.colour)
    && (r.begin > 0 ==> Colour(row[r.begin - 1]) != r.colour)
    && (r.end < |row| ==> Colour(row[r.end]) != r.colour)
  }

  // On a row that ends in an uncoloured pixel the runs of the search are all
  // the maximal coloured runs.
  lemma RunsOfRow(row: seq<Pixel>, r: Run)
    requires row != [] && Colour(row[|row| - 1]) == 0
    ensures r in Runs(row, |row|) <==> IsMaximal(row, r)
  {
    RunsAreMaximal(row, |row|, r);
    if r.end == |row| && r.begin < r.end {
      assert Colour(row[r.end - 1]) == 0;
    }
  }

  // ----- The frame -----

  const BLACK: Pixel := Pixel(0, 0, 0)

  datatype Box = Box(left: nat, top: nat, width: nat, height: nat)

  function RowAt(width: nat, data: seq<Pixel>, y: nat): seq<Pixel>
    requires (y + 1) * width <= |data|
  {
    assert y * width <= (y + 1) * width;
    data[y * width..(y + 1) * width] + [BLACK]
  }

  // The box drawn around a stripe found on row `y`.
  function BoxFor(extent: (nat, nat), y: nat): Box
    requires extent.0 <= extent.1
  {
    Box(extent.0, y, extent.1 - extent.0, Max(8, (extent.1 - extent.0) * 3 / 4 - 2))
  }

  // From the left end of the stripe to the right, and three quarters of that high
  // less 2, rounded down, or 8 if that is more.
  lemma BoxIs(extent: (nat, nat), y: nat)
    requires extent.0 <= extent.1
    ensures var b := BoxFor(extent, y);
      && b.left == extent.0 && b.left + b.width == extent.1 && b.top == y && b.height >= 8
      && (b.height > 8 ==> 4 * (b.height + 2) <= 3 * b.width < 4 * (b.height + 3))
      && (b.height == 8 ==> 3 * b.width < 44)
  {
  }

  // find_marker looks at every other row, and throws where none has a stripe.
  method FindMarker(width: nat, height: nat, data: seq<Pixel>) returns (result: Option<Box>)
    requires |data| == width * height
    ensures match result
      case None => forall y, k :: 0 <= y < height && y % 2 == 0 ==> !StripeOn(width, height, data, y, k)
      case Some(box) =>
        && box.top < height && box.top % 2 == 0
        && (forall y, k :: 0 <= y < box.top && y % 2 == 0 ==> !StripeOn(width, height, data, y, k))
        && exists extent: (nat, nat) :: extent.0 <= extent.1 && box == BoxFor(extent, box.top)
             && FirstMarker(RunsOn(width, height, data, box.top), Some(extent))
  {
    hide RowAt, Runs, MarkerAt, FirstMarker;
    var y := 0;
    while y < height
      invariant 0 <= y <= height + 1 && y % 2 == 0
      invariant forall z, k :: 0 <= z < y && z < height && z % 2 == 0 ==> !StripeOn(width, height, data, z, k)
    {
      RowFits(width, height, y);
      var row := RowAt(width, data, y);
      var found := FindStripe(row);
      RowIsSearched(width, height, data, y, found);
      if found.Some? {
        var extent := found.value;
        return Some(BoxFor(extent, y));
      }
      y := y + 2;
    }
    result := None;
  }

  lemma RowFits(width: nat, height: nat, y: nat)
    requires y < height
    ensures (y + 1) * width <= width * height
  {
  }

  ghost function RunsOn(width: nat, height: nat, data: seq<Pixel>, y: nat): seq<Run>
    requires |data| == width * height && y < height
  {
    RowFits(width, height, y);
    var row := RowAt(width, data, y);
    Runs(row, |row|)
  }

  // The pixel added at the end of a row is uncoloured, so the runs searched are
  // all the maximal coloured runs of the frame's own row.
  lemma RunsOfFrameRow(width: nat, height: nat, data: seq<Pixel>, y: nat, r: Run)
    requires |data| == width * height && y < height && (y + 1) * width <= |data| && y * width <= (y + 1) * width
    ensures r in RunsOn(width, height, data, y) <==> IsMaximal(data[y * width..(y + 1) * width], r)
  {
    hide Runs;
    var own, row := data[y * width..(y + 1) * width], RowAt(width, data, y);
    RunsOfRow(row, r);
    RowFits(width, height, y);
    assert forall x :: 0 <= x < |own| ==> row[x] == own[x];
    assert Colour(row[|own|]) == 0;
  }

  // The search of a row says whether it has a stripe; the one found runs from left to right.
  lemma RowIsSearched(width: nat, height: nat, data: seq<Pixel>, y: nat, found: Option<(nat, nat)>)
    requires |data| == width * height && y < height && FirstMarker(RunsOn(width, height, data, y), found)
    ensures found.None? ==> forall k :: !StripeOn(width, height, data, y, k)
    ensures found.Some? ==> found.value.0 <= found.value.1
  {
    hide RowAt, Runs, IsMarker;
    RowFits(width, height, y);
    var row := RowAt(width, data, y);
    RunsInOrder(row, |row|);
  }

  ghost predicate StripeOn(width: nat, height: nat, data: seq<Pixel>, y: int, k: int)
    requires |data| == width * height && 0 <= y < height
  {
    MarkerAt(RunsOn(width, height, data, y), k)
  }
}
