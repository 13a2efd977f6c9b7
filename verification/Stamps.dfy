/**
 The hybrid logical clock that orders the writes of all devices: a wall time,
 a counter, and the id of the writer.
 */
module Stamps {
  import opened Unicode
  import opened Wrappers

  type U32 = x: int | 0 <= x < 0x1_0000_0000
  type U64 = x: int | 0 <= x < 0x1_0000_0000_0000_0000

  type Writer = seq<Byte>

  datatype Stamp = Stamp(physical: U64, logical: U32, writer: Writer)

  // A version 4 UUID in lower case.
  predicate ValidWriter(w: Writer) {
    && |w| == 36 && w[14] == 52 && w[19] in {56, 57, 97, 98}
    && forall i :: 0 <= i < 36 ==>
         if i in {8, 13, 18, 23} then w[i] == 45 else 48 <= w[i] <= 57 || 97 <= w[i] <= 102
  }

  // ----- The order -----

  predicate BytesBefore(a: seq<Byte>, b: seq<Byte>) {
    if b == [] then false
    else if a == [] then true
    else a[0] < b[0] || (a[0] == b[0] && BytesBefore(a[1..], b[1..]))
  }

  predicate TimeBefore(a: Stamp, b: Stamp) {
    a.physical < b.physical || (a.physical == b.physical && a.logical < b.logical)
  }

  predicate Before(a: Stamp, b: Stamp) {
    TimeBefore(a, b) || (a.physical == b.physical && a.logical == b.logical && BytesBefore(a.writer, b.writer))
  }

  lemma {:induction false} BytesTrichotomy(a: seq<Byte>, b: seq<Byte>)
    ensures a == b || BytesBefore(a, b) || BytesBefore(b, a)
    ensures !(BytesBefore(a, b) && BytesBefore(b, a)) && !BytesBefore(a, a)
    decreases |a| + |b|
  {
    if a != [] {
      BytesTrichotomy(a[1..], if b == [] then [] else b[1..]);
      assert a == [a[0]] + a[1..];
      assert b != [] ==> b == [b[0]] + b[1..];
    }
  }

  lemma {:induction false} BytesTransitive(a: seq<Byte>, b: seq<Byte>, c: seq<Byte>)
    requires BytesBefore(a, b) && BytesBefore(b, c)
    ensures BytesBefore(a, c)
  {
    if a != [] && a[0] == b[0] == c[0] {
      BytesTransitive(a[1..], b[1..], c[1..]);
    }
  }

  // Two writers differ first at `i`, where the earlier one ends or has the lesser byte.
  ghost predicate FirstDiffer(a: seq<Byte>, b: seq<Byte>, i: nat) {
    i <= |a| && i < |b| && a[..i] == b[..i] && (i == |a| || a[i] < b[i])
  }

  lemma {:induction false} BytesBeforeIsFirstDifference(a: seq<Byte>, b: seq<Byte>)
    ensures BytesBefore(a, b) <==> exists i: nat :: FirstDiffer(a, b, i)
  {
    if a != [] && b != [] {
      BytesBeforeIsFirstDifference(a[1..], b[1..]);
      if i: nat :| FirstDiffer(a, b, i) {
        assert i > 0 ==> FirstDiffer(a[1..], b[1..], i - 1) && a[0] == a[..i][0] && b[0] == b[..i][0] by {
          assert i > 0 ==> a[1..][..i - 1] == a[..i][1..] && b[1..][..i - 1] == b[..i][1..];
        }
      }
      if a[0] == b[0] && exists i: nat :: FirstDiffer(a[1..], b[1..], i) {
        var i: nat :| FirstDiffer(a[1..], b[1..], i);
        assert a[..i + 1] == [a[0]] + a[1..][..i] && b[..i + 1] == [b[0]] + b[1..][..i];
        assert FirstDiffer(a, b, i + 1);
      }
      assert a[0] < b[0] ==> FirstDiffer(a, b, 0);
    } else {
      assert b != [] ==> FirstDiffer(a, b, 0);
    }
  }

  // Stamps are totally ordered.
  lemma BeforeIsTotal(a: Stamp, b: Stamp)
    ensures a == b || Before(a, b) || Before(b, a)
    ensures !(Before(a, b) && Before(b, a)) && !Before(a, a)
  {
    BytesTrichotomy(a.writer, b.writer);
    BytesTrichotomy(a.writer, a.writer);
  }

  lemma BeforeIsTransitive(a: Stamp, b: Stamp, c: Stamp)
    requires Before(a, b) && Before(b, c)
    ensures Before(a, c)
  {
    if BytesBefore(a.writer, b.writer) && BytesBefore(b.writer, c.writer) {
      BytesTransitive(a.writer, b.writer, c.writer);
    }
  }

  // ----- Issuing -----

  datatype Issue = Issued(stamp: Stamp) | InvalidWriter | CounterOverflow

  function Later(a: int, b: int): int {
    if a < b then b else a
  }

  function PhysicalOf(s: Option<Stamp>, wall: int): int {
    if s.Some? then Later(wall, s.value.physical) else wall
  }

  // One past the counter of a stamp at this time, 0 with none.
  function NextAfter(s: Option<Stamp>, physical: int): int {
    if s.Some? && s.value.physical == physical then s.value.logical + 1 else 0
  }

  // issue_stamp: after the last stamp issued here and the latest one observed.
  function IssueStamp(wall: U64, writer: Writer, last: Option<Stamp>, observed: Option<Stamp>): Issue {
    if !ValidWriter(writer) || !ValidStamp(last) || !ValidStamp(observed) then InvalidWriter
    else
      var physical := PhysicalOf(observed, PhysicalOf(last, wall));
      var logical := Later(NextAfter(last, physical), NextAfter(observed, physical));
      if logical >= 0x1_0000_0000 then CounterOverflow else Issued(Stamp(physical, logical, writer))
  }

  predicate ValidStamp(s: Option<Stamp>) {
    s.Some? ==> ValidWriter(s.value.writer)
  }

  ghost predicate AfterBoth(s: Stamp, wall: U64, last: Option<Stamp>, observed: Option<Stamp>) {
    && s.physical >= wall
    && (last.Some? ==> TimeBefore(last.value, s)) && (observed.Some? ==> TimeBefore(observed.value, s))
  }

  // What is issued is not before the wall clock and after both stamps, and no
  // time earlier than it is; none is issued only when there is no such time
  // with the counter in range at the latest of the three.
  lemma IssueIsNext(wall: U64, writer: Writer, last: Option<Stamp>, observed: Option<Stamp>)
    ensures var r := IssueStamp(wall, writer, last, observed);
      && (r.InvalidWriter? <==> !ValidWriter(writer) || !ValidStamp(last) || !ValidStamp(observed))
      && (r.Issued? ==> r.stamp.writer == writer && AfterBoth(r.stamp, wall, last, observed))
      && (r.Issued? ==> forall s :: AfterBoth(s, wall, last, observed) ==> !TimeBefore(s, r.stamp))
      && (r.CounterOverflow? ==> forall s :: AfterBoth(s, wall, last, observed) ==>
            s.physical > PhysicalOf(observed, PhysicalOf(last, wall)))
  {
  }
}
