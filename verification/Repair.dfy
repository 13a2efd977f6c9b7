/** Repair of ill-formed UTF-16: a surrogate outside a pair becomes U+FFFD. */
module Repair {
  import opened Unicode

  const REPLACEMENT: Unit := 0xFFFD

  // Whether the unit at `k` is one half of a surrogate pair.
  predicate Paired(s: seq<Unit>, k: nat)
    requires k < |s|
  {
    || (IsHigh(s[k]) && k + 1 < |s| && IsLow(s[k + 1]))
    || (IsLow(s[k]) && k > 0 && IsHigh(s[k - 1]))
  }

  // Unit by unit, what repair makes of a string.
  function Normalized(s: seq<Unit>): (t: seq<Unit>)
    ensures |t| == |s|
  {
    seq(|s|, k requires 0 <= k < |s| => if IsSurrogate(s[k]) && !Paired(s, k) then REPLACEMENT else s[k])
  }

  // normalizeUtf16.
  method NormalizeUtf16(text: seq<Unit>) returns (normalized: seq<Unit>)
    ensures normalized == Normalized(text) && |normalized| == |text|
    ensures forall k :: 0 <= k < |text| ==>
      normalized[k] == if IsSurrogate(text[k]) && !Paired(text, k) then 0xFFFD else text[k]
  {
    normalized := [];
    var index := 0;
    while index < |text|
      invariant 0 <= index <= |text|
      invariant normalized == Normalized(text)[..index]
      invariant 0 < index < |text| && IsHigh(text[index - 1]) ==> !IsLow(text[index])
    {
      var codeUnit := text[index];
      if 0xD800 <= codeUnit <= 0xDBFF {
        if index + 1 < |text| && 0xDC00 <= text[index + 1] <= 0xDFFF {
          normalized := normalized + [text[index], text[index + 1]];
          index := index + 1;
        } else {
          normalized := normalized + [REPLACEMENT];
        }
      } else if 0xDC00 <= codeUnit <= 0xDFFF {
        normalized := normalized + [REPLACEMENT];
      } else {
        normalized := normalized + [text[index]];
      }
      index := index + 1;
    }
  }

  // A string is well formed when all its surrogates are paired.
  lemma {:induction false} WellFormedIsPaired(s: seq<Unit>)
    ensures WellFormed(s) <==> forall k :: 0 <= k < |s| && IsSurrogate(s[k]) ==> Paired(s, k)
  {
    if s != [] {
      var n := if IsHigh(s[0]) && |s| >= 2 && IsLow(s[1]) then 2 else 1;
      if n == 2 || !IsSurrogate(s[0]) {
        WellFormedIsPaired(s[n..]);
        RestIsPaired(s, n);
      } else {
        assert IsSurrogate(s[0]) && !Paired(s, 0);
      }
    }
  }

  // A cut that splits no pair leaves every unit as paired as it was.
  ghost predicate CleanCut(s: seq<Unit>, n: nat) {
    0 < n < |s| ==> !(IsHigh(s[n - 1]) && IsLow(s[n]))
  }

  lemma PairedInRest(s: seq<Unit>, n: nat)
    requires n <= |s| && CleanCut(s, n)
    ensures forall k :: 0 <= k < |s| - n ==> s[n..][k] == s[n + k] && (Paired(s[n..], k) <==> Paired(s, n + k))
    ensures forall k :: 0 <= k < n ==> s[..n][k] == s[k] && (Paired(s[..n], k) <==> Paired(s, k))
  {
  }

  lemma RestIsPaired(s: seq<Unit>, n: nat)
    requires n <= |s| && CleanCut(s, n)
    ensures (forall k :: n <= k < |s| && IsSurrogate(s[k]) ==> Paired(s, k))
       <==> (forall k :: 0 <= k < |s[n..]| && IsSurrogate(s[n..][k]) ==> Paired(s[n..], k))
  {
    hide Paired;
    PairedInRest(s, n);
    forall k | n <= k < |s|
      ensures s[k] == s[n..][k - n] && (Paired(s[n..], k - n) <==> Paired(s, k))
    {
      assert s[n..][k - n] == s[n + (k - n)];
    }
  }

  // Repair gives well-formed text, leaves exactly the well-formed strings as
  // they are, and a second repair changes nothing.
  lemma RepairIsWellFormed(s: seq<Unit>)
    ensures WellFormed(Normalized(s))
    ensures Normalized(s) == s <==> WellFormed(s)
    ensures Normalized(Normalized(s)) == Normalized(s)
  {
    var t := Normalized(s);
    forall k | 0 <= k < |t| && IsSurrogate(t[k])
      ensures Paired(t, k)
    {
      assert Paired(s, k);
    }
    WellFormedIsPaired(t);
    WellFormedIsPaired(s);
    if WellFormed(s) {
      assert t == s;
    }
    assert forall k :: 0 <= k < |t| ==> Normalized(t)[k] == t[k];
  }

  // Repair works piece by piece exactly at the cuts that split no pair.
  lemma RepairByPieces(s: seq<Unit>, n: nat)
    requires n <= |s|
    ensures Normalized(s) == Normalized(s[..n]) + Normalized(s[n..]) <==> CleanCut(s, n)
  {
    var pieces := Normalized(s[..n]) + Normalized(s[n..]);
    if CleanCut(s, n) {
      PairedInRest(s, n);
      assert forall k :: 0 <= k < n ==> Normalized(s[..n])[k] == Normalized(s)[k];
      assert forall k :: 0 <= k < |s| - n ==> Normalized(s[n..])[k] == Normalized(s)[n + k];
    } else {
      assert !Paired(s[..n], n - 1) && Paired(s, n - 1);
      assert pieces[n - 1] == REPLACEMENT && Normalized(s)[n - 1] == s[n - 1];
    }
  }
}
