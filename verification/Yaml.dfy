/**
 The small YAML reader and writer of the translator: a dictionary of strings
 and lists of strings.  Text is a sequence of UTF-16 code units.
 */
module Yaml {
  import opened Unicode
  import opened Wrappers

  type Text = seq<Unit>

  datatype Value = Scalar(text: Text) | List(items: seq<Text>)

  datatype Entry = Entry(key: Text, value: Value)

  const NEWLINE: Unit := 10
  const SPACE: Unit := 32
  const DASH: Unit := 45
  const COLON: Unit := 58

  // "__proto__", the one key whose assignment stores nothing.
  const PROTO: Text := [95, 95, 112, 114, 111, 116, 111, 95, 95]

  // ----- Characters -----

  // \s, which is also what trim removes.
  predicate IsSpace(c: Unit) {
    9 <= c <= 13 || c == 32 || c == 0xA0 || c == 0x1680 || 0x2000 <= c <= 0x200A
    || c == 0x2028 || c == 0x2029 || c == 0x202F || c == 0x205F || c == 0x3000 || c == 0xFEFF
  }

  // What the dot of a regular expression does not match.
  predicate IsTerminator(c: Unit) {
    c == 10 || c == 13 || c == 0x2028 || c == 0x2029
  }

  predicate IsKeyStart(c: Unit) {
    48 <= c <= 57 || 65 <= c <= 90 || c == 95 || 97 <= c <= 122
  }

  predicate IsKeyUnit(c: Unit) {
    IsKeyStart(c) || c == DASH
  }

  predicate Spaces(s: Text, lo: int, hi: int)
    requires 0 <= lo && hi <= |s|
  {
    forall i :: lo <= i < hi ==> IsSpace(s[i])
  }

  predicate OneLine(s: Text, from: nat) {
    forall i :: from <= i < |s| ==> !IsTerminator(s[i])
  }

  predicate KeyUnits(s: Text, lo: int, hi: int)
    requires 0 <= lo && hi <= |s|
  {
    forall i :: lo <= i < hi ==> IsKeyUnit(s[i])
  }

  predicate IsKey(s: Text) {
    s != [] && IsKeyStart(s[0]) && KeyUnits(s, 0, |s|)
  }

  predicate Trimmed(s: Text) {
    s != [] ==> !IsSpace(s[0]) && !IsSpace(s[|s| - 1])
  }

  function TrimStart(s: Text): Text {
    if s == [] || !IsSpace(s[0]) then s else TrimStart(s[1..])
  }

  function TrimEnd(s: Text): Text {
    if s == [] || !IsSpace(s[|s| - 1]) then s else TrimEnd(s[..|s| - 1])
  }

  function Trim(s: Text): Text {
    TrimEnd(TrimStart(s))
  }

  // Trim cuts off space only, all of it, at both ends.
  lemma TrimCuts(s: Text) returns (a: nat, b: nat)
    ensures a <= b <= |s| && Trim(s) == s[a..b] && Spaces(s, 0, a) && Spaces(s, b, |s|)
    ensures Trimmed(Trim(s))
  {
    a := StartCut(s);
    var t := TrimStart(s);
    var end := EndCut(t);
    b := a + end;
    assert forall i :: b <= i < |s| ==> s[i] == t[i - a];
    assert end > 0 ==> t[..end][0] == t[0];
  }

  lemma {:induction false} StartCut(s: Text) returns (a: nat)
    ensures a <= |s| && TrimStart(s) == s[a..] && Spaces(s, 0, a)
    ensures a < |s| ==> !IsSpace(s[a])
  {
    if s == [] || !IsSpace(s[0]) {
      a := 0;
    } else {
      var b := StartCut(s[1..]);
      a := b + 1;
      assert forall i :: 0 < i < a ==> s[i] == s[1..][i - 1];
    }
  }

  lemma {:induction false} EndCut(s: Text) returns (b: nat)
    ensures b <= |s| && TrimEnd(s) == s[..b] && Spaces(s, b, |s|)
    ensures b > 0 ==> !IsSpace(s[b - 1])
  {
    if s == [] || !IsSpace(s[|s| - 1]) {
      b := |s|;
    } else {
      b := EndCut(s[..|s| - 1]);
    }
  }

  // ----- The two patterns of a line -----

  // The first index from `from` on that holds no space.
  function SpaceEnd(s: Text, from: nat): (end: nat)
    requires from <= |s|
    ensures from <= end <= |s| && Spaces(s, from, end) && (end < |s| ==> !IsSpace(s[end]))
    decreases |s| - from
  {
    if from == |s| || !IsSpace(s[from]) then from else SpaceEnd(s, from + 1)
  }

  function KeyEnd(s: Text, from: nat): (end: nat)
    requires from <= |s|
    ensures from <= end <= |s| && KeyUnits(s, from, end) && (end < |s| ==> !IsKeyUnit(s[end]))
    decreases |s| - from
  {
    if from == |s| || !IsKeyUnit(s[from]) then from else KeyEnd(s, from + 1)
  }

  lemma SpaceEndIs(s: Text, from: nat, p: nat)
    requires from <= p <= |s| && Spaces(s, from, p) && (p < |s| ==> !IsSpace(s[p]))
    ensures SpaceEnd(s, from) == p
  {
    var end := SpaceEnd(s, from);
  }

  lemma KeyEndIs(s: Text, from: nat, p: nat)
    requires from <= p <= |s| && KeyUnits(s, from, p) && (p < |s| ==> !IsKeyUnit(s[p]))
    ensures KeyEnd(s, from) == p
  {
    var end := KeyEnd(s, from);
  }

  // One way to match ^\s*-\s+(.+?)$ : the dash at i, the group from j.
  predicate ItemSplit(line: Text, i: int, j: int) {
    && 0 <= i < i + 1 < j < |line|
    && Spaces(line, 0, i) && line[i] == DASH && Spaces(line, i + 1, j) && OneLine(line, j)
  }

  // The group, taking as many spaces as possible first.
  function ItemOf(line: Text): Option<Text> {
    var i := SpaceEnd(line, 0);
    if i == |line| || line[i] != DASH then None
    else
      var end := SpaceEnd(line, i + 1);
      var j := if end < |line| then end else end - 1;
      if i + 1 < j && OneLine(line, j) then Some(line[j..]) else None
  }

  // A line matches exactly when there is a way to; the way taken is the
  // greediest, and the dash has only one place.
  lemma ItemOfIsGreedy(line: Text)
    ensures ItemOf(line).Some? <==> exists i, j :: ItemSplit(line, i, j)
    ensures ItemOf(line).Some? ==> exists i, j ::
      && ItemSplit(line, i, j) && ItemOf(line).value == line[j..]
      && forall p, q :: ItemSplit(line, p, q) ==> p == i && q <= j
  {
    var i := SpaceEnd(line, 0);
    forall p, q | ItemSplit(line, p, q)
      ensures p == i && ItemOf(line).Some? && q <= |line| - |ItemOf(line).value|
    {
      var end := SpaceEnd(line, i + 1);
    }
    if ItemOf(line).Some? {
      var end := SpaceEnd(line, i + 1);
      assert ItemSplit(line, i, if end < |line| then end else end - 1);
    }
  }

  // One way to match ^\s*([A-Za-z0-9_][A-Za-z0-9_-]*):\s*(.*)$ : the key from i
  // to the colon at k, the second group from j.
  predicate KeySplit(line: Text, i: int, k: int, j: int) {
    && 0 <= i < k < j <= |line|
    && Spaces(line, 0, i) && IsKeyStart(line[i]) && KeyUnits(line, i, k)
    && line[k] == COLON && Spaces(line, k + 1, j) && OneLine(line, j)
  }

  function KeyOf(line: Text): Option<Entry> {
    var i := SpaceEnd(line, 0);
    if i == |line| || !IsKeyStart(line[i]) then None
    else
      var k := KeyEnd(line, i);
      if k == |line| || line[k] != COLON then None
      else
        var j := SpaceEnd(line, k + 1);
        if OneLine(line, j) then Some(Entry(line[i..k], Scalar(line[j..]))) else None
  }

  lemma KeyOfIsGreedy(line: Text)
    ensures KeyOf(line).Some? <==> exists i, k, j :: KeySplit(line, i, k, j)
    ensures KeyOf(line).Some? ==> exists i, k, j ::
      && KeySplit(line, i, k, j) && KeyOf(line).value == Entry(line[i..k], Scalar(line[j..]))
      && forall p, q, r :: KeySplit(line, p, q, r) ==> p == i && q == k && r <= j
  {
    var i := SpaceEnd(line, 0);
    forall p, q, r | KeySplit(line, p, q, r)
      ensures p == i && KeyOf(line).Some? && q == KeyEnd(line, i) && r <= SpaceEnd(line, q + 1)
    {
    }
    if KeyOf(line).Some? {
      var k := KeyEnd(line, i);
      assert KeySplit(line, i, k, SpaceEnd(line, k + 1));
    }
  }

  // ----- The reader -----

  datatype State = State(key: Option<Text>, out: map<Text, Value>)

  // One line; None is a throw.  Before any key, and under the key "__proto__",
  // there is nothing in `out` to make a list of.
  function Step(st: State, line: Text): Option<State> {
    var item := ItemOf(line);
    if item.Some? then
      if st.key.None? || st.key.value !in st.out then None
      else
        var items := match st.out[st.key.value]
          case List(items) => items
          case Scalar(text) => if Trim(text) != [] then [text] else [];
        Some(State(st.key, st.out[st.key.value := List(items + [Trim(item.value)])]))
    else
      var entry := KeyOf(line);
      if entry.Some? then
        var key := entry.value.key;
        Some(State(Some(key), if key == PROTO then st.out else st.out[key := Scalar(Trim(entry.value.value.text))]))
      else if Trim(line) == [] then Some(st)
      else None
  }

  // What a list grows from: a list, or a string that is not blank as its first item.
  ghost predicate GrowsFrom(value: Value, items: seq<Text>) {
    match value
    case List(before) => items == before
    case Scalar(text) => items == if Spaces(text, 0, |text|) then [] else [text]
  }

  // A line that has a dash and a group is an item of the list under the last
  // key; one that has a key and a group sets it; a blank one does nothing; and
  // the reader throws on any other, and on an item with nothing to belong to.
  lemma LineIsRead(st: State, line: Text)
    ensures (exists i, j :: ItemSplit(line, i, j)) ==>
      if st.key.None? || st.key.value !in st.out then Step(st, line).None?
      else
        exists i, j, items ::
          && ItemSplit(line, i, j) && GrowsFrom(st.out[st.key.value], items)
          && Step(st, line) == Some(st.(out := st.out[st.key.value := List(items + [Trim(line[j..])])]))
    ensures !(exists i, j :: ItemSplit(line, i, j)) && (exists i, k, j :: KeySplit(line, i, k, j)) ==>
      exists i, k, j :: KeySplit(line, i, k, j) && Step(st, line) == Some(State(
        Some(line[i..k]), if line[i..k] == PROTO then st.out else st.out[line[i..k] := Scalar(Trim(line[j..]))]))
    ensures !(exists i, j :: ItemSplit(line, i, j)) && !(exists i, k, j :: KeySplit(line, i, k, j)) ==>
      Step(st, line) == if Spaces(line, 0, |line|) then Some(st) else None
  {
    hide ItemOf, KeyOf, ItemSplit, KeySplit, Trim, PROTO;
    ItemOfIsGreedy(line);
    KeyOfIsGreedy(line);
    BlankTrims(line);
    if st.key.Some? && st.key.value in st.out && ItemOf(line).Some? {
      var value := st.out[st.key.value];
      var items := match value case List(items) => items case Scalar(text) => if Trim(text) != [] then [text] else [];
      if value.Scalar? {
        BlankTrims(value.text);
      }
      assert GrowsFrom(value, items);
      assert Step(st, line) == Some(st.(out := st.out[st.key.value := List(items + [Trim(ItemOf(line).value)])]));
    }
  }

  lemma BlankTrims(s: Text)
    ensures Trim(s) == [] <==> Spaces(s, 0, |s|)
  {
    var a, b := TrimCuts(s);
  }

  function Steps(st: State, lines: seq<Text>): Option<State>
    decreases lines
  {
    if lines == [] then Some(st)
    else
      var next := Step(st, lines[0]);
      if next.None? then None else Steps(next.value, lines[1..])
  }

  // split('\n')
  function Lines(text: Text): (lines: seq<Text>)
    ensures lines != []
  {
    if text == [] then [[]]
    else
      var rest := Lines(text[1..]);
      if text[0] == NEWLINE then [[]] + rest else [[text[0]] + rest[0]] + rest[1..]
  }

  // The lines hold no newline, and put together with newlines they are the text.
  ghost function Joined(lines: seq<Text>): Text
    requires lines != []
  {
    if |lines| == 1 then lines[0] else lines[0] + [10] + Joined(lines[1..])
  }

  lemma {:induction false} LinesJoin(text: Text)
    ensures Joined(Lines(text)) == text
    ensures forall i :: 0 <= i < |Lines(text)| ==> 10 !in Lines(text)[i]
  {
    if text != [] {
      LinesJoin(text[1..]);
      var rest := Lines(text[1..]);
      if text[0] == NEWLINE {
        assert Lines(text)[1..] == rest;
        assert Joined(Lines(text)) == [] + [10] + Joined(rest);
      } else {
        JoinedFirst(text[0], rest);
      }
      assert text == [text[0]] + text[1..];
    }
  }

  lemma JoinedFirst(c: Unit, lines: seq<Text>)
    requires lines != []
    ensures Joined([[c] + lines[0]] + lines[1..]) == [c] + Joined(lines)
  {
    var more := [[c] + lines[0]] + lines[1..];
    assert more[1..] == lines[1..];
    if |lines| > 1 {
      assert [c] + lines[0] + [10] + Joined(lines[1..]) == [c] + (lines[0] + [10] + Joined(lines[1..]));
    }
  }

  function Parsed(text: Text): Option<map<Text, Value>> {
    var st := Steps(State(None, map[]), Lines(text));
    if st.None? then None else Some(st.value.out)
  }

  method Parse(text: Text) returns (result: Option<map<Text, Value>>)
    ensures result == Parsed(text)
  {
    var lines := Lines(text);
    var st := State(None, map[]);
    var i := 0;
    while i < |lines|
      invariant 0 <= i <= |lines|
      invariant Steps(st, lines[i..]) == Steps(State(None, map[]), lines)
    {
      var next := Step(st, lines[i]);
      assert lines[i..][1..] == lines[i + 1..];
      if next.None? {
        return None;
      }
      st := next.value;
      i := i + 1;
    }
    result := Some(st.out);
  }

  lemma {:induction false} StepsConcat(st: State, a: seq<Text>, b: seq<Text>)
    ensures Steps(st, a + b)
      == if Steps(st, a).None? then None else Steps(Steps(st, a).value, b)
    decreases a
  {
    hide Step;
    if a == [] {
      assert a + b == b;
    } else {
      assert (a + b)[1..] == a[1..] + b;
      if Step(st, a[0]).Some? {
        StepsConcat(Step(st, a[0]).value, a[1..], b);
      }
    }
  }

  // ----- The writer -----

  function ItemsText(items: seq<Text>): Text {
    if items == [] then []
    else [NEWLINE] + ItemLine(items[0]) + ItemsText(items[1..])
  }

  function ItemLine(item: Text): Text {
    [SPACE, SPACE, DASH, SPACE] + item
  }

  function ValueText(value: Value): Text {
    match value
    case Scalar(text) => text
    case List(items) => ItemsText(items)
  }

  // The entries in the order the object lists them.
  function Stringify(entries: seq<Entry>): Text {
    if entries == [] then []
    else entries[0].key + [COLON, SPACE] + ValueText(entries[0].value) + [NEWLINE] + Stringify(entries[1..])
  }

  // What is written: `key: text`, or `key: ` and each item after `\n  - `; and a newline.
  lemma WrittenFormat(key: Text, text: Text, items: seq<Text>)
    ensures Stringify([Entry(key, Scalar(text))]) == key + [58, 32] + text + [10]
    ensures Stringify([Entry(key, List(items))]) == key + [58, 32] + ItemsText(items) + [10]
    ensures items != [] ==> ItemsText(items) == [10, 32, 32, 45, 32] + items[0] + ItemsText(items[1..])
    ensures ItemsText([]) == []
  {
    var entry := Entry(key, Scalar(text));
    assert [entry][1..] == [];
    assert [Entry(key, List(items))][1..] == [];
    assert items != [] ==> [NEWLINE] + ItemLine(items[0]) == [10, 32, 32, 45, 32] + items[0];
  }

  lemma {:induction false} WrittenInTurn(entries: seq<Entry>, more: seq<Entry>)
    ensures Stringify(entries + more) == Stringify(entries) + Stringify(more)
  {
    if entries == [] {
      assert entries + more == more;
    } else {
      assert (entries + more)[1..] == entries[1..] + more;
      WrittenInTurn(entries[1..], more);
    }
  }

  // ----- What survives the round trip -----

  predicate Plain(s: Text) {
    Trimmed(s) && OneLine(s, 0)
  }

  // What reading can store under a key.
  predicate Storable(key: Text, value: Value) {
    && IsKey(key) && key != PROTO
    && match value
       case Scalar(text) => Plain(text)
       case List(items) => items != [] && forall i :: 0 <= i < |items| ==> Plain(items[i])
  }

  predicate NoEmptyItem(value: Value) {
    value.List? ==> forall i :: 0 <= i < |value.items| ==> value.items[i] != []
  }

  predicate Survives(e: Entry) {
    Storable(e.key, e.value) && NoEmptyItem(e.value)
  }

  predicate AllSurvive(entries: seq<Entry>) {
    forall i :: 0 <= i < |entries| ==> Survives(entries[i])
  }

  predicate AllStorable(entries: seq<Entry>) {
    forall i :: 0 <= i < |entries| ==> Storable(entries[i].key, entries[i].value)
  }

  predicate DistinctKeys(entries: seq<Entry>) {
    forall i, j :: 0 <= i < j < |entries| ==> entries[i].key != entries[j].key
  }

  function Dictionary(entries: seq<Entry>, out: map<Text, Value>): map<Text, Value> {
    if entries == [] then out else Dictionary(entries[1..], out[entries[0].key := entries[0].value])
  }

  lemma {:induction false} DictionaryHolds(entries: seq<Entry>, out: map<Text, Value>)
    requires DistinctKeys(entries)
    ensures var d := Dictionary(entries, out);
      && (forall i :: 0 <= i < |entries| ==> entries[i].key in d && d[entries[i].key] == entries[i].value)
      && (forall k :: k in out && (forall i :: 0 <= i < |entries| ==> entries[i].key != k) ==> k in d && d[k] == out[k])
  {
    if entries != [] {
      var rest := entries[1..];
      var next := out[entries[0].key := entries[0].value];
      DictionaryHolds(rest, next);
      assert forall i :: 0 < i < |entries| ==> entries[i] == rest[i - 1];
      assert entries[0].key in next;
    }
  }

  // ----- Lines of what is written -----

  lemma {:induction false} LinesAfter(line: Text, rest: Text)
    requires OneLine(line, 0)
    ensures Lines(line + [NEWLINE] + rest) == [line] + Lines(rest)
  {
    var text := line + [NEWLINE] + rest;
    if line == [] {
      assert text[1..] == rest;
    } else {
      LinesAfter(line[1..], rest);
      assert text[1..] == line[1..] + [NEWLINE] + rest;
      assert text[0] == line[0] && [line[0]] + line[1..] == line;
    }
  }

  function KeyLine(key: Text, text: Text): Text {
    key + [COLON, SPACE] + text
  }

  function ItemLines(items: seq<Text>): seq<Text> {
    if items == [] then [] else [ItemLine(items[0])] + ItemLines(items[1..])
  }

  function EntryLines(e: Entry): seq<Text> {
    match e.value
    case Scalar(text) => [KeyLine(e.key, text)]
    case List(items) => [KeyLine(e.key, [])] + ItemLines(items)
  }

  function AllLines(entries: seq<Entry>): seq<Text> {
    if entries == [] then [] else EntryLines(entries[0]) + AllLines(entries[1..])
  }

  lemma ItemLineIsOneLine(item: Text)
    requires OneLine(item, 0)
    ensures OneLine(ItemLine(item), 0)
  {
    var line := ItemLine(item);
    assert forall i :: 4 <= i < |line| ==> line[i] == item[i - 4];
  }

  lemma {:induction false} ItemsLines(line: Text, items: seq<Text>, rest: Text)
    requires OneLine(line, 0)
    requires forall i :: 0 <= i < |items| ==> Plain(items[i])
    ensures Lines(line + ItemsText(items) + [NEWLINE] + rest) == [line] + ItemLines(items) + Lines(rest)
    decreases items
  {
    hide Lines, ItemLine, OneLine;
    if items == [] {
      LinesAfter(line, rest);
      assert line + [] + [NEWLINE] + rest == line + [NEWLINE] + rest;
      assert [line] + [] + Lines(rest) == [line] + Lines(rest);
    } else {
      var item, tail := ItemLine(items[0]), ItemsText(items[1..]);
      ItemLineIsOneLine(items[0]);
      ItemsLines(item, items[1..], rest);
      LinesAfter(line, item + tail + [NEWLINE] + rest);
      Regroup(line, [NEWLINE], item, tail, [NEWLINE] + rest);
      assert line + ItemsText(items) + [NEWLINE] + rest == line + ItemsText(items) + ([NEWLINE] + rest);
      assert item + tail + [NEWLINE] + rest == item + tail + ([NEWLINE] + rest);
      Regroup([line], [item], ItemLines(items[1..]), Lines(rest), []);
    }
  }

  lemma Regroup<T>(a: seq<T>, b: seq<T>, c: seq<T>, d: seq<T>, e: seq<T>)
    ensures a + (b + c + d) + e == a + b + (c + d + e)
    ensures a + (b + c) + d == a + (b + c + d)
  {
  }

  lemma KeyLineIsOneLine(key: Text, text: Text)
    requires IsKey(key) && OneLine(text, 0)
    ensures OneLine(KeyLine(key, text), 0)
  {
    var line := KeyLine(key, text);
    assert forall i :: |key| + 2 <= i < |line| ==> line[i] == text[i - |key| - 2];
    assert forall i :: 0 <= i < |key| ==> IsKeyUnit(key[i]);
  }

  lemma {:induction false} LinesOfWritten(entries: seq<Entry>)
    requires AllStorable(entries)
    ensures Lines(Stringify(entries)) == AllLines(entries) + [[]]
  {
    hide Storable;
    if entries != [] {
      LinesOfWritten(entries[1..]);
      LinesOfEntry(entries[0], Stringify(entries[1..]));
      assert EntryLines(entries[0]) + (AllLines(entries[1..]) + [[]])
        == EntryLines(entries[0]) + AllLines(entries[1..]) + [[]];
    }
  }

  lemma LinesOfEntry(e: Entry, rest: Text)
    requires Storable(e.key, e.value)
    ensures Lines(e.key + [COLON, SPACE] + ValueText(e.value) + [NEWLINE] + rest) == EntryLines(e) + Lines(rest)
  {
    match e.value
    case Scalar(text) =>
      KeyLineIsOneLine(e.key, text);
      LinesAfter(KeyLine(e.key, text), rest);
    case List(items) =>
      KeyLineIsOneLine(e.key, []);
      assert e.key + [COLON, SPACE] == KeyLine(e.key, []);
      ItemsLines(KeyLine(e.key, []), items, rest);
  }

  // ----- Reading what was written -----

  lemma ReadKeyLine(st: State, key: Text, text: Text)
    requires IsKey(key) && Plain(text)
    ensures Step(st, KeyLine(key, text))
      == Some(State(Some(key), if key == PROTO then st.out else st.out[key := Scalar(text)]))
  {
    var line := KeyLine(key, text);
    assert line[0] == key[0];
    SpaceEndIs(line, 0, 0);
    assert forall i :: 0 <= i < |key| ==> line[i] == key[i];
    assert line[|key|] == COLON && line[|key| + 1] == SPACE;
    KeyEndIs(line, 0, |key|);
    assert forall i :: |key| + 2 <= i < |line| ==> line[i] == text[i - |key| - 2];
    SpaceEndIs(line, |key| + 1, |key| + 2);
    assert line[0..|key|] == key && line[|key| + 2..] == text;
  }

  lemma ItemLineReads(item: Text)
    requires Plain(item)
    ensures ItemOf(ItemLine(item)) == if item == [] then None else Some(item)
  {
    var line := ItemLine(item);
    assert forall i :: 4 <= i < |line| ==> line[i] == item[i - 4];
    SpaceEndIs(line, 0, 2);
    SpaceEndIs(line, 3, 4);
    assert line[4..] == item;
  }

  // An empty item is written as a line that cannot be read back.
  lemma EmptyItemThrows(st: State)
    ensures Step(st, ItemLine([])).None?
  {
    var line := ItemLine([]);
    ItemLineReads([]);
    SpaceEndIs(line, 0, 2);
    var a, b := TrimCuts(line);
  }

  lemma ReadItem(key: Text, out: map<Text, Value>, done: seq<Text>, item: Text)
    requires key in out && out[key] == if done == [] then Scalar([]) else List(done)
    requires Plain(item) && item != []
    ensures Step(State(Some(key), out), ItemLine(item)) == Some(State(Some(key), out[key := List(done + [item])]))
  {
    ItemLineReads(item);
  }

  lemma {:induction false} ReadItems(key: Text, out: map<Text, Value>, done: seq<Text>, items: seq<Text>)
    requires key in out && out[key] == if done == [] then Scalar([]) else List(done)
    requires forall i :: 0 <= i < |items| ==> Plain(items[i]) && items[i] != []
    ensures Steps(State(Some(key), out), ItemLines(items))
      == Some(State(Some(key), if items == [] then out else out[key := List(done + items)]))
    decreases items
  {
    hide Step, Plain, ItemLine;
    if items != [] {
      var next := out[key := List(done + [items[0]])];
      ReadItem(key, out, done, items[0]);
      ReadItems(key, next, done + [items[0]], items[1..]);
      assert done + [items[0]] + items[1..] == done + items;
      assert items[1..] == [] ==> done + [items[0]] == done + items;
      assert next[key := List(done + items)] == out[key := List(done + items)];
    }
  }

  lemma ReadEntry(st: State, e: Entry)
    requires Survives(e)
    ensures Steps(st, EntryLines(e)) == Some(State(Some(e.key), st.out[e.key := e.value]))
  {
    match e.value
    case Scalar(text) =>
      ReadKeyLine(st, e.key, text);
    case List(items) =>
      ReadKeyLine(st, e.key, []);
      var out := st.out[e.key := Scalar([])];
      ReadItems(e.key, out, [], items);
      assert [] + items == items;
      assert out[e.key := List(items)] == st.out[e.key := List(items)];
  }

  lemma {:induction false} ReadEntries(st: State, entries: seq<Entry>)
    requires AllSurvive(entries)
    ensures var end := Steps(st, AllLines(entries) + [[]]);
      end.Some? && end.value.out == Dictionary(entries, st.out)
    decreases entries
  {
    hide Survives, Step;
    if entries == [] {
      BlankLine(st);
      assert AllLines(entries) + [[]] == [[]];
    } else {
      var e, rest := entries[0], entries[1..];
      ReadEntry(st, e);
      StepsConcat(st, EntryLines(e), AllLines(rest) + [[]]);
      assert AllLines(entries) + [[]] == EntryLines(e) + (AllLines(rest) + [[]]);
      ReadEntries(State(Some(e.key), st.out[e.key := e.value]), rest);
    }
  }

  lemma BlankLine(st: State)
    ensures Steps(st, [[]]) == Some(st)
  {
    var blank: seq<Text> := [[]];
    assert Step(st, []) == Some(st);
    assert blank[1..] == [];
  }

  // ----- What reading can give at all -----

  predicate OutStorable(out: map<Text, Value>) {
    forall k :: k in out ==> Storable(k, out[k])
  }

  lemma {:induction false} StepsStore(st: State, lines: seq<Text>)
    requires OutStorable(st.out)
    ensures var end := Steps(st, lines);
      end.Some? ==> OutStorable(end.value.out)
    decreases lines
  {
    hide Step, OutStorable;
    if lines != [] {
      StepStores(st, lines[0]);
      if Step(st, lines[0]).Some? {
        StepsStore(Step(st, lines[0]).value, lines[1..]);
      }
    }
  }

  lemma StepStores(st: State, line: Text)
    requires OutStorable(st.out)
    ensures var next := Step(st, line);
      next.Some? ==> OutStorable(next.value.out)
  {
    if ItemOf(line).Some? {
      TrimIsPlain(ItemOf(line).value);
    } else if KeyOf(line).Some? {
      TrimIsPlain(KeyOf(line).value.value.text);
      assert IsKey(KeyOf(line).value.key);
    }
  }

  lemma TrimIsPlain(s: Text)
    requires OneLine(s, 0)
    ensures Plain(Trim(s))
  {
    var a, b := TrimCuts(s);
    assert forall i :: 0 <= i < b - a ==> s[a..b][i] == s[a + i];
  }

  // ----- The round trip -----

  lemma {:induction false} EmptyItemLine(items: seq<Text>, i: nat)
    requires i < |items| && items[i] == []
    ensures ItemLine([]) in ItemLines(items)
  {
    if i > 0 {
      EmptyItemLine(items[1..], i - 1);
    }
  }

  lemma {:induction false} LineOfEntryIn(entries: seq<Entry>, i: nat, line: Text)
    requires i < |entries| && line in EntryLines(entries[i])
    ensures line in AllLines(entries)
  {
    if i > 0 {
      LineOfEntryIn(entries[1..], i - 1, line);
    }
  }

  lemma {:induction false} ThrowsOn(st: State, lines: seq<Text>)
    requires ItemLine([]) in lines
    ensures Steps(st, lines).None?
    decreases lines
  {
    hide Step;
    if lines[0] == ItemLine([]) {
      EmptyItemThrows(st);
    } else if Step(st, lines[0]).Some? {
      ThrowsOn(Step(st, lines[0]).value, lines[1..]);
    }
  }

  // Reading back what was written gives the dictionary back, in whatever order
  // its entries are listed, exactly when every entry survives.
  lemma RoundTrip(entries: seq<Entry>)
    requires DistinctKeys(entries)
    ensures Parsed(Stringify(entries)) == Some(Dictionary(entries, map[])) <==> AllSurvive(entries)
  {
    hide Step, Survives, Storable;
    var start := State(None, map[]);
    if AllSurvive(entries) {
      SurvivorsAreStorable(entries);
      LinesOfWritten(entries);
      ReadEntries(start, entries);
    } else if Parsed(Stringify(entries)) == Some(Dictionary(entries, map[])) {
      StepsStore(start, Lines(Stringify(entries)));
      DictionaryHolds(entries, map[]);
      LinesOfWritten(entries);
      Unreadable(entries);
      assert false;
    }
  }

  lemma SurvivorsAreStorable(entries: seq<Entry>)
    requires AllSurvive(entries)
    ensures AllStorable(entries)
  {
  }

  lemma Unreadable(entries: seq<Entry>)
    requires AllStorable(entries) && !AllSurvive(entries)
    ensures Steps(State(None, map[]), AllLines(entries) + [[]]).None?
  {
    var i :| 0 <= i < |entries| && !Survives(entries[i]);
    var items := entries[i].value.items;
    var j :| 0 <= j < |items| && items[j] == [];
    EmptyItemLine(items, j);
    LineOfEntryIn(entries, i, ItemLine([]));
    ThrowsOn(State(None, map[]), AllLines(entries) + [[]]);
  }

  // The special key loses its value, so a dictionary that has it never survives.
  lemma ProtoIsLost(text: Text)
    requires Plain(text)
    ensures Parsed(Stringify([Entry(PROTO, Scalar(text))])) == Some(map[])
  {
    hide Step;
    var line := KeyLine(PROTO, text);
    KeyLineIsOneLine(PROTO, text);
    LinesAfter(line, []);
    assert Stringify([Entry(PROTO, Scalar(text))]) == line + [NEWLINE] + [];
    ReadKeyLine(State(None, map[]), PROTO, text);
    BlankLine(State(Some(PROTO), map[]));
    assert ([line] + [[]])[1..] == [[]];
  }
}
