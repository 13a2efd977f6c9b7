/**
 The planner of synthetic backups of an exact decoded size.  Values are encoded
 as MessagePack; only the lengths of their strings matter here.
 */
module FixturePlan {
  import opened Wrappers

  // A value by the lengths of its strings and keys; `Zero` is the number 0.
  datatype Value =
    | Str(bytes: nat)
    | Zero
    | Arr(items: seq<Value>)
    | Obj(fields: seq<Field>)

  datatype Field = Field(keyBytes: nat, value: Value)

  // ----- Encoded sizes -----

  // The str format family: fixstr, str 8, str 16 and str 32.
  function StrSize(n: nat): nat {
    n + (if n < 32 then 1 else if n < 0x100 then 2 else if n < 0x1_0000 then 3 else 5)
  }

  // The array format family.
  function ArrHeader(n: nat): nat {
    if n < 16 then 1 else if n < 0x1_0000 then 3 else 5
  }

  // `header` is what the encoder spends on an object's own header.
  function Size(v: Value, header: nat): nat
    decreases v, 1
  {
    match v
    case Str(n) => StrSize(n)
    case Zero => 1
    case Arr(items) => ArrHeader(|items|) + SizeAll(items, header)
    case Obj(fields) => header + FieldsSize(fields, header)
  }

  function SizeAll(vs: seq<Value>, header: nat): nat
    decreases vs, 0
  {
    if vs == [] then 0 else Size(vs[0], header) + SizeAll(vs[1..], header)
  }

  function FieldsSize(fs: seq<Field>, header: nat): nat
    decreases fs, 0
  {
    if fs == [] then 0 else FieldSize(fs[0], header) + FieldsSize(fs[1..], header)
  }

  function FieldSize(f: Field, header: nat): nat
    decreases f, 0
  {
    StrSize(f.keyBytes) + Size(f.value, header)
  }

  // Values of one size take that size each.
  lemma {:induction false} SizeAllEqual(vs: seq<Value>, header: nat, size: nat)
    requires forall i :: 0 <= i < |vs| ==> Size(vs[i], header) == size
    ensures SizeAll(vs, header) == |vs| * size
  {
    hide Size;
    if vs != [] {
      SizeAllEqual(vs[1..], header, size);
      OneMore(|vs[1..]|, size);
    }
  }

  lemma OneMore(n: nat, size: nat)
    ensures (n + 1) * size == size + n * size
  {
  }

  // ----- The text of a message -----

  const WORDS: seq<string> :=
    ["synthetic", "conversation", "message", "fixture", "chapter", "window",
     "river", "forest", "response", "question", "morning", "evening"]

  // A letter or a space, one byte in UTF-8.
  predicate IsPlain(c: char) {
    c == ' ' || 'a' <= c <= 'z'
  }

  function NextSeed(seed: nat): nat {
    (seed * 1664525 + 1013904223) % 0x1_0000_0000
  }

  function Word(seed: nat): (word: string)
    ensures |word| > 0
  {
    WORDS[seed % |WORDS|] + " "
  }

  // Words drawn by a linear congruence, cut to exactly the bytes asked for.
  function WordsFrom(bytes: nat, seed: nat): (text: string)
    ensures |text| == bytes
  {
    if bytes == 0 then []
    else
      var word := Word(NextSeed(seed));
      if |word| >= bytes then word[..bytes] else word + WordsFrom(bytes - |word|, NextSeed(seed))
  }

  // text: of one-byte letters and spaces, so its length in bytes is its length.
  method Text(bytes: nat, seed0: nat) returns (text: string)
    ensures text == WordsFrom(bytes, seed0) && |text| == bytes
    ensures forall i :: 0 <= i < bytes ==> IsPlain(text[i])
  {
    hide Word, NextSeed, WordsFrom;
    var seed := seed0;
    text := "";
    assert bytes > 0 ==> "" + WordsFrom(bytes, seed0) == WordsFrom(bytes, seed0);
    while |text| < bytes
      invariant forall i :: 0 <= i < |text| ==> IsPlain(text[i])
      invariant WordsFrom(bytes, seed0)
        == if |text| >= bytes then text[..bytes] else text + WordsFrom(bytes - |text|, seed)
      decreases bytes - |text|
    {
      DrawOne(text, bytes, seed);
      seed := NextSeed(seed);
      var word := Word(seed);
      WordIsPlain(seed);
      text := text + word;
    }
    text := text[..bytes];
  }

  lemma DrawOne(text: string, bytes: nat, seed: nat)
    requires |text| < bytes
    ensures var next := text + Word(NextSeed(seed));
      text + WordsFrom(bytes - |text|, seed)
      == if |next| >= bytes then next[..bytes] else next + WordsFrom(bytes - |next|, NextSeed(seed))
  {
    hide Word, NextSeed;
    var word := Word(NextSeed(seed));
    assert |text + word| >= bytes ==> (text + word)[..bytes] == text + word[..bytes - |text|];
  }

  // The words that the seeds after the first draw, each with a space.
  ghost function Drawn(seeds: seq<nat>): string {
    if |seeds| <= 1 then "" else Drawn(seeds[..|seeds| - 1]) + WORDS[seeds[|seeds| - 1] % 12] + " "
  }

  // The text is those words, cut to the bytes asked for, whatever seeds follow
  // one another by the congruence.
  lemma {:induction false} TextIsDrawn(bytes: nat, seeds: seq<nat>)
    requires |seeds| > 0
    requires forall k :: 0 < k < |seeds| ==> seeds[k] == (seeds[k - 1] * 1664525 + 1013904223) % 4294967296
    ensures var drawn, text := Drawn(seeds), WordsFrom(bytes, seeds[0]);
      if |drawn| >= bytes then text == drawn[..bytes]
      else text == drawn + WordsFrom(bytes - |drawn|, seeds[|seeds| - 1])
  {
    hide WordsFrom, WORDS, Drawn, Word, NextSeed;
    if |seeds| > 1 {
      var before, last := seeds[..|seeds| - 1], seeds[|seeds| - 1];
      TextIsDrawn(bytes, before);
      DrawnNext(seeds);
      assert before[|before| - 1] == seeds[|seeds| - 2];
      if |Drawn(before)| < bytes {
        DrawOne(Drawn(before), bytes, seeds[|seeds| - 2]);
      } else {
        CutTwice(Drawn(before), Word(last), bytes);
      }
    } else {
      NoneDrawn(seeds, bytes);
    }
  }

  lemma DrawnNext(seeds: seq<nat>)
    requires |seeds| > 1
    requires seeds[|seeds| - 1] == (seeds[|seeds| - 2] * 1664525 + 1013904223) % 4294967296
    ensures Drawn(seeds) == Drawn(seeds[..|seeds| - 1]) + Word(seeds[|seeds| - 1])
    ensures NextSeed(seeds[|seeds| - 2]) == seeds[|seeds| - 1]
  {
    hide WORDS;
    assert |WORDS| == 12 by {
      TwelveWords();
    }
  }

  lemma TwelveWords()
    ensures |WORDS| == 12
  {
  }

  lemma CutTwice(s: string, t: string, n: nat)
    requires n <= |s|
    ensures (s + t)[..n] == s[..n]
  {
  }

  lemma NoneDrawn(seeds: seq<nat>, bytes: nat)
    requires |seeds| == 1
    ensures Drawn(seeds) == "" && "" + WordsFrom(bytes, seeds[0]) == WordsFrom(bytes, seeds[0])
    ensures bytes == 0 ==> WordsFrom(bytes, seeds[0]) == ""[..0]
  {
    hide Word;
  }

  lemma WordIsPlain(seed: nat)
    ensures forall j :: 0 <= j < |Word(seed)| ==> IsPlain(Word(seed)[j])
  {
    WordsArePlain(seed % |WORDS|);
  }

  lemma WordsArePlain(i: nat)
    requires i < |WORDS|
    ensures forall j :: 0 <= j < |WORDS[i]| ==> IsPlain(WORDS[i][j])
  {
  }

  // ----- Characters -----

  const FULL_MESSAGES: nat := 128
  const MESSAGE_BYTES: nat := 8192

  // The digits of a number in decimal.
  function Digits(n: nat): nat {
    if n < 10 then 1 else 1 + Digits(n / 10)
  }

  // String(n).padStart(width, '0'), by length; a minus sign is a character too.
  function Padded(n: int, width: nat): nat {
    var written := if n < 0 then 1 + Digits(-n) else Digits(n);
    if written < width then width else written
  }

  // role, chatId and data; the two roles are four letters each.
  function MessageValue(index: int, slot: nat, dataBytes: nat): Value {
    Obj([Field(4, Str(4)),
         Field(6, Str(18 + Padded(index, 6) + 1 + Padded(slot, 3))),
         Field(4, Str(dataBytes))])
  }

  function Messages(index: int, tailBytes: Option<nat>): seq<Value> {
    if tailBytes.Some? then [MessageValue(index, 0, tailBytes.value)]
    else seq(FULL_MESSAGES, slot requires 0 <= slot < FULL_MESSAGES => MessageValue(index, slot, MESSAGE_BYTES))
  }

  // character: type, chaId, name, chatPage and one chat of id, name, note,
  // localLore and message; `prefix` is the byte length of the prefix.
  function CharacterValue(index: int, tailBytes: Option<nat>, prefix: nat): Value {
    var id := Padded(index, 6);
    var chat := Obj([Field(2, Str(5 + id)), Field(4, Str(14)), Field(4, Str(0)),
                     Field(9, Arr([])), Field(7, Arr(Messages(index, tailBytes)))]);
    Obj([Field(4, Str(9)), Field(5, Str(prefix + 1 + id)), Field(4, Str(10 + id)),
         Field(8, Zero), Field(5, Arr([chat]))])
  }

  lemma PaddedWidth(n: int)
    ensures -1 <= n < 1000000 ==> Padded(n, 6) == 6
    ensures 0 <= n < 1000 ==> Padded(n, 3) == 3
  {
    if n >= 0 {
      DigitsOf(n, 6);
      DigitsOf(n, 3);
      assert Power10(3) == 1000;
      assert Power10(6) == 1000 * Power10(3);
    }
  }

  function Power10(k: nat): nat {
    if k == 0 then 1 else 10 * Power10(k - 1)
  }

  lemma {:induction false} DigitsOf(n: nat, k: nat)
    requires k >= 1
    ensures Digits(n) <= k <==> n < Power10(k)
  {
    if k > 1 && n >= 10 {
      DigitsOf(n / 10, k - 1);
      assert n / 10 < Power10(k - 1) <==> n < 10 * Power10(k - 1);
    } else if k == 1 {
      assert Power10(1) == 10;
    } else {
      PowerGrows(k);
    }
  }

  lemma {:induction false} PowerGrows(k: nat)
    requires k >= 1
    ensures Power10(k) >= 10
  {
    if k > 1 {
      PowerGrows(k - 1);
    }
  }

  // ----- Sizes of characters -----

  function MessageSize(header: nat, dataBytes: nat): nat {
    header + 51 + StrSize(dataBytes)
  }

  // All of a character but its messages.
  function FrameSize(header: nat, prefix: nat): nat {
    2 * header + 120 + StrSize(prefix + 7)
  }

  function CharacterSize(header: nat, prefix: nat, tailBytes: Option<nat>): nat {
    FrameSize(header, prefix) +
    if tailBytes.Some? then 1 + MessageSize(header, tailBytes.value)
    else 3 + FULL_MESSAGES * MessageSize(header, MESSAGE_BYTES)
  }

  lemma ThreeFields(a: Field, b: Field, c: Field, header: nat)
    ensures FieldsSize([a, b, c], header) == FieldSize(a, header) + FieldSize(b, header) + FieldSize(c, header)
  {
    assert [a, b, c][1..] == [b, c] && [b, c][1..] == [c] && [c][1..] == [];
    assert FieldsSize([c], header) == FieldSize(c, header);
    assert FieldsSize([b, c], header) == FieldSize(b, header) + FieldsSize([c], header);
  }

  lemma FiveFields(a: Field, b: Field, c: Field, d: Field, e: Field, header: nat)
    ensures FieldsSize([a, b, c, d, e], header)
      == FieldSize(a, header) + FieldSize(b, header) + FieldSize(c, header)
         + FieldSize(d, header) + FieldSize(e, header)
  {
    assert [a, b, c, d, e][1..] == [b, c, d, e] && [b, c, d, e][1..] == [c, d, e];
    ThreeFields(c, d, e, header);
    assert FieldsSize([b, c, d, e], header) == FieldSize(b, header) + FieldsSize([c, d, e], header);
  }

  lemma MessageSizeIs(index: int, slot: nat, dataBytes: nat, header: nat)
    requires -1 <= index < 1000000 && slot < 1000
    ensures Size(MessageValue(index, slot, dataBytes), header) == MessageSize(header, dataBytes)
  {
    PaddedWidth(index);
    PaddedWidth(slot);
    ThreeFields(Field(4, Str(4)), Field(6, Str(28)), Field(4, Str(dataBytes)), header);
  }

  lemma MessagesSize(index: int, tailBytes: Option<nat>, header: nat)
    requires -1 <= index < 1000000
    ensures SizeAll(Messages(index, tailBytes), header)
      == if tailBytes.Some? then MessageSize(header, tailBytes.value)
         else FULL_MESSAGES * MessageSize(header, MESSAGE_BYTES)
  {
    hide MessageValue, Size, SizeAll, MessageSize;
    var messages := Messages(index, tailBytes);
    var data := if tailBytes.Some? then tailBytes.value else MESSAGE_BYTES;
    forall i | 0 <= i < |messages|
      ensures Size(messages[i], header) == MessageSize(header, data)
    {
      MessageSizeIs(index, i, data, header);
    }
    SizeAllEqual(messages, header, MessageSize(header, data));
  }

  // Every character of one kind has one size, whatever its index.
  lemma CharacterSizeIs(index: int, tailBytes: Option<nat>, prefix: nat, header: nat)
    requires -1 <= index < 1000000
    ensures Size(CharacterValue(index, tailBytes, prefix), header) == CharacterSize(header, prefix, tailBytes)
  {
    hide Messages, SizeAll, FieldsSize;
    PaddedWidth(index);
    MessagesSize(index, tailBytes, header);
    var messages := Messages(index, tailBytes);
    var c0, c1, c2 := Field(2, Str(11)), Field(4, Str(14)), Field(4, Str(0));
    var c3, c4 := Field(9, Arr([])), Field(7, Arr(messages));
    var chat := Obj([c0, c1, c2, c3, c4]);
    FiveFields(c0, c1, c2, c3, c4, header);
    EmptyList(header);
    OneItem(chat, header);
    FiveFields(Field(4, Str(9)), Field(5, Str(prefix + 7)), Field(4, Str(16)),
               Field(8, Zero), Field(5, Arr([chat])), header);
    MessageCount(index, tailBytes);
  }

  lemma EmptyList(header: nat)
    ensures SizeAll([], header) == 0
  {
  }

  lemma OneItem(v: Value, header: nat)
    ensures SizeAll([v], header) == Size(v, header)
  {
    assert [v][1..] == [];
  }

  lemma MessageCount(index: int, tailBytes: Option<nat>)
    ensures |Messages(index, tailBytes)| == if tailBytes.Some? then 1 else FULL_MESSAGES
  {
  }

  // ----- The plan -----

  // The root's other fields: username, botPresets, botPresetsId,
  // pluginCustomStorage, modules, loadouts and plugins.
  const ROOT_FIELDS: seq<Field> :=
    [Field(8, Str(24)), Field(10, Arr([])), Field(12, Zero), Field(19, Obj([])),
     Field(7, Arr([])), Field(8, Arr([])), Field(7, Arr([]))]

  function RootBytes(header: nat): nat {
    1 + StrSize(10) + 5 + FieldsSize(ROOT_FIELDS, header)
  }

  lemma RootBytesIs(header: nat)
    ensures RootBytes(header) == 125 + header
  {
    var r := ROOT_FIELDS;
    assert r[2..] == [r[2], r[3], r[4], r[5], r[6]] && r[1..][1..] == r[2..];
    FiveFields(r[2], r[3], r[4], r[5], r[6], header);
    assert FieldsSize(r[1..], header) == FieldSize(r[1], header) + FieldsSize(r[2..], header);
    assert FieldsSize(r, header) == FieldSize(r[0], header) + FieldsSize(r[1..], header);
  }

  datatype Plan = Plan(
    prefix: nat, decodedBytes: int, characterCount: int, messageCount: int,
    fullCharacterCount: int, tailTextBytes: int)

  // pack.encode(character(...)).length
  method Encoded(index: int, tailBytes: Option<nat>, prefix: nat, header: nat) returns (bytes: nat)
    requires -1 <= index < 1000000
    ensures bytes == CharacterSize(header, prefix, tailBytes)
  {
    hide Size, CharacterValue, CharacterSize;
    bytes := Size(CharacterValue(index, tailBytes, prefix), header);
    CharacterSizeIs(index, tailBytes, prefix, header);
  }

  // How many full characters come before the last one.
  function FullCount(bytes: int, packetBytes: nat): int
    requires packetBytes > 0
  {
    bytes / packetBytes - 1
  }

  // What they leave for the last.
  function Remaining(bytes: int, fullCount: int, packetBytes: nat): int {
    bytes - fullCount * packetBytes
  }

  // What the last message has to hold for the sizes to add up.
  ghost function LastTail(decodedBytes: int, prefix: nat, header: nat): int {
    var bytes := decodedBytes - RootBytes(header);
    var packet := CharacterSize(header, prefix, None);
    Remaining(bytes, FullCount(bytes, packet), packet) - CharacterSize(header, prefix, Some(0)) - 4
  }

  // A prefix this long, less 257 bytes for each byte of an object's header, is
  // the longest with which no size in the range makes planFixture throw.
  const LONGEST_PREFIX: nat := 888944

  // planFixture; None where it throws.  In range, only the upper bound on the
  // tail can make it throw.
  method PlanFixture(decodedBytes: int, prefix: nat, header: nat) returns (result: Option<Plan>)
    requires header <= 5
    ensures decodedBytes < 2500000 || decodedBytes > 600000000 ==> result.None?
    ensures 2500000 <= decodedBytes <= 600000000 ==>
      (result.Some? <==> LastTail(decodedBytes, prefix, header) <= 3000000)
    ensures 2500000 <= decodedBytes <= 600000000 && prefix + 257 * header <= LONGEST_PREFIX ==> result.Some?
    ensures result.Some? ==> result.value.decodedBytes == decodedBytes && Exact(result.value, header)
  {
    hide CharacterSize, RootBytes, Exact, FullCount, Remaining;
    if decodedBytes < 2500000 || decodedBytes > 600000000 {
      return None;
    }
    var packetBytes := Encoded(0, None, prefix, header);
    PacketSizes(prefix, header);
    var fullCharacterCount := FullCount(decodedBytes - RootBytes(header), packetBytes);
    var remaining := Remaining(decodedBytes - RootBytes(header), fullCharacterCount, packetBytes);
    Division(decodedBytes, RootBytes(header), packetBytes, CharacterSize(header, prefix, Some(0)));
    var emptyBytes := Encoded(fullCharacterCount, Some(0), prefix, header);
    var tailTextBytes := remaining - emptyBytes - 4;
    if tailTextBytes < 65536 || tailTextBytes > 3000000 {
      return None;
    }
    TailGrowth(prefix, tailTextBytes, header);
    var lastBytes := Encoded(fullCharacterCount, Some(tailTextBytes), prefix, header);
    if lastBytes != remaining {
      assert false;
      return None;
    }
    var plan := Plan(prefix, decodedBytes, fullCharacterCount + 1,
                     fullCharacterCount * FULL_MESSAGES + 1, fullCharacterCount, tailTextBytes);
    PlanIsExact(plan, packetBytes, remaining, header);
    result := Some(plan);
  }

  // Dividing by the packet leaves a tail past 64 KiB; one within its bound
  // leaves at least the last character to write.
  lemma Division(decodedBytes: int, root: int, packet: int, empty: int)
    requires 2500000 <= decodedBytes <= 600000000 && 0 <= root <= 130
    requires packet > 1050000 && packet - empty > 1050000
    ensures var full := FullCount(decodedBytes - root, packet);
      var tail := Remaining(decodedBytes - root, full, packet) - empty - 4;
      && -1 <= full < 999999 && tail >= 65536
      && (2 * packet - empty - 5 <= 3000000 ==> tail <= 3000000)
      && (tail <= 3000000 ==> full >= 0)
  {
    Quotient(decodedBytes - root, packet);
    var full := (decodedBytes - root) / packet - 1;
    assert full == -1 ==> full * packet == -packet;
  }

  lemma PlanIsExact(plan: Plan, packetBytes: int, remaining: int, header: nat)
    requires 0 <= plan.fullCharacterCount < 999999 && plan.characterCount == plan.fullCharacterCount + 1
    requires plan.messageCount == plan.fullCharacterCount * FULL_MESSAGES + 1
    requires 65536 <= plan.tailTextBytes <= 3000000
    requires packetBytes == CharacterSize(header, plan.prefix, None)
    requires remaining == Remaining(plan.decodedBytes - RootBytes(header), plan.fullCharacterCount, packetBytes)
    requires remaining == CharacterSize(header, plan.prefix, Some(plan.tailTextBytes))
    ensures Exact(plan, header)
  {
    hide CharacterSize, RootBytes;
  }

  // A full character takes over a megabyte, nearly all of it more than the last one empty.
  lemma PacketSizes(prefix: nat, header: nat)
    requires header <= 5
    ensures var packet := CharacterSize(header, prefix, None);
      var empty := CharacterSize(header, prefix, Some(0));
      && packet > 1050000 && packet - empty > 1050000
      && (prefix + 257 * header <= LONGEST_PREFIX <==> 2 * packet - empty - 5 <= 3000000)
    ensures RootBytes(header) <= 130
  {
    RootBytesIs(header);
  }

  // A longer prefix makes some size in the range throw, and a shorter one none.
  lemma PrefixIsSafe(prefix: nat, header: nat)
    requires header <= 5
    ensures (forall bytes :: 2500000 <= bytes <= 600000000 ==> LastTail(bytes, prefix, header) <= 3000000)
       <==> prefix + 257 * header <= LONGEST_PREFIX
  {
    hide CharacterSize, RootBytes, FullCount, Remaining;
    PacketSizes(prefix, header);
    var root, packet := RootBytes(header), CharacterSize(header, prefix, None);
    var empty := CharacterSize(header, prefix, Some(0));
    if prefix + 257 * header <= LONGEST_PREFIX {
      forall bytes | 2500000 <= bytes <= 600000000
        ensures LastTail(bytes, prefix, header) <= 3000000
      {
        Division(bytes, root, packet, empty);
      }
    } else {
      var bytes := if packet > 2500000 then 2500000 else root + 2 * packet - 1;
      WorstTail(root, packet, empty);
      assert LastTail(bytes, prefix, header) > 3000000;
    }
  }

  // One byte short of two packets, or less than one packet in all.
  lemma WorstTail(root: nat, packet: nat, empty: nat)
    requires root <= 130 && packet > 1050000 && packet - empty > 1050000 && 2 * packet - empty - 5 > 3000000
    ensures var bytes := if packet > 2500000 then 2500000 else root + 2 * packet - 1;
      && 2500000 <= bytes <= 600000000
      && Remaining(bytes - root, FullCount(bytes - root, packet), packet) - empty - 4 > 3000000
  {
    if packet > 2500000 {
      assert (2500000 - root) / packet == 0;
    } else {
      assert (2 * packet - 1) / packet == 1;
    }
  }

  // From an empty string to one past 64 KiB the header grows by 4 bytes.
  lemma TailGrowth(prefix: nat, tailBytes: nat, header: nat)
    requires tailBytes >= 65536
    ensures CharacterSize(header, prefix, Some(tailBytes)) == CharacterSize(header, prefix, Some(0)) + tailBytes + 4
  {
  }

  // The quotient that leaves between one and two packets for the last.
  lemma Quotient(bytes: int, packet: int)
    requires bytes >= 0 && packet > 1050000
    ensures var full := bytes / packet - 1;
      -1 <= full && packet <= bytes - full * packet < 2 * packet
    ensures bytes <= 600000000 ==> bytes / packet - 1 < 999999
  {
    var q := bytes / packet;
    assert bytes == q * packet + bytes % packet;
    assert (q - 1) * packet == q * packet - packet;
  }

  // The plan adds up to the decoded size.
  ghost predicate Exact(plan: Plan, header: nat) {
    && plan.fullCharacterCount >= 0 && plan.characterCount == plan.fullCharacterCount + 1
    && plan.messageCount == plan.fullCharacterCount * FULL_MESSAGES + 1
    && plan.characterCount < 1000000
    && 65536 <= plan.tailTextBytes <= 3000000
    && plan.decodedBytes == RootBytes(header)
         + plan.fullCharacterCount * CharacterSize(header, plan.prefix, None)
         + CharacterSize(header, plan.prefix, Some(plan.tailTextBytes))
  }

  // ----- The packets -----

  function Sum(lengths: seq<nat>): nat {
    if lengths == [] then 0 else Sum(lengths[..|lengths| - 1]) + lengths[|lengths| - 1]
  }

  lemma {:induction false} SumConcat(s: seq<nat>, t: seq<nat>)
    ensures Sum(s + t) == Sum(s) + Sum(t)
    decreases |t|
  {
    if t == [] {
      assert s + t == s;
    } else {
      SumConcat(s, t[..|t| - 1]);
      assert (s + t)[..|s + t| - 1] == s + t[..|t| - 1];
    }
  }

  // Each root field is two packets, its key and its value.
  function RootPackets(fs: seq<Field>, header: nat): (lengths: seq<nat>) {
    if fs == [] then []
    else [StrSize(fs[0].keyBytes), Size(fs[0].value, header)] + RootPackets(fs[1..], header)
  }

  lemma {:induction false} RootPacketsSum(fs: seq<Field>, header: nat)
    ensures Sum(RootPackets(fs, header)) == FieldsSize(fs, header)
  {
    hide Size;
    if fs != [] {
      var key, value := StrSize(fs[0].keyBytes), Size(fs[0].value, header);
      RootPacketsSum(fs[1..], header);
      SumConcat([key, value], RootPackets(fs[1..], header));
      assert [key, value][..1] == [key] && Sum([key]) == key;
    }
  }

  // The first `index` characters of the plan.
  ghost function CharactersSize(plan: Plan, index: nat, header: nat): nat
    requires Exact(plan, header)
  {
    if index <= plan.fullCharacterCount then index * CharacterSize(header, plan.prefix, None)
    else
      plan.fullCharacterCount * CharacterSize(header, plan.prefix, None)
      + CharacterSize(header, plan.prefix, Some(plan.tailTextBytes))
  }

  // fixturePackets, by the lengths of the packets it yields.
  method FixturePackets(plan: Plan, charactersFirst: bool, header: nat) returns (lengths: seq<nat>)
    requires Exact(plan, header)
    ensures Sum(lengths) == plan.decodedBytes
    ensures InOrder(plan, charactersFirst, header, lengths)
  {
    hide Size, CharacterValue, CharacterSize, FieldsSize, RootPackets, ROOT_FIELDS, AreCharacters, InOrder, StrSize;
    NoCharacters(plan, header);
    ghost var root := RootPackets(ROOT_FIELDS, header);
    RootPacketsSum(ROOT_FIELDS, header);
    lengths := [1];
    assert Sum([1]) == 1;
    if !charactersFirst {
      SumConcat(lengths, root);
      lengths := lengths + RootPackets(ROOT_FIELDS, header);
    }
    SumConcat(lengths, [StrSize(10)]);
    SumConcat(lengths + [StrSize(10)], [5]);
    assert Sum([StrSize(10)]) == StrSize(10) && Sum([5]) == 5;
    lengths := lengths + [StrSize(10)] + [5];
    ghost var front := Sum(lengths);
    ghost var head := lengths;
    ghost var characters := [];
    var index := 0;
    while index < plan.characterCount
      invariant 0 <= index <= plan.characterCount
      invariant Sum(lengths) == front + CharactersSize(plan, index, header)
      invariant lengths == head + characters && AreCharacters(plan, header, characters, index)
    {
      OneMoreCharacter(plan, header, characters, index);
      characters := characters + [CharacterSize(header, plan.prefix, TailOf(plan, index))];
      lengths := YieldCharacter(plan, index, header, lengths);
      OneMore(index, CharacterSize(header, plan.prefix, None));
      index := index + 1;
    }
    if charactersFirst {
      SumConcat(lengths, root);
      lengths := lengths + RootPackets(ROOT_FIELDS, header);
    }
    PutTogether(plan, charactersFirst, header, lengths, characters);
  }

  lemma NoCharacters(plan: Plan, header: nat)
    requires plan.tailTextBytes >= 0
    ensures AreCharacters(plan, header, [], 0)
  {
  }

  lemma OneMoreCharacter(plan: Plan, header: nat, lengths: seq<nat>, n: nat)
    requires plan.tailTextBytes >= 0 && AreCharacters(plan, header, lengths, n)
    ensures AreCharacters(plan, header, lengths + [CharacterSize(header, plan.prefix, TailOf(plan, n))], n + 1)
  {
    hide CharacterSize;
  }

  lemma PutTogether(plan: Plan, charactersFirst: bool, header: nat, lengths: seq<nat>, characters: seq<nat>)
    requires plan.tailTextBytes >= 0 && AreCharacters(plan, header, characters, plan.characterCount)
    requires var root := RootPackets(ROOT_FIELDS, header);
      lengths == if charactersFirst then [1] + [StrSize(10)] + [5] + characters + root
        else [1] + root + [StrSize(10)] + [5] + characters
    ensures InOrder(plan, charactersFirst, header, lengths)
  {
    hide AreCharacters, RootPackets, ROOT_FIELDS, StrSize;
    var root, list := RootPackets(ROOT_FIELDS, header), [StrSize(10), 5] + characters;
    assert lengths == if charactersFirst then [1] + list + root else [1] + root + list;
  }

  // The last character has the tail.
  ghost function TailOf(plan: Plan, index: nat): Option<nat>
    requires plan.tailTextBytes >= 0
  {
    if index == plan.fullCharacterCount then Some(plan.tailTextBytes as nat) else None
  }

  ghost predicate AreCharacters(plan: Plan, header: nat, lengths: seq<nat>, n: int)
    requires plan.tailTextBytes >= 0
  {
    |lengths| == n && forall i :: 0 <= i < n ==> lengths[i] == CharacterSize(header, plan.prefix, TailOf(plan, i))
  }

  // The map's header; the key and header of the list of characters, and all of
  // them in order; and after them or before, a key and a value for each root field.
  ghost predicate InOrder(plan: Plan, charactersFirst: bool, header: nat, lengths: seq<nat>)
    requires plan.tailTextBytes >= 0
  {
    exists characters: seq<nat> ::
      && AreCharacters(plan, header, characters, plan.characterCount)
      && var list := [StrSize(10), 5] + characters;
         var root := RootPackets(ROOT_FIELDS, header);
         lengths == if charactersFirst then [1] + list + root else [1] + root + list
  }

  method YieldCharacter(plan: Plan, index: nat, header: nat, lengths0: seq<nat>) returns (lengths: seq<nat>)
    requires Exact(plan, header) && index < plan.characterCount
    ensures Sum(lengths) == Sum(lengths0) + CharacterSize(header, plan.prefix, TailOf(plan, index))
    ensures lengths == lengths0 + [CharacterSize(header, plan.prefix, TailOf(plan, index))]
  {
    hide CharacterSize;
    var tail := if index == plan.fullCharacterCount then Some(plan.tailTextBytes as nat) else None;
    var packet := Encoded(index, tail, plan.prefix, header);
    SumConcat(lengths0, [packet]);
    assert Sum([packet]) == packet;
    lengths := lengths0 + [packet];
  }
}
