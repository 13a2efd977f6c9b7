/**
 The search for a marker through every conversation of a store that hands its
 characters, and each character's conversations, out in pages.
 */
module MarkerSearch {
  import opened Wrappers

  const CONVERSATION_LIMIT: nat := 5000

  // `data` is None where it is not a string; `messages` where nothing is read back.
  datatype Message = Message(data: Option<string>)
  datatype Conversation = Conversation(id: string, messages: Option<seq<Message>>)
  datatype Character = Character(id: string, pages: seq<seq<Conversation>>)

  // A conversation where the search meets it.
  datatype Visit = Visit(characterId: string, conversation: Conversation)

  datatype Location = Location(characterId: string, conversationId: string, last: bool)

  // ----- The store as flat lists -----

  ghost function Flat<T>(pages: seq<seq<T>>): seq<T> {
    if pages == [] then [] else pages[0] + Flat(pages[1..])
  }

  ghost function VisitsOf(characterId: string, conversations: seq<Conversation>): seq<Visit> {
    seq(|conversations|, i requires 0 <= i < |conversations| => Visit(characterId, conversations[i]))
  }

  ghost function AllVisits(characters: seq<Character>): seq<Visit> {
    if characters == [] then []
    else VisitsOf(characters[0].id, Flat(characters[0].pages)) + AllVisits(characters[1..])
  }

  predicate Contains(s: string, marker: string) {
    exists i :: 0 <= i <= |s| - |marker| && OccursAt(s, marker, i)
  }

  predicate OccursAt(s: string, marker: string, i: nat)
    requires i + |marker| <= |s|
  {
    s[i..i + |marker|] == marker
  }

  predicate Holds(m: Message, marker: string) {
    m.data.Some? && Contains(m.data.value, marker)
  }

  function MessagesOf(c: Conversation): seq<Message> {
    if c.messages.Some? then c.messages.value else []
  }

  ghost predicate HasMarker(v: Visit, marker: string) {
    exists i :: 0 <= i < |MessagesOf(v.conversation)| && Holds(MessagesOf(v.conversation)[i], marker)
  }

  // The location of the first visit with the marker, and whether its first
  // message with the marker is its last message.
  ghost predicate IsFirst(visits: seq<Visit>, marker: string, location: Option<Location>) {
    match location
    case None => forall k :: 0 <= k < |visits| ==> !HasMarker(visits[k], marker)
    case Some(l) =>
      exists k :: 0 <= k < |visits| && (forall j :: 0 <= j < k ==> !HasMarker(visits[j], marker))
        && IsAt(visits[k], marker, l)
  }

  ghost predicate IsAt(v: Visit, marker: string, l: Location) {
    && l.characterId == v.characterId && l.conversationId == v.conversation.id
    && exists i :: IsFirstMessage(MessagesOf(v.conversation), marker, i)
         && l.last == (i == |MessagesOf(v.conversation)| - 1)
  }

  ghost predicate IsFirstMessage(messages: seq<Message>, marker: string, i: int) {
    && 0 <= i < |messages| && Holds(messages[i], marker)
    && forall j :: 0 <= j < i ==> !Holds(messages[j], marker)
  }

  // messages.findIndex.
  method FindIndex(messages: seq<Message>, marker: string) returns (index: int)
    ensures index >= 0 ==> IsFirstMessage(messages, marker, index)
    ensures index < 0 ==> forall j :: 0 <= j < |messages| ==> !Holds(messages[j], marker)
  {
    index := 0;
    while index < |messages|
      invariant 0 <= index <= |messages|
      invariant forall j :: 0 <= j < index ==> !Holds(messages[j], marker)
    {
      if Holds(messages[index], marker) {
        return;
      }
      index := index + 1;
    }
    index := -1;
  }

  // ----- The search -----

  // What the search has counted and found.
  datatype Found = Found(characters: nat, conversations: nat, location: Option<Location>)

  // The search after `visits`.
  ghost predicate Searched(visits: seq<Visit>, marker: string, f: Found) {
    f.conversations == |visits| <= CONVERSATION_LIMIT && IsFirst(visits, marker, f.location)
  }

  lemma FirstStays(visits: seq<Visit>, v: Visit, marker: string, location: Option<Location>)
    requires IsFirst(visits, marker, location)
    ensures location.Some? || !HasMarker(v, marker) ==> IsFirst(visits + [v], marker, location)
    ensures forall l :: location.None? && IsAt(v, marker, l) ==> IsFirst(visits + [v], marker, Some(l))
  {
    if location.Some? {
      var k :| 0 <= k < |visits| && (forall j :: 0 <= j < k ==> !HasMarker(visits[j], marker))
        && IsAt(visits[k], marker, location.value);
      assert (visits + [v])[k] == visits[k];
      assert forall j :: 0 <= j < k ==> (visits + [v])[j] == visits[j];
    } else {
      assert forall j :: 0 <= j < |visits| ==> (visits + [v])[j] == visits[j];
      assert (visits + [v])[|visits|] == v;
    }
  }

  // One page of conversations; fails on the first past the limit.
  method SearchPage(ghost before: seq<Visit>, character: Character, page: seq<Conversation>, marker: string, f0: Found)
    returns (failed: bool, f: Found)
    requires Searched(before, marker, f0)
    ensures failed <==> |before| + |page| > CONVERSATION_LIMIT
    ensures !failed ==> Searched(before + VisitsOf(character.id, page), marker, f) && f.characters == f0.characters
  {
    failed, f := false, f0;
    var i := 0;
    assert before + VisitsOf(character.id, page)[..0] == before;
    while i < |page|
      invariant 0 <= i <= |page| && !failed
      invariant Searched(before + VisitsOf(character.id, page)[..i], marker, f) && f.characters == f0.characters
    {
      ghost var visits := before + VisitsOf(character.id, page)[..i];
      ghost var v := VisitsOf(character.id, page)[i];
      assert before + VisitsOf(character.id, page)[..i + 1] == visits + [v];
      FirstStays(visits, v, marker, f.location);
      var conversation := page[i];
      f := f.(conversations := f.conversations + 1);
      if f.conversations > CONVERSATION_LIMIT {
        return true, f;
      }
      var messages := MessagesOf(conversation);
      var index := FindIndex(messages, marker);
      if index >= 0 && f.location.None? {
        var l := Location(character.id, conversation.id, index == |messages| - 1);
        assert IsAt(v, marker, l);
        f := f.(location := Some(l));
      }
      i := i + 1;
    }
    assert VisitsOf(character.id, page)[..i] == VisitsOf(character.id, page);
  }

  lemma VisitsConcat(characterId: string, s: seq<Conversation>, t: seq<Conversation>)
    ensures VisitsOf(characterId, s + t) == VisitsOf(characterId, s) + VisitsOf(characterId, t)
  {
  }

  lemma FlatNext<T>(pages: seq<seq<T>>, i: nat)
    requires i < |pages|
    ensures Flat(pages[i..]) == pages[i] + Flat(pages[i + 1..])
  {
    assert pages[i..][1..] == pages[i + 1..];
  }

  // The inner loop: pages of conversations until the store gives no next cursor.
  method SearchCharacter(ghost before: seq<Visit>, character: Character, marker: string, f0: Found)
    returns (failed: bool, f: Found)
    requires character.pages != [] && Searched(before, marker, f0)
    ensures var visits := before + VisitsOf(character.id, Flat(character.pages));
      && (failed <==> |visits| > CONVERSATION_LIMIT)
      && (!failed ==> Searched(visits, marker, f) && f.characters == f0.characters)
  {
    hide Searched;
    failed, f := false, f0;
    var next := 0;
    ghost var seen := [];
    ghost var all := Flat(character.pages);
    assert character.pages[0..] == character.pages;
    assert before + VisitsOf(character.id, []) == before;
    var more := true;
    while more
      invariant 0 <= next <= |character.pages| && (more <==> next < |character.pages|) && !failed
      invariant seen + Flat(character.pages[next..]) == all
      invariant Searched(before + VisitsOf(character.id, seen), marker, f) && f.characters == f0.characters
      decreases |character.pages| - next
    {
      var list := character.pages[next];
      FlatNext(character.pages, next);
      VisitsConcat(character.id, seen, list);
      ghost var visits := before + VisitsOf(character.id, seen);
      assert visits + VisitsOf(character.id, list) == before + VisitsOf(character.id, seen + list);
      failed, f := SearchPage(visits, character, list, marker, f);
      if failed {
        return;
      }
      seen := seen + list;
      next := next + 1;
      more := next < |character.pages|;
    }
    WithinLimit(before + VisitsOf(character.id, seen), marker, f);
    assert seen == all;
  }

  lemma WithinLimit(visits: seq<Visit>, marker: string, f: Found)
    requires Searched(visits, marker, f)
    ensures |visits| <= CONVERSATION_LIMIT
  {
  }

  lemma {:induction false} AllVisitsConcat(s: seq<Character>, t: seq<Character>)
    ensures AllVisits(s + t) == AllVisits(s) + AllVisits(t)
    decreases |s|
  {
    if s == [] {
      assert s + t == t;
    } else {
      assert (s + t)[1..] == s[1..] + t;
      AllVisitsConcat(s[1..], t);
    }
  }

  lemma AllVisitsNext(s: seq<Character>, i: nat)
    requires i < |s|
    ensures AllVisits(s[..i + 1]) == AllVisits(s[..i]) + VisitsOf(s[i].id, Flat(s[i].pages))
  {
    assert s[..i + 1] == s[..i] + [s[i]];
    AllVisitsConcat(s[..i], [s[i]]);
    assert [s[i]][1..] == [];
  }

  // One page of characters.
  method SearchCharacters(ghost before: seq<Visit>, page: seq<Character>, marker: string, f0: Found)
    returns (failed: bool, f: Found)
    requires Searched(before, marker, f0) && forall i :: 0 <= i < |page| ==> page[i].pages != []
    ensures var visits := before + AllVisits(page);
      && (failed <==> |visits| > CONVERSATION_LIMIT)
      && (!failed ==> Searched(visits, marker, f) && f.characters == f0.characters + |page|)
  {
    hide Searched;
    failed, f := false, f0;
    var i := 0;
    assert page[..0] == [] && before + AllVisits([]) == before;
    while i < |page|
      invariant 0 <= i <= |page| && !failed
      invariant Searched(before + AllVisits(page[..i]), marker, f) && f.characters == f0.characters + i
    {
      ghost var visits := before + AllVisits(page[..i]);
      AllVisitsNext(page, i);
      assert visits + VisitsOf(page[i].id, Flat(page[i].pages)) == before + AllVisits(page[..i + 1]);
      CountCharacter(visits, marker, f);
      f := f.(characters := f.characters + 1);
      failed, f := SearchCharacter(visits, page[i], marker, f);
      if failed {
        assert page[..i + 1] + page[i + 1..] == page;
        AllVisitsConcat(page[..i + 1], page[i + 1..]);
        return;
      }
      i := i + 1;
    }
    WithinLimit(before + AllVisits(page[..i]), marker, f);
    assert page[..i] == page;
  }

  lemma CountCharacter(visits: seq<Visit>, marker: string, f: Found)
    requires Searched(visits, marker, f)
    ensures Searched(visits, marker, f.(characters := f.characters + 1))
  {
  }

  // findMarker: for every way the store splits its lists into pages, each
  // character and conversation is met once, in flat order, and the search fails
  // exactly when there are more conversations than it allows.
  method FindMarker(store: seq<seq<Character>>, marker: string) returns (failed: bool, f: Found)
    requires store != [] && forall c <- Flat(store) :: c.pages != []
    ensures failed <==> |AllVisits(Flat(store))| > CONVERSATION_LIMIT
    ensures !failed ==>
      && f.characters == |Flat(store)| && f.conversations == |AllVisits(Flat(store))|
      && IsFirst(AllVisits(Flat(store)), marker, f.location)
  {
    failed, f := false, Found(0, 0, None);
    var cursor := 0;
    ghost var seen := [];
    ghost var all := Flat(store);
    assert store[0..] == store;
    var more := true;
    while more
      invariant 0 <= cursor <= |store| && (more <==> cursor < |store|) && !failed
      invariant seen + Flat(store[cursor..]) == all
      invariant Searched(AllVisits(seen), marker, f) && f.characters == |seen|
      decreases |store| - cursor
    {
      var page := store[cursor];
      FlatNext(store, cursor);
      ghost var rest := Flat(store[cursor + 1..]);
      assert seen + (page + rest) == all && seen + page + rest == all;
      PageOfAll(seen, page, rest, all);
      AllVisitsConcat(seen, page);
      failed, f := SearchCharacters(AllVisits(seen), page, marker, f);
      if failed {
        AllVisitsConcat(seen + page, rest);
        return;
      }
      seen := seen + page;
      cursor := cursor + 1;
      more := cursor < |store|;
    }
    assert seen == all;
  }

  lemma PageOfAll(seen: seq<Character>, page: seq<Character>, rest: seq<Character>, all: seq<Character>)
    requires all == seen + page + rest && forall c <- all :: c.pages != []
    ensures forall i :: 0 <= i < |page| ==> page[i].pages != []
  {
    forall i | 0 <= i < |page|
      ensures page[i].pages != []
    {
      assert page[i] == all[|seen| + i] && page[i] in all;
    }
  }
}
