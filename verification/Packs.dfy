/**
 The file backup format: payloads laid out in bounded packs, or one entry each,
 with a catalog of extents; and the verifier that must recover every payload.
 */
module Packs {
  import opened Unicode

  const PACK_LIMIT: nat := 256 * 1024 * 1024
  const READ_BUFFER: nat := 1024 * 1024

  datatype Mode = Pack | Entries

  datatype EntryName = NoEntry | PackEntry(pack: nat) | ObjectEntry(id: nat)

  datatype Extent = Extent(start: nat, size: nat)

  // A row of the catalog; `hash` is whatever the digest function gives.
  datatype Row = Row(entry: EntryName, offset: nat, size: nat, hash: int)

  // The archive as a file with a directory of its stored entries.  Each entry's
  // header is some run of bytes before its data.
  ghost predicate Within(x: Extent, file: seq<Byte>) {
    x.start + x.size <= |file|
  }

  ghost function Slice(file: seq<Byte>, x: Extent): seq<Byte>
    requires Within(x, file)
  {
    file[x.start..x.start + x.size]
  }

  ghost function DataOf(file: seq<Byte>, dir: map<EntryName, Extent>): map<EntryName, seq<Byte>>
    requires forall e :: e in dir ==> Within(dir[e], file)
  {
    map e | e in dir :: assert Within(dir[e], file); Slice(file, dir[e])
  }

  // Appending to the file leaves the data of every other entry alone.
  lemma DataAppended(file: seq<Byte>, dir: map<EntryName, Extent>, more: seq<Byte>, name: EntryName, x: Extent)
    requires forall e :: e in dir ==> Within(dir[e], file)
    requires Within(x, file + more)
    ensures forall e :: e in dir ==> Within(dir[e], file + more)
    ensures DataOf(file + more, dir[name := x])
      == DataOf(file, dir)[name := Slice(file + more, x)]
  {
    forall e | e in dir
      ensures Within(dir[e], file + more) && Slice(file + more, dir[e]) == Slice(file, dir[e])
    {
      assert Within(dir[e], file);
    }
  }

  class Zip {
    const header: EntryName -> seq<Byte>
    var file: seq<Byte>
    var dir: map<EntryName, Extent>
    var current: EntryName

    ghost predicate Valid()
      reads this
    {
      && NoEntry !in dir
      && (forall e :: e in dir ==> Within(dir[e], file))
      && (current != NoEntry ==> current in dir && dir[current].start + dir[current].size == |file|)
    }

    // The data of every entry.
    ghost function Contents(): map<EntryName, seq<Byte>>
      reads this
      requires Valid()
    {
      DataOf(file, dir)
    }

    constructor (header: EntryName -> seq<Byte>)
      ensures Valid() && Contents() == map[] && current == NoEntry
    {
      this.header := header;
      file, dir, current := [], map[], NoEntry;
    }

    // An entry may be started once.
    method StartFile(e: EntryName)
      requires Valid() && e != NoEntry && e !in Contents()
      modifies this
      ensures Valid() && current == e && Contents() == old(Contents())[e := []]
    {
      DataAppended(file, dir, header(e), e, Extent(|file + header(e)|, 0));
      file := file + header(e);
      dir := dir[e := Extent(|file|, 0)];
      current := e;
    }

    // Data goes to the entry started last.
    method WriteAll(bytes: seq<Byte>)
      requires Valid() && current != NoEntry
      modifies this
      ensures Valid() && current == old(current)
      ensures Contents() == old(Contents())[current := old(Contents())[current] + bytes]
    {
      var x := Extent(dir[current].start, dir[current].size + |bytes|);
      DataAppended(file, dir, bytes, current, x);
      assert Slice(file + bytes, x) == Slice(file, dir[current]) + bytes;
      file := file + bytes;
      dir := dir[current := x];
    }
  }

  // ----- Where the packs' payloads go -----

  datatype Cursor = Cursor(pack: nat, offset: nat)

  // A payload that does not fit in its pack begins the next one.
  function Bump(c: Cursor, size: nat): Cursor {
    if c.offset + size > PACK_LIMIT then Cursor(c.pack + 1, 0) else c
  }

  function CursorAt(ps: seq<seq<Byte>>, i: nat): Cursor
    requires i <= |ps|
    decreases i, 0
  {
    if i == 0 then Cursor(0, 0) else var b := Place(ps, i - 1); Cursor(b.pack, b.offset + |ps[i - 1]|)
  }

  function Place(ps: seq<seq<Byte>>, i: nat): Cursor
    requires i < |ps|
    decreases i, 1
  {
    Bump(CursorAt(ps, i), |ps[i]|)
  }

  // What pack `n` holds after the first `i` payloads: those placed in it, in order.
  ghost function PackContent(ps: seq<seq<Byte>>, n: nat, i: nat): seq<Byte>
    requires i <= |ps|
  {
    if i == 0 then []
    else PackContent(ps, n, i - 1) + (if Place(ps, i - 1).pack == n then ps[i - 1] else [])
  }

  // The extents of a pack tile it from 0: the running offset is the length of
  // what its pack holds so far, and later packs are still empty.
  lemma {:induction false} OffsetsTile(ps: seq<seq<Byte>>, i: nat)
    requires i <= |ps|
    ensures var c := CursorAt(ps, i);
      && c.offset == |PackContent(ps, c.pack, i)|
      && forall n :: n > c.pack ==> PackContent(ps, n, i) == []
  {
    if i > 0 {
      OffsetsTile(ps, i - 1);
    }
  }

  // A pack is left for the next one when the payload does not fit in what is
  // left of 256 MiB, and only then.
  lemma PackIsLeftWhenFull(ps: seq<seq<Byte>>, i: nat)
    requires i < |ps|
    ensures i == 0 ==> Place(ps, 0).pack == if |ps[0]| > 268435456 then 1 else 0
    ensures i > 0 ==> var last := Place(ps, i - 1).pack;
      Place(ps, i).pack == if |PackContent(ps, last, i)| + |ps[i]| > 268435456 then last + 1 else last
  {
    OffsetsTile(ps, i);
  }

  // A payload begins where its pack ends so far, and that pack then ends where it does.
  lemma ExtentsTile(ps: seq<seq<Byte>>, i: nat)
    requires i < |ps|
    ensures var p := Place(ps, i);
      && p.offset == |PackContent(ps, p.pack, i)|
      && p.offset + |ps[i]| == |PackContent(ps, p.pack, i + 1)|
    ensures forall n :: n != Place(ps, i).pack ==> PackContent(ps, n, i + 1) == PackContent(ps, n, i)
  {
    OffsetsTile(ps, i);
  }

  // No pack exceeds the limit when no single payload does.
  lemma {:induction false} PacksAreBounded(ps: seq<seq<Byte>>, n: nat, i: nat)
    requires i <= |ps| && forall k :: 0 <= k < |ps| ==> |ps[k]| <= PACK_LIMIT
    ensures |PackContent(ps, n, i)| <= PACK_LIMIT
  {
    if i > 0 {
      PacksAreBounded(ps, n, i - 1);
      OffsetsTile(ps, i - 1);
    }
  }

  // A payload sits at its place in the finished pack.
  lemma {:induction false} PlacedInPack(ps: seq<seq<Byte>>, k: nat, i: nat)
    requires k < i <= |ps|
    ensures var p := Place(ps, k);
      var content := PackContent(ps, p.pack, i);
      p.offset + |ps[k]| <= |content| && content[p.offset..p.offset + |ps[k]|] == ps[k]
  {
    var p := Place(ps, k);
    if i == k + 1 {
      OffsetsTile(ps, k);
      assert |PackContent(ps, p.pack, k)| == p.offset;
    } else {
      PlacedInPack(ps, k, i - 1);
      var before := PackContent(ps, p.pack, i - 1);
      assert PackContent(ps, p.pack, i)[..|before|] == before;
    }
  }

  // ----- The writer -----

  function EntryFor(mode: Mode, ps: seq<seq<Byte>>, i: nat): EntryName
    requires i < |ps|
  {
    if mode == Pack then PackEntry(Place(ps, i).pack) else ObjectEntry(i)
  }

  // The catalog's row for payload `i`; an empty payload names no entry.
  function RowFor(mode: Mode, ps: seq<seq<Byte>>, hash: seq<Byte> -> int, i: nat): Row
    requires i < |ps|
  {
    Row(if |ps[i]| == 0 then NoEntry else EntryFor(mode, ps, i),
        if mode == Pack then Place(ps, i).offset else 0,
        |ps[i]|,
        hash(ps[i]))
  }

  // What the archive holds after `i` payloads: each one an entry, or exactly the
  // packs with something in them, the last of which is still open.
  ghost predicate Stored(
    contents: map<EntryName, seq<Byte>>, current: EntryName, mode: Mode, ps: seq<seq<Byte>>, i: nat)
    requires i <= |ps|
  {
    if mode == Entries then StoredEntries(contents, ps, i) else StoredPacks(contents, current, ps, i)
  }

  ghost predicate StoredEntries(contents: map<EntryName, seq<Byte>>, ps: seq<seq<Byte>>, i: nat)
    requires i <= |ps|
  {
    && (forall e :: e in contents ==> e.ObjectEntry? && e.id < i)
    && (forall k :: 0 <= k < i ==> ObjectEntry(k) in contents && contents[ObjectEntry(k)] == ps[k])
  }

  ghost predicate StoredPacks(
    contents: map<EntryName, seq<Byte>>, current: EntryName, ps: seq<seq<Byte>>, i: nat)
    requires i <= |ps|
  {
    && (forall e :: e in contents ==> e.PackEntry?)
    && (forall n: nat :: PackEntry(n) in contents <==> PackContent(ps, n, i) != [])
    && (forall n: nat :: PackEntry(n) in contents ==> contents[PackEntry(n)] == PackContent(ps, n, i))
    && (CursorAt(ps, i).offset > 0 ==> current == PackEntry(CursorAt(ps, i).pack))
  }

  method Write(mode: Mode, ps: seq<seq<Byte>>, header: EntryName -> seq<Byte>, hash: seq<Byte> -> int)
    returns (zip: Zip, rows: seq<Row>)
    ensures fresh(zip) && zip.Valid() && Stored(zip.Contents(), zip.current, mode, ps, |ps|)
    ensures |rows| == |ps| && forall i :: 0 <= i < |ps| ==> rows[i] == RowFor(mode, ps, hash, i)
  {
    hide Stored, RowFor;
    zip := new Zip(header);
    StoredNothing(zip.current, mode, ps);
    rows := [];
    var pack: nat, offset: nat := 0, 0;
    var id := 0;
    while id < |ps|
      invariant 0 <= id <= |ps|
      invariant fresh(zip) && zip.Valid() && Stored(zip.Contents(), zip.current, mode, ps, id)
      invariant Cursor(pack, offset) == if mode == Pack then CursorAt(ps, id) else Cursor(0, 0)
      invariant |rows| == id && forall i :: 0 <= i < id ==> rows[i] == RowFor(mode, ps, hash, i)
    {
      var payload := ps[id];
      var size := |payload|;
      if mode == Pack && offset + size > PACK_LIMIT {
        pack := pack + 1;
        offset := 0;
      }
      var entry := if mode == Pack then PackEntry(pack) else ObjectEntry(id);
      StorePayload(zip, mode, ps, id, entry, offset);
      RowNext(mode, ps, hash, id);
      rows := rows + [Row(if size == 0 then NoEntry else entry, offset, size, hash(payload))];
      if mode == Pack {
        offset := offset + size;
      }
      id := id + 1;
    }
  }

  lemma StoredNothing(current: EntryName, mode: Mode, ps: seq<seq<Byte>>)
    ensures Stored(map[], current, mode, ps, 0)
  {
  }

  lemma RowNext(mode: Mode, ps: seq<seq<Byte>>, hash: seq<Byte> -> int, i: nat)
    requires i < |ps|
    ensures var offset := if mode == Pack then Place(ps, i).offset else 0;
      RowFor(mode, ps, hash, i)
        == Row(if |ps[i]| == 0 then NoEntry else EntryFor(mode, ps, i), offset, |ps[i]|, hash(ps[i]))
  {
  }

  // Starts the entry if need be, and writes the payload to it.
  method StorePayload(zip: Zip, mode: Mode, ps: seq<seq<Byte>>, id: nat, entry: EntryName, offset: nat)
    requires zip.Valid() && id < |ps| && Stored(zip.Contents(), zip.current, mode, ps, id)
    requires entry == EntryFor(mode, ps, id) && offset == if mode == Pack then Place(ps, id).offset else 0
    modifies zip
    ensures zip.Valid() && Stored(zip.Contents(), zip.current, mode, ps, id + 1)
  {
    hide Stored, PackContent, Place, CursorAt;
    var payload := ps[id];
    ghost var c0 := zip.Contents();
    StoreStep(c0, zip.current, mode, ps, id);
    if mode == Entries || (offset == 0 && |payload| != 0) {
      zip.StartFile(entry);
    }
    if |payload| > 0 {
      zip.WriteAll(payload);
      assert zip.Contents() == c0[entry := (if entry !in c0 then [] else c0[entry]) + payload];
    }
  }

  // What storing a payload asks of the archive, and what it leaves.
  lemma StoreStep(
    contents: map<EntryName, seq<Byte>>, current: EntryName, mode: Mode, ps: seq<seq<Byte>>, id: nat)
    requires id < |ps| && Stored(contents, current, mode, ps, id)
    ensures var entry := EntryFor(mode, ps, id);
      var starts := mode == Entries || (Place(ps, id).offset == 0 && |ps[id]| != 0);
      && entry != NoEntry
      && (starts ==> entry !in contents)
      && (!starts && |ps[id]| > 0 ==> current == entry && entry in contents)
      && (!starts && |ps[id]| == 0 ==> Stored(contents, current, mode, ps, id + 1))
      && (starts && |ps[id]| == 0 ==> Stored(contents[entry := []], entry, mode, ps, id + 1))
      && (|ps[id]| > 0 ==> Stored(
            contents[entry := (if starts then [] else contents[entry]) + ps[id]], entry, mode, ps, id + 1))
  {
    if mode == Entries {
      EntryStep(contents, ps, id);
    } else {
      PackStep(contents, current, ps, id);
    }
  }

  lemma EntryStep(contents: map<EntryName, seq<Byte>>, ps: seq<seq<Byte>>, id: nat)
    requires id < |ps| && StoredEntries(contents, ps, id)
    ensures ObjectEntry(id) !in contents && [] + ps[id] == ps[id]
    ensures StoredEntries(contents[ObjectEntry(id) := ps[id]], ps, id + 1)
  {
  }

  // The state of the packs before and after one more payload.
  lemma PackGrows(ps: seq<seq<Byte>>, id: nat)
    requires id < |ps|
    ensures var p := Place(ps, id);
      && p.offset == |PackContent(ps, p.pack, id)|
      && (p.offset > 0 ==> p == CursorAt(ps, id))
      && CursorAt(ps, id + 1) == Cursor(p.pack, p.offset + |ps[id]|)
      && PackContent(ps, p.pack, id + 1) == PackContent(ps, p.pack, id) + ps[id]
    ensures forall n: nat :: n != Place(ps, id).pack ==> PackContent(ps, n, id + 1) == PackContent(ps, n, id)
  {
    OffsetsTile(ps, id);
    OtherPacksStay(ps, id);
  }

  lemma OtherPacksStay(ps: seq<seq<Byte>>, id: nat)
    requires id < |ps|
    ensures forall n: nat :: n != Place(ps, id).pack ==> PackContent(ps, n, id + 1) == PackContent(ps, n, id)
  {
    hide CursorAt, Place;
  }

  // A pack's entry exists, and is open, exactly when its offset is past 0.
  lemma PackStep(contents: map<EntryName, seq<Byte>>, current: EntryName, ps: seq<seq<Byte>>, id: nat)
    requires id < |ps| && StoredPacks(contents, current, ps, id)
    ensures var p := Place(ps, id);
      var entry := PackEntry(p.pack);
      && (p.offset == 0 <==> entry !in contents)
      && (p.offset > 0 ==> current == entry)
      && (ps[id] == [] ==> StoredPacks(contents, current, ps, id + 1))
      && (ps[id] != [] ==> StoredPacks(
            contents[entry := (if p.offset == 0 then [] else contents[entry]) + ps[id]], entry, ps, id + 1))
  {
    hide CursorAt, Place, PackContent;
    PackGrows(ps, id);
    if ps[id] == [] {
      PackStepEmpty(contents, current, ps, id);
    } else {
      PackStepFull(contents, current, ps, id);
    }
  }

  lemma PackStepEmpty(contents: map<EntryName, seq<Byte>>, current: EntryName, ps: seq<seq<Byte>>, id: nat)
    requires id < |ps| && StoredPacks(contents, current, ps, id) && ps[id] == []
    ensures StoredPacks(contents, current, ps, id + 1)
  {
    hide CursorAt, Place, PackContent;
    PackGrows(ps, id);
    assert forall n: nat :: PackContent(ps, n, id + 1) == PackContent(ps, n, id);
  }

  lemma PackStepFull(contents: map<EntryName, seq<Byte>>, current: EntryName, ps: seq<seq<Byte>>, id: nat)
    requires id < |ps| && StoredPacks(contents, current, ps, id) && ps[id] != []
    ensures var p := Place(ps, id);
      var entry := PackEntry(p.pack);
      && (p.offset == 0 <==> entry !in contents)
      && StoredPacks(
           contents[entry := (if p.offset == 0 then [] else contents[entry]) + ps[id]], entry, ps, id + 1)
  {
    hide CursorAt, Place, PackContent;
    PackGrows(ps, id);
    var p := Place(ps, id);
    var was := PackContent(ps, p.pack, id);
    assert p.offset == 0 ==> was == [];
    assert was + ps[id] != [];
  }

  // ----- The verifier -----

  // The bytes a row stands for, where the archive has them.
  ghost function RowBytes(zip: Zip, row: Row): seq<Byte>
    requires zip.Valid() && HasBytes(zip, row)
    reads zip
  {
    if row.size == 0 then [] else zip.Contents()[row.entry][row.offset..row.offset + row.size]
  }

  ghost predicate HasBytes(zip: Zip, row: Row)
    reads zip
  {
    row.size > 0 ==> row.entry in zip.dir && row.offset + row.size <= zip.dir[row.entry].size
  }

  ghost predicate RowOk(zip: Zip, row: Row, hash: seq<Byte> -> int)
    requires zip.Valid()
    reads zip
  {
    HasBytes(zip, row) && hash(RowBytes(zip, row)) == row.hash
  }

  // Reads every row's bytes from the file in chunks and checks their digest.
  // A failed assertion ends the run.
  method Verify(zip: Zip, rows: seq<Row>, hash: seq<Byte> -> int, extract: bool)
    returns (ok: bool, extracted: seq<seq<Byte>>)
    requires zip.Valid()
    ensures ok <==> forall i :: 0 <= i < |rows| ==> RowOk(zip, rows[i], hash)
    ensures ok && extract ==> |extracted| == |rows|
    ensures ok && extract ==> forall i :: 0 <= i < |rows| ==> extracted[i] == RowBytes(zip, rows[i])
  {
    extracted := [];
    var i := 0;
    while i < |rows|
      invariant 0 <= i <= |rows|
      invariant forall k :: 0 <= k < i ==> RowOk(zip, rows[k], hash)
      invariant extract ==> |extracted| == i
      invariant extract ==> forall k :: 0 <= k < i ==> extracted[k] == RowBytes(zip, rows[k])
    {
      var row := rows[i];
      var found, hashed, output := ReadRow(zip, row, extract);
      if !found || hash(hashed) != row.hash {
        return false, extracted;
      }
      if extract {
        extracted := extracted + [output];
      }
      i := i + 1;
    }
    ok := true;
  }

  // One row's bytes, where the archive has them.
  method ReadRow(zip: Zip, row: Row, extract: bool)
    returns (found: bool, hashed: seq<Byte>, output: seq<Byte>)
    requires zip.Valid()
    ensures found <==> HasBytes(zip, row)
    ensures found ==> hashed == RowBytes(zip, row)
    ensures found && extract ==> output == hashed
  {
    found, hashed, output := true, [], [];
    var position := 0;
    if row.size > 0 {
      if row.entry !in zip.dir || row.offset + row.size > zip.dir[row.entry].size {
        return false, [], [];
      }
      position := zip.dir[row.entry].start + row.offset;
      var x := zip.dir[row.entry];
      assert Within(x, zip.file) && zip.Contents()[row.entry] == Slice(zip.file, x);
      SliceOfSlice(zip.file, x.start, x.start + x.size, row.offset, row.offset + row.size);
    }
    hashed, output := ReadChunks(zip.file, position, row.size, extract);
  }

  lemma SliceOfSlice(s: seq<Byte>, from: nat, to: nat, a: nat, b: nat)
    requires from <= to <= |s| && a <= b <= to - from
    ensures s[from..to][a..b] == s[from + a..from + b]
  {
    assert forall i :: 0 <= i < b - a ==> s[from..to][a..b][i] == s[from + a..from + b][i];
  }

  // The bytes fed to the digest, and those written out.
  method ReadChunks(file: seq<Byte>, start: nat, size: nat, extract: bool)
    returns (hashed: seq<Byte>, output: seq<Byte>)
    requires size > 0 ==> start + size <= |file|
    ensures hashed == if size > 0 then file[start..start + size] else []
    ensures output == if extract then hashed else []
  {
    hashed, output := [], [];
    var remaining := size;
    var position := start;
    while remaining > 0
      invariant 0 <= remaining <= size && position == start + (size - remaining)
      invariant hashed == if size > 0 then file[start..position] else []
      invariant output == if extract then hashed else []
    {
      var requested := if remaining < READ_BUFFER then remaining else READ_BUFFER;
      var buffer := file[position..position + requested];
      hashed := hashed + buffer;
      if extract {
        output := output + buffer;
      }
      position := position + requested;
      remaining := remaining - requested;
    }
  }

  // ----- The round trip -----

  // Every row the writer makes passes, and stands for its payload.
  lemma RowRecovers(zip: Zip, mode: Mode, ps: seq<seq<Byte>>, hash: seq<Byte> -> int, i: nat)
    requires zip.Valid() && Stored(zip.Contents(), zip.current, mode, ps, |ps|) && i < |ps|
    ensures HasBytes(zip, RowFor(mode, ps, hash, i))
    ensures RowBytes(zip, RowFor(mode, ps, hash, i)) == ps[i]
    ensures RowOk(zip, RowFor(mode, ps, hash, i), hash)
  {
    var row := RowFor(mode, ps, hash, i);
    if mode == Pack {
      PlacedInPack(ps, i, |ps|);
    }
    if row.size > 0 {
      assert row.entry in zip.Contents() && |zip.Contents()[row.entry]| == zip.dir[row.entry].size;
    }
    assert RowBytes(zip, row) == ps[i];
  }

  // In both layouts the verifier accepts what the writer made and recovers
  // every payload, so the two layouts restore the same objects.
  method WriteThenVerify(mode: Mode, ps: seq<seq<Byte>>, header: EntryName -> seq<Byte>, hash: seq<Byte> -> int)
    returns (ok: bool, restored: seq<seq<Byte>>)
    ensures ok && restored == ps
  {
    var zip, rows := Write(mode, ps, header, hash);
    forall i | 0 <= i < |ps|
      ensures RowOk(zip, rows[i], hash) && RowBytes(zip, rows[i]) == ps[i]
    {
      RowRecovers(zip, mode, ps, hash, i);
    }
    ok, restored := Verify(zip, rows, hash, true);
  }
}
