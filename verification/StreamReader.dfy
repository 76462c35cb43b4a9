/** What is hashed into update identifiers, told by a reader of the bytes. */
module StreamReader {
  import opened Prelude
  import opened Utf8
  import opened Fnv
  import opened Entries
  import opened Ordering
  import opened CatalogSpec
  import opened Fingerprints

  type Bytes = seq<byte>

  /** An entry of the content fingerprint, and one of a container's. */
  datatype Record = Record(id: Bytes, parentId: Bytes, title: Bytes, modifiedSeconds: nat, size: nat)
  datatype ChildRecord = ChildRecord(id: Bytes, title: Bytes, modifiedSeconds: nat, size: nat)

  // --- Reading -------------------------------------------------------------------------------

  /** The bytes before the first 0xff, and those after it. */
  function TakeText(s: Bytes): (r: (Bytes, Bytes))
    ensures |r.1| <= |s| && (s != [] ==> |r.1| < |s|)
  {
    if s == [] then ([], [])
    else if s[0] == 0xff then ([], s[1..])
    else
      var (text, rest) := TakeText(s[1..]);
      ([s[0]] + text, rest)
  }

  /** Eight bytes, least significant first, and what follows the byte after them. */
  function TakeNumber(s: Bytes): (r: (nat, Bytes))
    ensures |r.1| <= |s|
  {
    if |s| < 9 then (0, []) else (Denoted(s[..8]), s[9..])
  }

  function TakeRecord(s: Bytes): (r: (Record, Bytes))
    ensures s != [] ==> |r.1| < |s|
  {
    var (id, s1) := TakeText(s);
    var (parentId, s2) := TakeText(s1);
    var (title, s3) := TakeText(s2);
    var (modifiedSeconds, s4) := TakeNumber(s3);
    var (size, s5) := TakeNumber(s4);
    (Record(id, parentId, title, modifiedSeconds, size), s5)
  }

  function TakeChild(s: Bytes): (r: (ChildRecord, Bytes))
    ensures s != [] ==> |r.1| < |s|
  {
    var (id, s1) := TakeText(s);
    var (title, s2) := TakeText(s1);
    var (modifiedSeconds, s3) := TakeNumber(s2);
    var (size, s4) := TakeNumber(s3);
    (ChildRecord(id, title, modifiedSeconds, size), s4)
  }

  function ReadRecords(s: Bytes): seq<Record>
    decreases |s|
  {
    if s == [] then []
    else
      var (record, rest) := TakeRecord(s);
      [record] + ReadRecords(rest)
  }

  function ReadChildren(s: Bytes): seq<ChildRecord>
    decreases |s|
  {
    if s == [] then []
    else
      var (child, rest) := TakeChild(s);
      [child] + ReadChildren(rest)
  }

  /** A container's own identifier, and its children. */
  function ReadObject(s: Bytes): (Bytes, seq<ChildRecord>) {
    var (id, rest) := TakeText(s);
    (id, ReadChildren(rest))
  }

  // --- Writing, then reading -----------------------------------------------------------------

  function RecordOf(e: Entry): Record {
    Record(Encode(e.id), Encode(e.parentId), Encode(e.title), e.modifiedSeconds, e.size)
  }

  function ChildRecordOf(e: Entry): ChildRecord {
    ChildRecord(Encode(e.id), Encode(e.title), e.modifiedSeconds, e.size)
  }

  function RecordsOf(s: seq<Entry>): seq<Record> {
    if s == [] then [] else [RecordOf(s[0])] + RecordsOf(s[1..])
  }

  lemma {:induction false} TextRead(text: Bytes, rest: Bytes)
    requires 0xff !in text
    ensures TakeText(text + [0xff] + rest) == (text, rest)
  {
    var s := text + [0xff] + rest;
    if text == [] {
      assert s[1..] == rest;
    } else {
      assert s[1..] == text[1..] + [0xff] + rest;
      TextRead(text[1..], rest);
      assert s[0] == text[0] && text == [text[0]] + text[1..];
    }
  }

  lemma NumberRead(n: u64, rest: Bytes)
    ensures TakeNumber(LittleEndian(n) + [0xff] + rest) == (n, rest)
  {
    hide LittleEndian, Denoted;
    LittleEndianDenotes(n);
    var s := LittleEndian(n) + [0xff] + rest;
    assert s[..8] == LittleEndian(n) && s[9..] == rest;
  }

  lemma RecordRead(e: Entry, rest: Bytes)
    ensures TakeRecord(EntryBytes(e) + rest) == (RecordOf(e), rest)
  {
    hide LittleEndian, Encode, TakeText, TakeNumber;
    var s4 := LittleEndian(e.size) + [0xff] + rest;
    var s3 := LittleEndian(e.modifiedSeconds) + [0xff] + s4;
    var s2 := Encode(e.title) + [0xff] + s3;
    var s1 := Encode(e.parentId) + [0xff] + s2;
    FlattenEntry(e, rest);
    TextRead(Encode(e.id), s1);
    TextRead(Encode(e.parentId), s2);
    TextRead(Encode(e.title), s3);
    NumberRead(e.modifiedSeconds, s4);
    NumberRead(e.size, rest);
  }

  lemma ChildRead(entries: map<string, Entry>, id: string, rest: Bytes)
    requires id in entries && entries[id].id == id
    ensures TakeChild(ChildBytes(entries, id) + rest) == (ChildRecordOf(entries[id]), rest)
  {
    hide LittleEndian, Encode, TakeText, TakeNumber;
    var e := entries[id];
    var s3 := LittleEndian(e.size) + [0xff] + rest;
    var s2 := LittleEndian(e.modifiedSeconds) + [0xff] + s3;
    var s1 := Encode(e.title) + [0xff] + s2;
    FlattenChild(entries, id, rest);
    TextRead(Encode(id), s1);
    TextRead(Encode(e.title), s2);
    NumberRead(e.modifiedSeconds, s3);
    NumberRead(e.size, rest);
  }

  lemma {:induction false} RecordsRead(s: seq<Entry>)
    ensures ReadRecords(Stream(s)) == RecordsOf(s)
  {
    hide EntryBytes, TakeRecord;
    if s != [] {
      RecordRead(s[0], Stream(s[1..]));
      RecordsRead(s[1..]);
      EntryBytesNonempty(s);
    }
  }

  lemma {:induction false} ChildrenRead(entries: map<string, Entry>, ids: seq<string>)
    requires forall id :: id in ids ==> id in entries && entries[id].id == id
    ensures var read := ReadChildren(ChildStream(entries, ids));
            |read| == |ids| && forall i :: 0 <= i < |ids| ==> read[i] == ChildRecordOf(entries[ids[i]])
  {
    hide ChildBytes, TakeChild;
    if ids != [] {
      assert ids[0] in ids;
      FirstChild(entries, ids);
      ChildRead(entries, ids[0], ChildStream(entries, ids[1..]));
      ChildrenRead(entries, ids[1..]);
      NonemptyChild(entries, ids);
    }
  }

  // --- Update identifiers --------------------------------------------------------------------

  /** Each entry once, identifiers ascending by code point. */
  ghost predicate InOrderOfIds(s: seq<Entry>, entries: map<string, Entry>) {
    && (forall e :: e in s <==> e.id in entries && entries[e.id] == e)
    && (forall i, j :: 0 <= i < j < |s| ==> CodePointsBefore(s[i].id, s[j].id))
  }

  /** The 64-bit hash of which a catalog's update identifier is the fold. */
  ghost function ContentHash(c: Snapshot): u64 {
    Extended(OFFSET_BASIS, Stream(InIdOrder(c.entries)))
  }

  ghost function ObjectHash(c: Snapshot, id: string): u64
    requires id in c.children
  {
    Extended(OFFSET_BASIS, ObjectStream(c, id))
  }

  /**
   * The update identifier of a catalog folds the hash of bytes in which a reader finds identifier,
   * parent, title, date and size of every entry, in ascending order of identifiers.
   */
  lemma CatalogIdCovers(c: Snapshot, m: multiset<Entry>) returns (s: seq<Entry>)
    requires IsCatalogOf(c, m)
    ensures InOrderOfIds(s, c.entries)
    ensures ContentHash(c) == Extended(OFFSET_BASIS, Stream(s)) && ReadRecords(Stream(s)) == RecordsOf(s)
    ensures c.updateId == FoldUpdateId(ContentHash(c))
  {
    s := InIdOrder(c.entries);
    RecordsRead(s);
    hide Linked, Rooted, ListsSorted, Total, Extended, Stream, RecordsOf, ReadRecords, InIdOrder, InOrderOfIds;
    IdsAscend(c.entries);
  }

  lemma IdsAscend(entries: map<string, Entry>)
    requires SelfIndexed(entries)
    ensures InOrderOfIds(InIdOrder(entries), entries)
  {
    InIdOrderEnumerates(entries);
    hide InIdOrder, CodePointsBefore, StringLess, Ordered, NoDuplicates;
    var s := InIdOrder(entries);
    forall i, j | 0 <= i < j < |s|
      ensures CodePointsBefore(s[i].id, s[j].id)
    {
      IdsApart(s, i, j);
      StringLessTotal(s[i].id, s[j].id);
      OrderedByCodePoints(s[i].id, s[j].id);
    }
  }

  lemma IdsApart(s: seq<Entry>, i: nat, j: nat)
    requires i < j < |s| && NoDuplicates(s) && Ordered(s, IdBefore)
    requires forall e, f :: e in s && f in s && e.id == f.id ==> e == f
    ensures s[i].id != s[j].id && !StringLess(s[j].id, s[i].id)
  {
    hide StringLess;
    assert s[i] in s && s[j] in s;
    assert !IdBefore(s[j], s[i]);
  }

  /**
   * That of a container folds the hash of bytes in which a reader finds its own identifier and then
   * identifier, title, date and size of every child, in listing order.
   */
  lemma ObjectIdCovers(c: Snapshot, m: multiset<Entry>, id: string)
    requires IsCatalogOf(c, m) && id in c.children
    ensures ObjectUpdateId(c, id) == FoldUpdateId(ObjectHash(c, id))
    ensures forall i :: i in c.children[id] ==> i in c.entries
    ensures var (own, children) := ReadObject(ObjectStream(c, id));
            && own == Encode(id) && |children| == |c.children[id]|
            && forall i :: 0 <= i < |children| ==> children[i] == ChildRecordOf(c.entries[c.children[id][i]])
  {
    TextRead(Encode(id), ChildStream(c.entries, c.children[id]));
    hide Encode, ChildStream, TakeText, ReadChildren;
    ChildrenRead(c.entries, c.children[id]);
  }

  /**
   * Update identifiers are as sensitive as 32 bits allow: they differ whenever the two 64-bit hashes
   * agree in one half and differ in the other.
   */
  lemma UpdateIdsDiffer(c: Snapshot, m: multiset<Entry>, d: Snapshot, n: multiset<Entry>)
    requires IsCatalogOf(c, m) && IsCatalogOf(d, n)
    ensures var (g, h) := (ContentHash(c), ContentHash(d));
            (g % U32_COUNT == h % U32_COUNT) != (g / U32_COUNT == h / U32_COUNT) ==> c.updateId != d.updateId
    ensures forall i, j :: i in c.children && j in d.children ==>
      var (g, h) := (ObjectHash(c, i), ObjectHash(d, j));
      (g % U32_COUNT == h % U32_COUNT) != (g / U32_COUNT == h / U32_COUNT) ==>
        ObjectUpdateId(c, i) != ObjectUpdateId(d, j)
  {
    var _ := CatalogIdCovers(c, m);
    var _ := CatalogIdCovers(d, n);
    hide Extended, FoldUpdateId, Stream, ObjectStream;
    FoldSeparates(ContentHash(c), ContentHash(d));
    forall i, j | i in c.children && j in d.children
      ensures var (g, h) := (ObjectHash(c, i), ObjectHash(d, j));
              (g % U32_COUNT == h % U32_COUNT) != (g / U32_COUNT == h / U32_COUNT) ==>
                ObjectUpdateId(c, i) != ObjectUpdateId(d, j)
    {
      ObjectIdCovers(c, m, i);
      ObjectIdCovers(d, n, j);
      FoldSeparates(ObjectHash(c, i), ObjectHash(d, j));
    }
  }
}
