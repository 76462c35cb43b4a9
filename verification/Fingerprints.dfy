/** The byte stream behind an update identifier can be read back unambiguously. */
module Fingerprints {
  import opened Prelude
  import opened Utf8
  import opened Fnv
  import opened Entries
  import opened Ordering
  import opened CatalogSpec

  /** Agreement on every field that is fingerprinted. */
  predicate SameFields(a: Entry, b: Entry) {
    a.id == b.id && a.parentId == b.parentId && a.title == b.title
    && a.modifiedSeconds == b.modifiedSeconds && a.size == b.size
  }

  /** The same identifiers, with the same fingerprinted fields. */
  ghost predicate SameMetadata(a: map<string, Entry>, b: map<string, Entry>) {
    a.Keys == b.Keys && forall id :: id in a ==> SameFields(a[id], b[id])
  }

  lemma TextFieldReads(a: string, x: seq<byte>, b: string, y: seq<byte>)
    requires Encode(a) + [0xff] + x == Encode(b) + [0xff] + y
    ensures a == b && x == y
  {
    DelimiterSplits(Encode(a), x, Encode(b), y, 0xff);
    EncodeInjective(a, b);
  }

  lemma NumberFieldReads(m: u64, x: seq<byte>, n: u64, y: seq<byte>)
    requires LittleEndian(m) + [0xff] + x == LittleEndian(n) + [0xff] + y
    ensures m == n && x == y
  {
    hide LittleEndian;
    var s := LittleEndian(m) + [0xff] + x;
    assert LittleEndian(m) == s[..8] == LittleEndian(n);
    assert x == s[9..] && y == s[9..];
    LittleEndianInjective(m, n);
  }

  /** The first entry of a stream, and where it ends, are determined. */
  lemma EntryReads(a: Entry, x: seq<byte>, b: Entry, y: seq<byte>)
    requires EntryBytes(a) + x == EntryBytes(b) + y
    ensures SameFields(a, b) && x == y
  {
    hide LittleEndian, Encode;
    var a4, b4 := LittleEndian(a.size) + [0xff] + x, LittleEndian(b.size) + [0xff] + y;
    var a3, b3 := LittleEndian(a.modifiedSeconds) + [0xff] + a4, LittleEndian(b.modifiedSeconds) + [0xff] + b4;
    var a2, b2 := Encode(a.title) + [0xff] + a3, Encode(b.title) + [0xff] + b3;
    var a1, b1 := Encode(a.parentId) + [0xff] + a2, Encode(b.parentId) + [0xff] + b2;
    FlattenEntry(a, x);
    FlattenEntry(b, y);
    TextFieldReads(a.id, a1, b.id, b1);
    TextFieldReads(a.parentId, a2, b.parentId, b2);
    TextFieldReads(a.title, a3, b.title, b3);
    NumberFieldReads(a.modifiedSeconds, a4, b.modifiedSeconds, b4);
    NumberFieldReads(a.size, x, b.size, y);
  }

  lemma FlattenEntry(a: Entry, x: seq<byte>)
    ensures EntryBytes(a) + x ==
      Encode(a.id) + [0xff] + (Encode(a.parentId) + [0xff] + (Encode(a.title) + [0xff]
        + (LittleEndian(a.modifiedSeconds) + [0xff] + (LittleEndian(a.size) + [0xff] + x))))
  {
    hide LittleEndian, Encode;
    var d := LittleEndian(a.size) + [0xff];
    var c := LittleEndian(a.modifiedSeconds) + [0xff];
    var b := Encode(a.title) + [0xff];
    var p := Encode(a.parentId) + [0xff];
    var i := Encode(a.id) + [0xff];
    assert i + (p + (b + (c + d))) + x == i + (p + (b + (c + (d + x))));
  }

  /** The stream determines the ordered list of fingerprinted fields. */
  lemma {:induction false} StreamReads(xs: seq<Entry>, ys: seq<Entry>)
    requires Stream(xs) == Stream(ys)
    ensures |xs| == |ys| && forall i :: 0 <= i < |xs| ==> SameFields(xs[i], ys[i])
  {
    hide EntryBytes;
    if xs == [] || ys == [] {
      EntryBytesNonempty(if xs == [] then ys else xs);
    } else {
      EntryReads(xs[0], Stream(xs[1..]), ys[0], Stream(ys[1..]));
      StreamReads(xs[1..], ys[1..]);
      forall i | 0 <= i < |xs|
        ensures SameFields(xs[i], ys[i])
      {
        if i > 0 {
          assert xs[i] == xs[1..][i - 1] && ys[i] == ys[1..][i - 1];
        }
      }
    }
  }

  lemma EntryBytesNonempty(s: seq<Entry>)
    ensures s != [] ==> |Stream(s)| > 0
  {
  }

  /** The list that is fingerprinted: all entries in identifier order. */
  ghost function InIdOrder(entries: map<string, Entry>): seq<Entry> {
    Sort(ValuesOf(entries), IdBefore)
  }

  lemma InIdOrderEnumerates(entries: map<string, Entry>)
    requires SelfIndexed(entries)
    ensures Enumerates(InIdOrder(entries), entries) && Ordered(InIdOrder(entries), IdBefore)
  {
    ValuesEnumerate(entries);
    IdOrderTotal(ValuesOf(entries));
    SortOrdered(ValuesOf(entries), IdBefore);
    SameMembers(ValuesOf(entries), InIdOrder(entries));
  }

  /**
   * Two catalogs feed the same bytes to the hash exactly when they agree on every fingerprinted
   * field, so their update identifiers differ unless FNV-1a or the fold to 32 bits collides.
   */
  lemma SameStreamIffSameMetadata(a: map<string, Entry>, b: map<string, Entry>)
    requires SelfIndexed(a) && SelfIndexed(b)
    ensures Stream(InIdOrder(a)) == Stream(InIdOrder(b)) <==> SameMetadata(a, b)
    ensures Fingerprint(a) == FoldUpdateId(Extended(OFFSET_BASIS, Stream(InIdOrder(a))))
  {
    var xs, ys := InIdOrder(a), InIdOrder(b);
    InIdOrderEnumerates(a);
    InIdOrderEnumerates(b);
    hide EntryBytes, InIdOrder, Stream, IdBefore;
    if Stream(xs) == Stream(ys) {
      StreamReads(xs, ys);
      MetadataFromFields(a, b, xs, ys);
    }
    if SameMetadata(a, b) {
      FieldsFromMetadata(a, b, xs, ys);
      StreamOfFields(xs, ys);
    }
  }

  lemma MetadataFromFields(a: map<string, Entry>, b: map<string, Entry>, xs: seq<Entry>, ys: seq<Entry>)
    requires SelfIndexed(a) && SelfIndexed(b) && Enumerates(xs, a) && Enumerates(ys, b)
    requires |xs| == |ys| && forall i :: 0 <= i < |xs| ==> SameFields(xs[i], ys[i])
    ensures SameMetadata(a, b)
  {
    forall id | id in a
      ensures id in b && SameFields(a[id], b[id])
    {
      assert a[id] in xs;
      var i :| 0 <= i < |xs| && xs[i] == a[id];
      assert ys[i] in ys;
    }
    forall id | id in b
      ensures id in a
    {
      assert b[id] in ys;
      var i :| 0 <= i < |ys| && ys[i] == b[id];
      assert xs[i] in xs;
    }
  }

  /** Lists in identifier order over the same identifiers line up. */
  lemma {:induction false} FieldsFromMetadata(a: map<string, Entry>, b: map<string, Entry>, xs: seq<Entry>,
                                              ys: seq<Entry>)
    requires SelfIndexed(a) && SelfIndexed(b) && Enumerates(xs, a) && Enumerates(ys, b)
    requires Ordered(xs, IdBefore) && Ordered(ys, IdBefore)
    requires SameMetadata(a, b)
    ensures |xs| == |ys| && forall i :: 0 <= i < |xs| ==> SameFields(xs[i], ys[i])
  {
    var s, t := IdsOf(xs), IdsOf(ys);
    IdsOfEnumeration(a, xs);
    IdsOfEnumeration(b, ys);
    SameElements(s, t);
    StringOrderTotal(s);
    hide StringLess;
    assert Ordered(s, StringLess) by {
      forall i, j | 0 <= i < j < |s|
        ensures !StringLess(s[j], s[i])
      {
        assert !IdBefore(xs[j], xs[i]);
      }
    }
    assert Ordered(t, StringLess) by {
      forall i, j | 0 <= i < j < |t|
        ensures !StringLess(t[j], t[i])
      {
        assert !IdBefore(ys[j], ys[i]);
      }
    }
    SortDetermined(s, t, StringLess);
    forall i | 0 <= i < |xs|
      ensures SameFields(xs[i], ys[i])
    {
      assert s[i] == t[i];
      assert xs[i] in xs && ys[i] in ys;
    }
  }

  lemma IdsOfEnumeration(entries: map<string, Entry>, s: seq<Entry>)
    requires SelfIndexed(entries) && Enumerates(s, entries)
    ensures NoDuplicates(IdsOf(s)) && forall id :: id in IdsOf(s) <==> id in entries
  {
    var r := IdsOf(s);
    forall i | 0 <= i < |s|
      ensures r[i] in entries && entries[r[i]] == s[i]
    {
      assert s[i] in s;
    }
    forall id | id in entries
      ensures id in r
    {
      assert entries[id] in s;
      var i :| 0 <= i < |s| && s[i] == entries[id];
      assert r[i] == id;
    }
  }

  lemma StringOrderTotal(s: seq<string>)
    ensures StrictTotalOn(StringLess, s)
  {
    forall a, b | a in s && b in s
      ensures !StringLess(a, a) && (a == b || StringLess(a, b) || StringLess(b, a))
    {
      StringLessTotal(a, b);
    }
    forall a, b, c | a in s && b in s && c in s && StringLess(a, b) && StringLess(b, c)
      ensures StringLess(a, c)
    {
      StringLessTransitive(a, b, c);
    }
  }

  lemma {:induction false} StreamOfFields(xs: seq<Entry>, ys: seq<Entry>)
    requires |xs| == |ys| && forall i :: 0 <= i < |xs| ==> SameFields(xs[i], ys[i])
    ensures Stream(xs) == Stream(ys)
  {
    if xs != [] {
      StreamOfFields(xs[1..], ys[1..]);
    }
  }

  // --- Per-container update identifiers ------------------------------------------------------

  /** Agreement on the fields that are hashed for one child. */
  predicate SameChild(a: map<string, Entry>, i: string, b: map<string, Entry>, j: string)
    requires i in a && j in b
  {
    i == j && a[i].title == b[j].title && a[i].modifiedSeconds == b[j].modifiedSeconds && a[i].size == b[j].size
  }

  lemma FlattenChild(a: map<string, Entry>, i: string, x: seq<byte>)
    requires i in a
    ensures ChildBytes(a, i) + x
         == Encode(i) + [0xff] + (Encode(a[i].title) + [0xff]
              + (LittleEndian(a[i].modifiedSeconds) + [0xff] + (LittleEndian(a[i].size) + [0xff] + x)))
  {
    hide LittleEndian, Encode;
    var d := LittleEndian(a[i].size) + [0xff];
    var c := LittleEndian(a[i].modifiedSeconds) + [0xff];
    var b := Encode(a[i].title) + [0xff];
    var p := Encode(i) + [0xff];
    assert p + (b + (c + d)) + x == p + (b + (c + (d + x)));
  }

  /** The first child of a stream, and where it ends, are determined. */
  lemma ChildReads(a: map<string, Entry>, i: string, x: seq<byte>, b: map<string, Entry>, j: string, y: seq<byte>)
    requires i in a && j in b && ChildBytes(a, i) + x == ChildBytes(b, j) + y
    ensures SameChild(a, i, b, j) && x == y
  {
    FlattenChild(a, i, x);
    FlattenChild(b, j, y);
    hide LittleEndian, Encode, ChildBytes;
    var a3, b3 := LittleEndian(a[i].size) + [0xff] + x, LittleEndian(b[j].size) + [0xff] + y;
    var a2, b2 := LittleEndian(a[i].modifiedSeconds) + [0xff] + a3, LittleEndian(b[j].modifiedSeconds) + [0xff] + b3;
    var a1, b1 := Encode(a[i].title) + [0xff] + a2, Encode(b[j].title) + [0xff] + b2;
    TextFieldReads(i, a1, j, b1);
    TextFieldReads(a[i].title, a2, b[j].title, b2);
    NumberFieldReads(a[i].modifiedSeconds, a3, b[j].modifiedSeconds, b3);
    NumberFieldReads(a[i].size, x, b[j].size, y);
  }

  lemma {:induction false} FirstChild(a: map<string, Entry>, ids: seq<string>)
    requires ids != []
    ensures ChildStream(a, ids) == ChildBytes(a, ids[0]) + ChildStream(a, ids[1..])
    decreases |ids|
  {
    hide ChildBytes;
    var front, last := ids[..|ids| - 1], ids[|ids| - 1];
    if |ids| == 1 {
      assert front == [] && ids[1..] == [];
    } else {
      FirstChild(a, front);
      assert ids[1..][..|ids| - 2] == front[1..] && ids[1..][|ids| - 2] == last;
      assert ChildBytes(a, ids[0]) + ChildStream(a, front[1..]) + ChildBytes(a, last)
          == ChildBytes(a, ids[0]) + (ChildStream(a, front[1..]) + ChildBytes(a, last));
    }
  }

  lemma NonemptyChild(a: map<string, Entry>, ids: seq<string>)
    ensures ids != [] ==> |ChildStream(a, ids)| > 0
  {
  }

  /** The same children in the same order, with the same hashed fields. */
  ghost predicate SameChildren(a: map<string, Entry>, xs: seq<string>, b: map<string, Entry>, ys: seq<string>)
    requires (forall i :: i in xs ==> i in a) && (forall j :: j in ys ==> j in b)
  {
    |xs| == |ys| && forall k :: 0 <= k < |xs| ==> SameChild(a, xs[k], b, ys[k])
  }

  lemma {:induction false} ChildrenRead(a: map<string, Entry>, xs: seq<string>, b: map<string, Entry>, ys: seq<string>)
    requires (forall i :: i in xs ==> i in a) && (forall j :: j in ys ==> j in b)
    ensures ChildStream(a, xs) == ChildStream(b, ys) <==> SameChildren(a, xs, b, ys)
    decreases |xs|
  {
    hide ChildBytes, SameChild;
    NonemptyChild(a, xs);
    NonemptyChild(b, ys);
    if xs != [] && ys != [] {
      FirstChild(a, xs);
      FirstChild(b, ys);
      assert (forall i :: i in xs[1..] ==> i in xs) && (forall j :: j in ys[1..] ==> j in ys);
      ChildrenRead(a, xs[1..], b, ys[1..]);
      hide ChildStream;
      if ChildStream(a, xs) == ChildStream(b, ys) {
        ChildReads(a, xs[0], ChildStream(a, xs[1..]), b, ys[0], ChildStream(b, ys[1..]));
        forall k | 0 <= k < |xs|
          ensures SameChild(a, xs[k], b, ys[k])
        {
          assert k > 0 ==> xs[1..][k - 1] == xs[k] && ys[1..][k - 1] == ys[k];
        }
      }
      if SameChildren(a, xs, b, ys) {
        SameChildBytes(a, xs[0], b, ys[0]);
        assert forall k :: 0 <= k < |xs| - 1 ==> xs[1..][k] == xs[k + 1] && ys[1..][k] == ys[k + 1];
      }
    }
  }

  lemma SameChildBytes(a: map<string, Entry>, i: string, b: map<string, Entry>, j: string)
    requires i in a && j in b && SameChild(a, i, b, j)
    ensures ChildBytes(a, i) == ChildBytes(b, j)
  {
  }

  /** The bytes hashed for the update identifier of a container. */
  function ObjectStream(c: Snapshot, id: string): seq<byte>
    requires id in c.children
  {
    Encode(id) + [0xff] + ChildStream(c.entries, c.children[id])
  }

  /**
   * Two scanned catalogs feed the same bytes to the hash for two containers exactly when these are
   * the same container with the same children in the same order and the same hashed fields.
   */
  lemma SameObjectStreamIff(c: Snapshot, m: multiset<Entry>, id: string, d: Snapshot, n: multiset<Entry>, jd: string)
    requires IsCatalogOf(c, m) && IsCatalogOf(d, n) && id in c.children && jd in d.children
    ensures (forall i :: i in c.children[id] ==> i in c.entries) && (forall j :: j in d.children[jd] ==> j in d.entries)
    ensures ObjectStream(c, id) == ObjectStream(d, jd)
       <==> id == jd && SameChildren(c.entries, c.children[id], d.entries, d.children[jd])
    ensures ObjectUpdateId(c, id) == FoldUpdateId(Extended(OFFSET_BASIS, ObjectStream(c, id)))
  {
    hide Indexes, Rooted, ListsSorted, Fingerprint, Total, Encode, ChildStream, SameChildren, Extended;
    assert (forall i :: i in c.children[id] ==> i in c.entries) && (forall j :: j in d.children[jd] ==> j in d.entries);
    ChildrenRead(c.entries, c.children[id], d.entries, d.children[jd]);
    if ObjectStream(c, id) == ObjectStream(d, jd) {
      TextFieldReads(id, ChildStream(c.entries, c.children[id]), jd, ChildStream(d.entries, d.children[jd]));
    }
  }
}
