/** Catalog entries and the orders in which they are listed and fingerprinted. */
module Entries {
  import opened Prelude
  import opened Utf8
  import opened Identity
  import opened Ordering

  datatype MediaCategory = Audio | Video | Image

  datatype MediaKind = MediaKind(
    category: MediaCategory, mimeType: string, upnpClass: string, dlnaProfile: Option<string>)

  datatype EntryKind = Container | Media(media: MediaKind)

  datatype Entry = Entry(
    id: string, parentId: string, title: string, path: Path, kind: EntryKind, size: u64,
    modifiedSeconds: u64)

  function EntryRank(kind: EntryKind): nat {
    if kind.Container? then 0 else 1
  }

  /** Listing order: containers first, then by title, then by identifier. */
  predicate ListedBefore(a: Entry, b: Entry) {
    || EntryRank(a.kind) < EntryRank(b.kind)
    || (EntryRank(a.kind) == EntryRank(b.kind) && TitledBefore(a, b))
  }

  /** Title order, with the identifier breaking ties. */
  predicate TitledBefore(a: Entry, b: Entry) {
    StringLess(a.title, b.title) || (a.title == b.title && StringLess(a.id, b.id))
  }

  predicate IdBefore(a: Entry, b: Entry) {
    StringLess(a.id, b.id)
  }

  /** An identifier names at most one entry of `s`. */
  ghost predicate IdsDistinguish(s: seq<Entry>) {
    forall a, b :: a in s && b in s && a.id == b.id ==> a == b
  }

  lemma TitledBeforeTotal(a: Entry, b: Entry)
    ensures !TitledBefore(a, a)
    ensures TitledBefore(a, b) || TitledBefore(b, a) || a.id == b.id
    ensures !(TitledBefore(a, b) && TitledBefore(b, a))
  {
    StringLessTotal(a.title, b.title);
    StringLessTotal(a.id, b.id);
  }

  lemma TitledBeforeTransitive(a: Entry, b: Entry, c: Entry)
    requires TitledBefore(a, b) && TitledBefore(b, c)
    ensures TitledBefore(a, c)
  {
    if StringLess(a.title, b.title) && StringLess(b.title, c.title) {
      StringLessTransitive(a.title, b.title, c.title);
    }
    if StringLess(a.id, b.id) && StringLess(b.id, c.id) {
      StringLessTransitive(a.id, b.id, c.id);
    }
  }

  lemma TitleOrderTotal(s: seq<Entry>)
    requires IdsDistinguish(s)
    ensures StrictTotalOn(TitledBefore, s)
  {
    forall a, b | a in s && b in s
      ensures !TitledBefore(a, a) && (a == b || TitledBefore(a, b) || TitledBefore(b, a))
    {
      TitledBeforeTotal(a, b);
    }
    forall a, b, c | a in s && b in s && c in s && TitledBefore(a, b) && TitledBefore(b, c)
      ensures TitledBefore(a, c)
    {
      TitledBeforeTransitive(a, b, c);
    }
  }

  lemma ListOrderTotal(s: seq<Entry>)
    requires IdsDistinguish(s)
    ensures StrictTotalOn(ListedBefore, s)
  {
    forall a, b | a in s && b in s
      ensures !ListedBefore(a, a) && (a == b || ListedBefore(a, b) || ListedBefore(b, a))
    {
      TitledBeforeTotal(a, b);
    }
    forall a, b, c | a in s && b in s && c in s && ListedBefore(a, b) && ListedBefore(b, c)
      ensures ListedBefore(a, c)
    {
      if TitledBefore(a, b) && TitledBefore(b, c) {
        TitledBeforeTransitive(a, b, c);
      }
    }
  }

  lemma IdOrderTotal(s: seq<Entry>)
    requires IdsDistinguish(s)
    ensures StrictTotalOn(IdBefore, s)
  {
    forall a, b | a in s && b in s
      ensures !IdBefore(a, a) && (a == b || IdBefore(a, b) || IdBefore(b, a))
    {
      StringLessTotal(a.id, b.id);
    }
    forall a, b, c | a in s && b in s && c in s && IdBefore(a, b) && IdBefore(b, c)
      ensures IdBefore(a, c)
    {
      StringLessTransitive(a.id, b.id, c.id);
    }
  }
}
