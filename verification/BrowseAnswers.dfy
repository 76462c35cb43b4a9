/** What Browse answers, told from its arguments and the entries of a scanned catalog. */
module BrowseAnswers {
  import opened Prelude
  import opened Utf8
  import opened Numbers
  import opened Xml
  import opened Identity
  import opened Entries
  import opened Ordering
  import opened CatalogSpec
  import opened Didl
  import opened Listing
  import opened Browse
  import opened BrowsePages

  // --- The order of the children -------------------------------------------------------------

  /** The entries filed under `id`, each once. */
  ghost predicate ListsChildren(s: seq<Entry>, m: multiset<Entry>, id: string) {
    NoDuplicates(s) && forall e :: e in s <==> e in m && e.parentId == id
  }

  /** The list is in the order that the text of the criteria asks for. */
  ghost predicate InOrderOf(s: seq<Entry>, criteria: string, c: Snapshot, id: string)
    requires id in c.children
  {
    && (criteria == "" ==> IdsOf(s) == c.children[id])
    && (criteria == "+dc:title" ==> Ascending(s))
    && (criteria == "-dc:title" ==> Descending(s))
  }

  ghost predicate Ascending(s: seq<Entry>) {
    forall i, j :: 0 <= i < j < |s| ==> Ascends(s[i], s[j])
  }

  ghost predicate Descending(s: seq<Entry>) {
    forall i, j :: 0 <= i < j < |s| ==> Ascends(s[j], s[i])
  }

  lemma ChildIds(c: Snapshot, m: multiset<Entry>, id: string)
    requires IsCatalogOf(c, m) && id in c.children
    ensures IdsOf(ChildrenOf(c, id)) == c.children[id]
  {
    hide Rooted, ListsSorted, Fingerprint, Total;
    EveryLookupSucceeds(c.entries, c.children[id]);
  }

  lemma SortedAscends(children: seq<Entry>)
    requires NoDuplicates(children) && IdsDistinguish(children)
    ensures Ascending(Sort(children, TitledBefore))
  {
    TitleOrderTotal(children);
    SortOrdered(children, TitledBefore);
    hide TitledBefore, Sort, Ascends;
    var s := Sort(children, TitledBefore);
    SameMembers(children, s);
    forall i, j | 0 <= i < j < |s|
      ensures Ascends(s[i], s[j])
    {
      assert s[i] in s && s[j] in s;
      TitledBeforeTotal(s[i], s[j]);
      TitledIsAscending(s[i], s[j]);
    }
  }

  lemma ReverseDescends(s: seq<Entry>)
    requires Ascending(s)
    ensures Descending(Reverse(s))
  {
    hide Ascends;
  }

  lemma ArrangedAscends(children: seq<Entry>, criteria: string)
    requires NoDuplicates(children) && IdsDistinguish(children) && TitleSort(criteria).Some?
    ensures var s := Arranged(children, TitleSort(criteria).value);
            && (criteria == "" ==> s == children)
            && (criteria == "+dc:title" ==> Ascending(s)) && (criteria == "-dc:title" ==> Descending(s))
  {
    SortedAscends(children);
    ReverseDescends(Sort(children, TitledBefore));
    TitleSortSpelled(criteria);
    hide Sort, Ascending, Descending, TitleSort;
  }

  lemma TitleSortSpelled(criteria: string)
    ensures TitleSort(criteria) ==
      if criteria == "" then Some(None) else if criteria == "+dc:title" then Some(Some(false))
      else if criteria == "-dc:title" then Some(Some(true)) else None
    ensures criteria == "+dc:title" || criteria == "-dc:title" ==> criteria != ""
    ensures !(criteria == "+dc:title" && criteria == "-dc:title")
  {
    assert "+dc:title"[0] != "-dc:title"[0];
  }

  lemma ArrangedLists(children: seq<Entry>, order: Option<bool>)
    ensures forall e :: e in Arranged(children, order) <==> e in children
    ensures NoDuplicates(children) ==> NoDuplicates(Arranged(children, order))
  {
    ArrangedLength(children, order);
    hide Arranged;
    SameMembers(children, Arranged(children, order));
  }

  /** The children in the order asked for. */
  lemma ArrangedInOrder(c: Snapshot, m: multiset<Entry>, id: string, criteria: string)
    requires IsCatalogOf(c, m) && HasChildren(c, id) && TitleSort(criteria).Some?
    ensures id in c.children
    ensures var s := Arranged(ChildrenOf(c, id), TitleSort(criteria).value);
            ListsChildren(s, m, id) && InOrderOf(s, criteria, c, id)
  {
    ChildrenOfScanned(c, m, id);
    ChildIds(c, m, id);
    ArrangedLists(ChildrenOf(c, id), TitleSort(criteria).value);
    hide IsCatalogOf, ChildrenOf, Ascending, Descending, Arranged, TitleSort, HasChildren, IdsDistinguish;
    var children := ChildrenOf(c, id);
    ArrangedAscends(children, criteria);
    var s := Arranged(children, TitleSort(criteria).value);
    ListsAll(s, children, m, id);
    IdsInOrder(s, children, criteria, c, id);
  }

  lemma ListsAll(s: seq<Entry>, children: seq<Entry>, m: multiset<Entry>, id: string)
    requires NoDuplicates(s) && forall e :: e in s <==> e in children
    requires forall e :: e in children <==> e in m && e.parentId == id
    ensures ListsChildren(s, m, id)
  {
  }

  lemma IdsInOrder(s: seq<Entry>, children: seq<Entry>, criteria: string, c: Snapshot, id: string)
    requires id in c.children && IdsOf(children) == c.children[id]
    requires criteria == "" ==> s == children
    requires (criteria == "+dc:title" ==> Ascending(s)) && (criteria == "-dc:title" ==> Descending(s))
    ensures InOrderOf(s, criteria, c, id)
  {
    hide Ascending, Descending;
  }

  /** The four texts are there, and the two numbers are written in digits. */
  predicate AsksFor(arguments: Arguments, flag: string, start: nat, count: nat) {
    && start <= U32_MAX && count <= U32_MAX
    && "ObjectID" in arguments && "SortCriteria" in arguments && "Filter" in arguments
    && "BrowseFlag" in arguments && arguments["BrowseFlag"] == flag
    && "StartingIndex" in arguments && arguments["StartingIndex"] == Decimal(start)
    && "RequestedCount" in arguments && arguments["RequestedCount"] == Decimal(count)
  }

  lemma Understood(arguments: Arguments, flag: string, start: nat, count: nat)
    requires AsksFor(arguments, flag, start, count)
    ensures WellFormed(arguments) && arguments["BrowseFlag"] == flag
    ensures Parse32(arguments, "StartingIndex") == Some(start) && Parse32(arguments, "RequestedCount") == Some(count)
  {
    ParseDecimal(start, U32_MAX);
    ParseDecimal(count, U32_MAX);
    hide ParseUnsigned, Decimal;
  }

  lemma AnswerIs(arguments: Arguments, c: Snapshot, bookmarks: Bookmarks, baseUrl: string, start: nat, count: nat)
    requires AsksFor(arguments, "BrowseDirectChildren", start, count)
    requires TitleSort(arguments["SortCriteria"]).Some? && HasChildren(c, arguments["ObjectID"])
    ensures var id := arguments["ObjectID"];
            var children := ChildrenOf(c, id);
            var selected := Page(Arranged(children, TitleSort(arguments["SortCriteria"]).value), start, count);
            BrowseAnswer(arguments, c, bookmarks, baseUrl)
              == Ok(Answer(DescribeAll(selected, c, bookmarks, baseUrl, arguments["Filter"]), |selected|, |children|,
                           ObjectUpdateId(c, id)))
  {
    Understood(arguments, "BrowseDirectChildren", start, count);
    assert "BrowseDirectChildren" != "BrowseMetadata";
    hide ObjectUpdateId, DescribeAll, ChildrenOf, Arranged, Page, TitleSort, HasChildren, Describe, DescribeRoot,
         WellFormed, Parse32, AsksFor;
  }

  lemma PageItems<T>(s: seq<T>, start: nat, count: nat)
    ensures |Page(s, start, count)| == if count == 0 then Max(0, |s| - start) else Min(count, Max(0, |s| - start))
    ensures forall i :: 0 <= i < |Page(s, start, count)| ==> start + i < |s| && Page(s, start, count)[i] == s[start + i]
  {
    var page := Page(s, start, count);
    if start <= |s| {
      assert page == s[start..][..|page|];
    }
  }

  /**
   * Browsing the children of the root or of a container answers with a slice of its children in the
   * order that SortCriteria spells: the catalog's own, titles ascending, or titles descending.
   */
  lemma ChildrenAnswered(arguments: Arguments, c: Snapshot, m: multiset<Entry>, bookmarks: Bookmarks, baseUrl: string,
                         start: nat, count: nat)
    returns (s: seq<Entry>)
    requires IsCatalogOf(c, m) && AsksFor(arguments, "BrowseDirectChildren", start, count)
    requires arguments["SortCriteria"] in {"", "+dc:title", "-dc:title"}
    requires arguments["ObjectID"] == "0" || IsContainer(c.entries, arguments["ObjectID"])
    ensures var id := arguments["ObjectID"];
            id in c.children && ListsChildren(s, m, id) && InOrderOf(s, arguments["SortCriteria"], c, id)
    ensures var r := BrowseAnswer(arguments, c, bookmarks, baseUrl);
            && r.Ok? && r.value.totalMatches == |s| && r.value.numberReturned == |r.value.objects|
            && r.value.numberReturned == (if count == 0 then Max(0, |s| - start) else Min(count, Max(0, |s| - start)))
            && (forall i :: 0 <= i < |r.value.objects| ==>
                 r.value.objects[i] == Describe(s[start + i], c, bookmarks, baseUrl, arguments["Filter"]))
            && r.value.updateId == ObjectUpdateId(c, arguments["ObjectID"])
  {
    var id, criteria, filter := arguments["ObjectID"], arguments["SortCriteria"], arguments["Filter"];
    ChildrenOfScanned(c, m, id);
    TitleSortSpelled(criteria);
    hide *;
    var order := TitleSort(criteria).value;
    s := Arranged(ChildrenOf(c, id), order);
    ArrangedInOrder(c, m, id, criteria);
    ArrangedLength(ChildrenOf(c, id), order);
    AnswerIs(arguments, c, bookmarks, baseUrl, start, count);
    PageItems(s, start, count);
  }

  // --- Other answers -------------------------------------------------------------------------

  /**
   * Browsing metadata answers with the object itself, whatever the order and the slice asked for; the
   * update identifier of an item is that of the catalog.
   */
  lemma MetadataAnswered(arguments: Arguments, c: Snapshot, m: multiset<Entry>, bookmarks: Bookmarks, baseUrl: string,
                         start: nat, count: nat)
    requires IsCatalogOf(c, m) && AsksFor(arguments, "BrowseMetadata", start, count)
    requires arguments["SortCriteria"] in {"", "+dc:title", "-dc:title"}
    ensures var r := BrowseAnswer(arguments, c, bookmarks, baseUrl);
            var id, filter := arguments["ObjectID"], arguments["Filter"];
            && (r.Ok? <==> id == "0" || id in c.entries)
            && (r.Ok? ==>
                 && r.value.numberReturned == 1 && r.value.totalMatches == 1
                 && r.value.objects == [if id == "0" then DescribeRoot(c, filter)
                                        else Describe(c.entries[id], c, bookmarks, baseUrl, filter)]
                 && r.value.updateId == (if id != "0" && c.entries[id].kind.Media? then c.updateId
                                         else ObjectUpdateId(c, id)))
  {
    Understood(arguments, "BrowseMetadata", start, count);
    TitleSortSpelled(arguments["SortCriteria"]);
    ItemIdIs(c, m, arguments["ObjectID"]);
    hide IsCatalogOf, ObjectUpdateId, Describe, DescribeRoot, ChildrenOf, Arranged, Page, DescribeAll, HasChildren,
         WellFormed, Parse32, AsksFor, TitleSort;
  }

  lemma ItemIdIs(c: Snapshot, m: multiset<Entry>, id: string)
    requires IsCatalogOf(c, m)
    ensures id in c.entries && c.entries[id].kind.Media? ==> ObjectUpdateId(c, id) == c.updateId
  {
  }

  /** A number of 32 bits, as `str::parse` reads it: digits, after a plus sign or not. */
  predicate IsNumber32(s: string) {
    var digits := if s != "" && s[0] == '+' then s[1..] else s;
    digits != "" && AllDigits(digits) && DigitsValue(digits) < 0x1_0000_0000
  }

  /**
   * The error of the first check that fails: 402 for an argument that is missing or no number, 709
   * for an unknown order, 402 for an unknown flag, 701 for an object that is not there or, when its
   * children are asked for, is no container.
   */
  lemma BrowseFails(arguments: Arguments, c: Snapshot, m: multiset<Entry>, bookmarks: Bookmarks, baseUrl: string)
    requires IsCatalogOf(c, m)
    ensures var r := BrowseAnswer(arguments, c, bookmarks, baseUrl);
            if !(&& "ObjectID" in arguments && "BrowseFlag" in arguments && "SortCriteria" in arguments
                 && "Filter" in arguments && "StartingIndex" in arguments && "RequestedCount" in arguments
                 && IsNumber32(arguments["StartingIndex"]) && IsNumber32(arguments["RequestedCount"]))
            then r == Err(402)
            else
              var id, flag := arguments["ObjectID"], arguments["BrowseFlag"];
              if arguments["SortCriteria"] !in {"", "+dc:title", "-dc:title"} then r == Err(709)
              else if flag !in {"BrowseMetadata", "BrowseDirectChildren"} then r == Err(402)
              else if id != "0" && id !in c.entries then r == Err(701)
              else if flag == "BrowseDirectChildren" && id != "0" && c.entries[id].kind.Media? then r == Err(701)
              else r.Ok?
  {
    if "ObjectID" in arguments {
      ChildrenOfScanned(c, m, arguments["ObjectID"]);
    }
    NumbersRead(arguments);
    RootIsNoEntry(c, m);
    FailsWhen(arguments, c, bookmarks, baseUrl);
    if "SortCriteria" in arguments {
      TitleSortSpelled(arguments["SortCriteria"]);
    }
    hide IsCatalogOf, IsNumber32, Parse32, BrowseAnswer, HasChildren, TitleSort, ChildrenOf;
  }

  lemma FailsWhen(arguments: Arguments, c: Snapshot, bookmarks: Bookmarks, baseUrl: string)
    ensures var r := BrowseAnswer(arguments, c, bookmarks, baseUrl);
            if !WellFormed(arguments) then r == Err(402)
            else if TitleSort(arguments["SortCriteria"]).None? then r == Err(709)
            else
              var id := arguments["ObjectID"];
              if arguments["BrowseFlag"] == "BrowseMetadata" then
                if id == ROOT_ID || id in c.entries then r.Ok? else r == Err(701)
              else if arguments["BrowseFlag"] == "BrowseDirectChildren" then
                if HasChildren(c, id) then r.Ok? else r == Err(701)
              else r == Err(402)
  {
    hide ObjectUpdateId, Describe, DescribeRoot, Page, ChildrenOf, Arranged, DescribeAll, WellFormed, HasChildren,
         Parse32, TitleSort;
    if WellFormed(arguments) {
      HasArguments(arguments);
    }
  }

  lemma HasArguments(arguments: Arguments)
    requires WellFormed(arguments)
    ensures "ObjectID" in arguments && "BrowseFlag" in arguments && "SortCriteria" in arguments && "Filter" in arguments
    ensures Parse32(arguments, "StartingIndex").Some? && Parse32(arguments, "RequestedCount").Some?
  {
  }

  lemma NumbersRead(arguments: Arguments)
    ensures Parse32(arguments, "StartingIndex").Some? <==>
            "StartingIndex" in arguments && IsNumber32(arguments["StartingIndex"])
    ensures Parse32(arguments, "RequestedCount").Some? <==>
            "RequestedCount" in arguments && IsNumber32(arguments["RequestedCount"])
  {
    hide DigitsValue;
  }

  lemma RootIsNoEntry(c: Snapshot, m: multiset<Entry>)
    requires IsCatalogOf(c, m)
    ensures "0" !in c.entries
  {
  }
}
