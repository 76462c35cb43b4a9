/** SOAP responses: embedding a document in an element, and reading the whole answer back. */
module Soap {
  import opened Prelude
  import opened Numbers
  import opened Entries
  import opened CatalogSpec
  import opened Xml
  import opened Didl
  import opened Browse

  type Values = seq<(string, string)>

  function Prolog(): string {
    "<?xml version=\"1.0\"" + " encoding=\"utf-8\"?>"
  }

  function EnvelopeTag(): string {
    EnvelopeNamespace() + EncodingStyle() + "<s:Body>"
  }

  function EnvelopeNamespace(): string {
    "<s:Envelope xmlns:s=\"" + "http://" + "schemas.xmlsoap.org/" + "soap/envelope/\""
  }

  function EncodingStyle(): string {
    " s:encodingStyle=\"" + "http://" + "schemas.xmlsoap.org/" + "soap/encoding/\">"
  }

  function EnvelopeOpen(serviceType: string, action: string): string {
    Prolog() + EnvelopeTag() + "<u:" + action + "Response xmlns:u=\"" + serviceType + "\">"
  }

  function EnvelopeClose(action: string): string {
    "</u:" + action + "Response></s:Body>" + "</s:Envelope>"
  }

  function Elements(values: Values): string {
    if values == [] then ""
    else Elements(values[..|values| - 1]) + Element(values[|values| - 1].0, values[|values| - 1].1)
  }

  function Response(serviceType: string, action: string, values: Values): string {
    EnvelopeOpen(serviceType, action) + Elements(values) + EnvelopeClose(action)
  }

  /** `soap_response`. */
  method SoapResponse(serviceType: string, action: string, values: Values) returns (output: string)
    ensures output == Response(serviceType, action, values)
  {
    hide EnvelopeOpen, EnvelopeClose, Element;
    var open := EnvelopeOpen(serviceType, action);
    output := open;
    assert values[..0] == [];
    for i := 0 to |values|
      invariant output == open + Elements(values[..i])
    {
      assert values[..i + 1][..i] == values[..i];
      output := AppendElement(output, values[i].0, values[i].1);
    }
    assert values[..|values|] == values;
    output := output + EnvelopeClose(action);
  }

  // --- Reading -------------------------------------------------------------------------------

  /** The text of the element `name` that comes next, as a reader understands it. */
  function TakeElement(s: Input, name: string): (string, Input) {
    var (raw, rest) := TakeText(s, "<" + name + ">", '<');
    (Unescape(raw), Skip(rest, "</" + name + ">"))
  }

  function TakeElements(s: Input, names: seq<string>): (seq<string>, Input)
    decreases |names|
  {
    if names == [] then ([], s)
    else
      var (first, s1) := TakeElement(s, names[0]);
      var (others, s2) := TakeElements(s1, names[1..]);
      ([first] + others, s2)
  }

  /** The texts of the named elements of a response, if it has exactly those. */
  function ReadResponse(s: string, serviceType: string, action: string, names: seq<string>): Option<seq<string>> {
    var (texts, rest) := TakeElements(Skip(Some(s), EnvelopeOpen(serviceType, action)), names);
    if rest == Some(EnvelopeClose(action)) then Some(texts) else None
  }

  function Names(values: Values): (r: seq<string>)
    ensures |r| == |values|
  {
    if values == [] then [] else [values[0].0] + Names(values[1..])
  }

  function Texts(values: Values): (r: seq<string>)
    ensures |r| == |values|
    ensures forall i :: 0 <= i < |values| ==> r[i] == Sanitise(values[i].1)
  {
    if values == [] then [] else [Sanitise(values[0].1)] + Texts(values[1..])
  }

  lemma ElementReads(name: string, value: string, rest: string)
    ensures TakeElement(Some(Element(name, value) + rest), name) == (Sanitise(value), Some(rest))
  {
    var open, close := "<" + name + ">", "</" + name + ">";
    hide Escape, Unescape, Sanitise, TakeText, Skip;
    var tail := Then(close, End);
    TextReads(open, value, '<', close, End, rest);
    LiteralReads(close, End, rest);
    assert Flat(tail, rest) == close + rest;
    assert Flat(Then(Escape(value), tail), rest) == Escape(value) + (close + rest);
    assert Flat(Then(open, Then(Escape(value), tail)), rest) == open + (Escape(value) + (close + rest));
    assert Element(name, value) + rest == open + Escape(value) + close + rest;
    assert open + (Escape(value) + (close + rest)) == open + Escape(value) + close + rest;
  }

  lemma {:induction false} ElementsSplit(values: Values)
    requires values != []
    ensures Elements(values) == Element(values[0].0, values[0].1) + Elements(values[1..])
    decreases |values|
  {
    hide Element;
    var front := values[..|values| - 1];
    if |values| > 1 {
      ElementsSplit(front);
      assert front[1..] == values[1..][..|values| - 2];
      assert Elements(values[1..]) == Elements(front[1..]) + Element(values[|values| - 1].0, values[|values| - 1].1);
    } else {
      assert front == [] && values[1..] == [];
    }
  }

  lemma {:induction false} ElementsRead(values: Values, rest: string)
    ensures TakeElements(Some(Elements(values) + rest), Names(values)) == (Texts(values), Some(rest))
  {
    hide Element, TakeElement, Elements, Sanitise;
    if values == [] {
      NoElements(rest);
    } else {
      ElementsSplit(values);
      var first := Element(values[0].0, values[0].1);
      var others := Elements(values[1..]);
      assert first + others + rest == first + (others + rest);
      ElementReads(values[0].0, values[0].1, others + rest);
      ElementsRead(values[1..], rest);
      assert Names(values)[1..] == Names(values[1..]);
    }
  }

  lemma NoElements(rest: string)
    ensures Elements([]) + rest == rest
  {
  }

  /** Every output argument of a response reads back, with non-XML characters replaced. */
  lemma ResponseReads(serviceType: string, action: string, values: Values)
    ensures ReadResponse(Response(serviceType, action, values), serviceType, action, Names(values))
      == Some(Texts(values))
  {
    hide EnvelopeOpen, EnvelopeClose, Elements, TakeElements;
    ElementsRead(values, EnvelopeClose(action));
    var open, rest := EnvelopeOpen(serviceType, action), Elements(values) + EnvelopeClose(action);
    assert Response(serviceType, action, values) == open + rest;
    assert (open + rest)[|open|..] == rest;
  }

  // --- Browse end to end ---------------------------------------------------------------------

  /** Media classes come from a fixed table and contain neither markup nor control characters. */
  predicate KnownClasses(c: Snapshot) {
    forall id :: id in c.entries && c.entries[id].kind.Media? ==>
      var upnpClass := c.entries[id].kind.media.upnpClass;
      Plain(upnpClass) && '&' !in upnpClass
  }

  const ANSWER_NAMES := ["Result", "NumberReturned", "TotalMatches", "UpdateID"]

  lemma OutputNames(a: Answer)
    ensures Names(Output(a)) == ANSWER_NAMES
  {
    hide Document, Decimal;
    var o := Output(a);
    assert Names(o[1..][1..][1..][1..]) == [];
    assert Names(o[1..][1..][1..]) == ["UpdateID"];
    assert Names(o[1..][1..]) == ["TotalMatches", "UpdateID"];
  }

  lemma {:induction false} ChildrenAreEntries(entries: map<string, Entry>, ids: seq<string>)
    ensures forall e :: e in ChildEntries(entries, ids) ==> exists id :: id in entries && entries[id] == e
  {
    if ids != [] {
      ChildrenAreEntries(entries, ids[1..]);
    }
  }

  lemma PageMembers<T>(s: seq<T>, start: nat, count: nat)
    ensures forall x :: x in Page(s, start, count) ==> x in s
  {
  }

  lemma ArrangedMembers(s: seq<Entry>, order: Option<bool>)
    ensures forall e :: e in Arranged(s, order) ==> e in s
  {
    var a := Arranged(s, order);
    assert multiset(a) == multiset(s);
    assert forall e :: e in a ==> e in multiset(a);
  }

  /** Whatever Browse describes can be printed without loss. */
  lemma AnswersArePrintable(arguments: Arguments, c: Snapshot, bookmarks: Bookmarks, baseUrl: string)
    requires KnownClasses(c)
    ensures var r := BrowseAnswer(arguments, c, bookmarks, baseUrl);
            r.Ok? ==> forall o :: o in r.value.objects ==> Printable(o)
  {
    hide Plain, DescribeResource, FilterHas, ObjectUpdateId, TitleSort, Parse32;
    var r := BrowseAnswer(arguments, c, bookmarks, baseUrl);
    if r.Ok? && arguments["BrowseFlag"] == "BrowseDirectChildren" {
      var id, order := arguments["ObjectID"], TitleSort(arguments["SortCriteria"]).value;
      var children := ChildrenOf(c, id);
      ChildrenAreEntries(c.entries, c.children[id]);
      ArrangedMembers(children, order);
      PageMembers(Arranged(children, order), Parse32(arguments, "StartingIndex").value,
                  Parse32(arguments, "RequestedCount").value);
      var selected := Page(Arranged(children, order), Parse32(arguments, "StartingIndex").value,
                           Parse32(arguments, "RequestedCount").value);
      DescribedArePrintable(selected, c, bookmarks, baseUrl, arguments["Filter"]);
    }
  }

  lemma DescribedArePrintable(s: seq<Entry>, c: Snapshot, bookmarks: Bookmarks, baseUrl: string, filter: string)
    requires KnownClasses(c)
    requires forall e :: e in s ==> exists id :: id in c.entries && c.entries[id] == e
    ensures forall o :: o in DescribeAll(s, c, bookmarks, baseUrl, filter) ==> Printable(o)
  {
    hide Plain, DescribeResource, FilterHas;
    var objects := DescribeAll(s, c, bookmarks, baseUrl, filter);
    forall i | 0 <= i < |objects|
      ensures Printable(objects[i])
    {
      assert s[i] in s;
      var id :| id in c.entries && c.entries[id] == s[i];
    }
  }

  /** The texts a client read carry the answer: its objects, cleaned, and its three numbers. */
  predicate ReadsAs(read: Option<seq<string>>, a: Answer) {
    && read.Some? && |read.value| == 4
    && ReadDocument(read.value[0], Header()) == Some(CleanAll(a.objects))
    && ParseNumber(read.value[1]) == Some(a.numberReturned)
    && ParseNumber(read.value[2]) == Some(a.totalMatches)
    && ParseNumber(read.value[3]) == Some(a.updateId)
  }

  /**
   * The Browse round trip: reading the response undoes the outer escaping and yields the DIDL
   * document and the three numbers; reading that document yields exactly the objects described,
   * in order, each text with its non-XML characters replaced.
   */
  lemma BrowseRoundTrip(arguments: Arguments, c: Snapshot, bookmarks: Bookmarks, baseUrl: string, serviceType: string)
    requires KnownClasses(c) && BrowseAnswer(arguments, c, bookmarks, baseUrl).Ok?
    ensures var a := BrowseAnswer(arguments, c, bookmarks, baseUrl).value;
            ReadsAs(ReadResponse(Response(serviceType, "Browse", Output(a)), serviceType, "Browse", ANSWER_NAMES), a)
  {
    AnswersArePrintable(arguments, c, bookmarks, baseUrl);
    hide BrowseAnswer, Response, ReadResponse, ReadsAs, Output, Names, Texts, Printable, KnownClasses;
    var a := BrowseAnswer(arguments, c, bookmarks, baseUrl).value;
    OutputNames(a);
    ResponseReads(serviceType, "Browse", Output(a));
    TextsReadAs(a);
  }

  lemma TextsReadAs(a: Answer)
    requires forall o :: o in a.objects ==> Printable(o)
    ensures ReadsAs(Some(Texts(Output(a))), a)
  {
    hide Document, ReadDocument, CleanAll, Decimal, Sanitise, Header, Printable, ParseNumber;
    var o := Output(a);
    assert |Texts(o)| == |o| == 4;
    assert o[0].1 == Document(a.objects) && o[1].1 == Decimal(a.numberReturned);
    DocumentSurvives(a.objects);
    DocumentReads(a.objects);
    NumberSurvives(a.numberReturned);
    NumberSurvives(a.totalMatches);
    NumberSurvives(a.updateId);
  }

  function ParseNumber(s: string): Option<nat> {
    if s != "" && AllDigits(s) then Some(DigitsValue(s)) else None
  }

  lemma NumberSurvives(n: nat)
    ensures ParseNumber(Sanitise(Decimal(n))) == Some(n)
  {
    DecimalValue(n);
    DecimalXml(n);
    SanitiseKeeps(Decimal(n));
  }
}
