/** The DIDL-Lite dialect: how objects are printed, and a reader that recovers them. */
module Didl {
  import opened Prelude
  import opened Numbers
  import opened Xml

  datatype Resource = Resource(protocolInfo: string, size: Option<nat>, url: string)

  /** One described object, with the fields chosen for it. */
  datatype Object =
    | ContainerObject(id: string, parentId: string, title: string, childCount: Option<nat>)
    | ItemObject(id: string, parentId: string, title: string, upnpClass: string,
                 bookmark: Option<nat>, resource: Option<Resource>)

  /** The opening tag with its four namespaces. */
  function Header(): string {
    DefaultNamespace() + DublinCore() + UpnpNamespace() + SamsungNamespace()
  }

  function DefaultNamespace(): string {
    "<DIDL-Lite xmlns=\"urn" + ":schemas-upnp-org:" + "metadata-1-0/" + "DIDL-Lite/\""
  }

  function DublinCore(): string {
    " xmlns:dc=\"http://" + "purl.org/dc/" + "elements/1.1/\""
  }

  function UpnpNamespace(): string {
    " xmlns:upnp=\"urn" + ":schemas-upnp-org:" + "metadata-1-0/" + "upnp/\""
  }

  function SamsungNamespace(): string {
    " xmlns:sec=\"http://" + "www.sec.co.kr/dlna" + "\">"
  }

  const FOOTER := "</DIDL-Lite>"

  /** Text written piece by piece. */
  datatype Rope = End | Then(head: string, tail: Rope)

  /** The text of a rope followed by `rest`. */
  function Flat(r: Rope, rest: string): string {
    match r
    case End => rest
    case Then(head, tail) => head + Flat(tail, rest)
  }

  lemma {:induction false} FlatAppend(r: Rope, rest: string)
    ensures Flat(r, rest) == Flat(r, "") + rest
  {
    match r
    case End =>
    case Then(head, tail) =>
      FlatAppend(tail, rest);
      assert head + (Flat(tail, "") + rest) == head + Flat(tail, "") + rest;
  }

  // --- Printing ------------------------------------------------------------------------------

  function CountAttribute(count: Option<nat>, tail: Rope): Rope {
    if count.Some? then Then(" childCount=\"", Then(Decimal(count.value), Then("\"", tail))) else tail
  }

  function SizeAttribute(size: Option<nat>, tail: Rope): Rope {
    if size.Some? then Then(" size=\"", Then(Decimal(size.value), Then("\"", tail))) else tail
  }

  function BookmarkElement(title: string, bookmark: Option<nat>, tail: Rope): Rope {
    if bookmark.None? then tail
    else
      var digits := Then(Decimal(bookmark.value), Then("</sec:dcmInfo>", tail));
      Then(BOOKMARK_OPEN, Then(Escape(title), Then(",BM=", digits)))
  }

  function ResourceElement(resource: Option<Resource>, tail: Rope): Rope {
    if resource.None? then tail
    else
      var linked := Then(">", Then(Escape(resource.value.url), Then("</res>", tail)));
      var sized := SizeAttribute(resource.value.size, linked);
      Then(RESOURCE_OPEN, Then(Escape(resource.value.protocolInfo), Then("\"", sized)))
  }

  const CONTAINER_OPEN := "<container id=\""
  const ITEM_OPEN := "<item id=\""
  const PARENT_OPEN := "\" parentID=\""
  const RESTRICTED := "\" restricted=\"1\""
  const ITEM_TITLE_OPEN := "\" restricted=\"1\"" + "><dc:title>"
  const CLASS_OPEN := "</dc:title><upnp:class>"
  const CLASS_CLOSE := "</upnp:class>"
  const BOOKMARK_OPEN := "<sec:dcmInfo>" + "CREATIONDATE=0,FOLDER="
  const RESOURCE_OPEN := "<res protocolInfo=\""
  const FOLDER_CLASS := "object.container" + ".storageFolder"
  const CONTAINER_CLOSE := "</upnp:class>" + "</container>"

  /** The parent attribute, in front of the piece `next`. */
  function Parented(parentId: string, next: string, tail: Rope): Rope {
    Then(PARENT_OPEN, Then(Escape(parentId), Then(next, tail)))
  }

  /** The pieces `append_root` and `append_entry` write for one object. */
  function ObjectRope(o: Object): Rope {
    match o
    case ContainerObject(id, parentId, title, childCount) =>
      var classed := Then(CLASS_OPEN, Then(FOLDER_CLASS, Then(CONTAINER_CLOSE, End)));
      var titled := Then("><dc:title>", Then(Escape(title), classed));
      var counted := CountAttribute(childCount, titled);
      var parented := Parented(parentId, RESTRICTED, counted);
      Then(CONTAINER_OPEN, Then(Escape(id), parented))
    case ItemObject(id, parentId, title, upnpClass, bookmark, resource) =>
      var resourced := ResourceElement(resource, Then("</item>", End));
      var bookmarked := BookmarkElement(title, bookmark, resourced);
      var classed := Then(CLASS_OPEN, Then(upnpClass, Then(CLASS_CLOSE, bookmarked)));
      var parented := Parented(parentId, ITEM_TITLE_OPEN, Then(Escape(title), classed));
      Then(ITEM_OPEN, Then(Escape(id), parented))
  }

  function Render(objects: seq<Object>, rest: string): string {
    if objects == [] then rest else Flat(ObjectRope(objects[0]), Render(objects[1..], rest))
  }

  /** The whole `Result` document. */
  function Document(objects: seq<Object>): string {
    Header() + Render(objects, FOOTER)
  }

  // --- The same text as each write produces it -------------------------------------------------

  function CountText(count: Option<nat>): string {
    if count.Some? then " childCount=\"" + Decimal(count.value) + "\"" else ""
  }

  function SizeText(size: Option<nat>): string {
    if size.Some? then " size=\"" + Decimal(size.value) + "\"" else ""
  }

  /** The text of a container, from already escaped fields. */
  function ContainerText(id: string, parentId: string, count: string, title: string): string {
    (CONTAINER_OPEN + id + PARENT_OPEN + parentId + RESTRICTED) + count
      + ("><dc:title>" + title + CLASS_OPEN + FOLDER_CLASS + CONTAINER_CLOSE)
  }

  function ItemText(id: string, parentId: string, title: string, upnpClass: string): string {
    (ITEM_OPEN + id + PARENT_OPEN + parentId + ITEM_TITLE_OPEN) + (title + CLASS_OPEN + upnpClass + CLASS_CLOSE)
  }

  function BookmarkText(title: string, position: nat): string {
    BOOKMARK_OPEN + title + ",BM=" + Decimal(position) + "</sec:dcmInfo>"
  }

  function ResourceText(protocolInfo: string, size: string, url: string): string {
    RESOURCE_OPEN + protocolInfo + "\"" + size + (">" + url + "</res>")
  }

  lemma Regroup(a: string, b: string, c: string, d: string, e: string, f: string)
    ensures a + (b + (c + (d + (e + f)))) == a + b + c + d + e + f
    ensures a + (b + (c + (d + f))) == a + b + c + d + f
    ensures a + (b + (c + f)) == a + b + c + f
  {
  }

  lemma RegroupWrites(a: string, b: string, c: string, d: string, e: string)
    ensures a + (b + (c + (d + e))) == (a + b) + c + d + e
    ensures a + (b + (c + d)) == a + b + c + d
  {
  }

  lemma FlatThree(a: string, b: string, c: string, tail: Rope)
    ensures Flat(Then(a, Then(b, Then(c, tail))), "") == a + b + c + Flat(tail, "")
  {
    var t := Flat(tail, "");
    assert Flat(Then(b, Then(c, tail)), "") == b + (c + t);
    Regroup(a, b, c, "", "", t);
  }

  lemma CountFlat(count: Option<nat>, tail: Rope)
    ensures Flat(CountAttribute(count, tail), "") == CountText(count) + Flat(tail, "")
  {
    hide Decimal;
    if count.Some? {
      var opening, digits, t := " childCount=\"", Decimal(count.value), Flat(tail, "");
      FlatThree(opening, digits, "\"", tail);
    }
  }

  lemma SizeFlat(size: Option<nat>, tail: Rope)
    ensures Flat(SizeAttribute(size, tail), "") == SizeText(size) + Flat(tail, "")
  {
    hide Decimal;
    if size.Some? {
      var opening, digits, t := " size=\"", Decimal(size.value), Flat(tail, "");
      FlatThree(opening, digits, "\"", tail);
    }
  }

  lemma FlatFive(a: string, b: string, c: string, d: string, e: string, tail: Rope)
    ensures Flat(Then(a, Then(b, Then(c, Then(d, Then(e, tail))))), "") == a + b + c + d + e + Flat(tail, "")
  {
    var t := Flat(tail, "");
    assert Flat(Then(d, Then(e, tail)), "") == d + (e + t);
    assert Flat(Then(b, Then(c, Then(d, Then(e, tail)))), "") == b + (c + (d + (e + t)));
    Regroup(a, b, c, d, e, t);
  }

  lemma FlatFour(a: string, b: string, c: string, d: string, tail: Rope)
    ensures Flat(Then(a, Then(b, Then(c, Then(d, tail)))), "") == a + b + c + d + Flat(tail, "")
  {
    var t := Flat(tail, "");
    assert Flat(Then(c, Then(d, tail)), "") == c + (d + t);
    Regroup(a, b, c, d, "", t);
  }

  lemma ContainerFlat(o: Object)
    requires o.ContainerObject?
    ensures Flat(ObjectRope(o), "") == ContainerText(Escape(o.id), Escape(o.parentId), CountText(o.childCount),
                                                     Escape(o.title))
  {
    hide Escape, Flat, Decimal, CountText, CountAttribute;
    var titled := Then("><dc:title>", Then(Escape(o.title),
                                           Then(CLASS_OPEN, Then(FOLDER_CLASS, Then(CONTAINER_CLOSE, End)))));
    FlatFive("><dc:title>", Escape(o.title), CLASS_OPEN, FOLDER_CLASS, CONTAINER_CLOSE, End);
    FlatEnd("");
    var end := "><dc:title>" + Escape(o.title) + CLASS_OPEN + FOLDER_CLASS + CONTAINER_CLOSE;
    assert Flat(titled, "") == end + "" == end;
    CountFlat(o.childCount, titled);
    var counted := CountAttribute(o.childCount, titled);
    FlatFive(CONTAINER_OPEN, Escape(o.id), PARENT_OPEN, Escape(o.parentId), RESTRICTED, counted);
    var front := CONTAINER_OPEN + Escape(o.id) + PARENT_OPEN + Escape(o.parentId) + RESTRICTED;
    assert front + (CountText(o.childCount) + end) == front + CountText(o.childCount) + end;
  }

  lemma BookmarkFlat(title: string, bookmark: Option<nat>, tail: Rope)
    ensures Flat(BookmarkElement(title, bookmark, tail), "")
         == (if bookmark.Some? then BookmarkText(Escape(title), bookmark.value) else "") + Flat(tail, "")
  {
    hide Escape, Decimal, Flat;
    if bookmark.Some? {
      FlatFive(BOOKMARK_OPEN, Escape(title), ",BM=", Decimal(bookmark.value), "</sec:dcmInfo>", tail);
    }
  }

  lemma ResourceFlat(resource: Option<Resource>, tail: Rope)
    ensures Flat(ResourceElement(resource, tail), "")
         == (if resource.Some? then
               ResourceText(Escape(resource.value.protocolInfo), SizeText(resource.value.size),
                            Escape(resource.value.url))
             else "") + Flat(tail, "")
  {
    if resource.Some? {
      var r := resource.value;
      var t := Flat(tail, "");
      var linked := Then(">", Then(Escape(r.url), Then("</res>", tail)));
      FlatThree(">", Escape(r.url), "</res>", tail);
      var sized := SizeAttribute(r.size, linked);
      SizeFlat(r.size, linked);
      hide Escape, Decimal, SizeText, SizeAttribute, Flat;
      FlatThree(RESOURCE_OPEN, Escape(r.protocolInfo), "\"", sized);
      RegroupWrites(RESOURCE_OPEN + Escape(r.protocolInfo) + "\"", SizeText(r.size), ">" + Escape(r.url)
        + "</res>", t, "");
    }
  }

  lemma ItemFlat(o: Object)
    requires o.ItemObject?
    ensures Flat(ObjectRope(o), "")
         == ItemText(Escape(o.id), Escape(o.parentId), Escape(o.title), o.upnpClass)
            + (if o.bookmark.Some? then BookmarkText(Escape(o.title), o.bookmark.value) else "")
            + (if o.resource.Some? then
                 ResourceText(Escape(o.resource.value.protocolInfo), SizeText(o.resource.value.size),
                              Escape(o.resource.value.url))
               else "")
            + "</item>"
  {
    var close := Then("</item>", End);
    assert Flat(close, "") == "</item>";
    hide Escape, Flat, Decimal, SizeText, BookmarkText, ResourceText, BookmarkElement, ResourceElement;
    var resourced := ResourceElement(o.resource, close);
    var bookmarked := BookmarkElement(o.title, o.bookmark, resourced);
    ResourceFlat(o.resource, close);
    BookmarkFlat(o.title, o.bookmark, resourced);
    var classed := Then(Escape(o.title), Then(CLASS_OPEN, Then(o.upnpClass, Then(CLASS_CLOSE, bookmarked))));
    FlatFour(Escape(o.title), CLASS_OPEN, o.upnpClass, CLASS_CLOSE, bookmarked);
    FlatFive(ITEM_OPEN, Escape(o.id), PARENT_OPEN, Escape(o.parentId), ITEM_TITLE_OPEN, classed);
    RegroupWrites(
      ITEM_OPEN + Escape(o.id) + PARENT_OPEN + Escape(o.parentId) + ITEM_TITLE_OPEN,
      Escape(o.title) + CLASS_OPEN + o.upnpClass + CLASS_CLOSE,
      if o.bookmark.Some? then BookmarkText(Escape(o.title), o.bookmark.value) else "",
      if o.resource.Some? then
        ResourceText(Escape(o.resource.value.protocolInfo), SizeText(o.resource.value.size),
                     Escape(o.resource.value.url))
      else "",
      "</item>");
  }

  // --- Reading -------------------------------------------------------------------------------

  /** What is left to read, or `None` once the text has failed to match. */
  type Input = Option<string>

  function Skip(s: Input, literal: string): Input {
    if s.Some? then StripPrefix(s.value, literal) else None
  }

  /** The text up to `stop`, as written, and what follows. */
  function Take(s: Input, stop: char): (string, Input) {
    if s.None? then ("", None)
    else
      var raw := Until(s.value, stop);
      (raw, Some(s.value[|raw|..]))
  }

  function TakeNumber(s: Input, stop: char): (nat, Input) {
    var (raw, rest) := Take(s, stop);
    if raw != "" && AllDigits(raw) then (DigitsValue(raw), rest) else (0, None)
  }

  predicate Ahead(s: Input, literal: string) {
    s.Some? && literal <= s.value
  }

  /** An optional attribute holding a number. */
  function TakeAttribute(s: Input, opening: string): (Option<nat>, Input) {
    if !Ahead(s, opening) then (None, s)
    else
      var (n, rest) := TakeNumber(Skip(s, opening), '\"');
      (Some(n), Skip(rest, "\""))
  }

  function TakeBookmark(s: Input, rawTitle: string): (Option<nat>, Input) {
    if !Ahead(s, BOOKMARK_OPEN) then (None, s)
    else
      var (n, rest) := TakeNumber(Skip(Skip(Skip(s, BOOKMARK_OPEN), rawTitle), ",BM="), '<');
      (Some(n), Skip(rest, "</sec:dcmInfo>"))
  }

  function TakeResource(s: Input): (Option<Resource>, Input) {
    if !Ahead(s, RESOURCE_OPEN) then (None, s)
    else
      var (protocolInfo, s1) := Take(Skip(s, RESOURCE_OPEN), '\"');
      var (size, s2) := TakeAttribute(Skip(s1, "\""), " size=\"");
      var (url, s3) := Take(Skip(s2, ">"), '<');
      (Some(Resource(Unescape(protocolInfo), size, Unescape(url))), Skip(s3, "</res>"))
  }

  /** An escaped text between a literal and the delimiter that ends it. */
  function TakeText(s: Input, opening: string, stop: char): (string, Input) {
    Take(Skip(s, opening), stop)
  }

  /** The two identifiers every object starts with. */
  function TakeIdentity(s: Input, opening: string): (string, string, Input) {
    var (id, s1) := TakeText(s, opening, '\"');
    var (parentId, s2) := TakeText(s1, PARENT_OPEN, '\"');
    (Unescape(id), Unescape(parentId), s2)
  }

  function TakeContainer(s: Input): (Object, Input) {
    var (id, parentId, s1) := TakeIdentity(s, CONTAINER_OPEN);
    var (count, s2) := TakeAttribute(Skip(s1, RESTRICTED), " childCount=\"");
    var (title, s3) := TakeText(s2, "><dc:title>", '<');
    var s4 := Skip(Skip(Skip(s3, CLASS_OPEN), FOLDER_CLASS), CONTAINER_CLOSE);
    (ContainerObject(id, parentId, Unescape(title), count), s4)
  }

  function TakeItem(s: Input): (Object, Input) {
    var (id, parentId, s1) := TakeIdentity(s, ITEM_OPEN);
    TakeItemBody(s1, id, parentId)
  }

  function TakeItemBody(s: Input, id: string, parentId: string): (Object, Input) {
    var (title, s1) := TakeText(s, ITEM_TITLE_OPEN, '<');
    var (upnpClass, s2) := TakeText(s1, CLASS_OPEN, '<');
    TakeItemEnd(Skip(s2, CLASS_CLOSE), id, parentId, title, upnpClass)
  }

  /** The optional parts of an item, given its title and class as written. */
  function TakeItemEnd(s: Input, id: string, parentId: string, title: string, upnpClass: string): (Object, Input) {
    var (bookmark, s1) := TakeBookmark(s, title);
    var (resource, s2) := TakeResource(s1);
    (ItemObject(id, parentId, Unescape(title), Unescape(upnpClass), bookmark, resource), Skip(s2, "</item>"))
  }

  function TakeObject(s: Input): (Object, Input) {
    if Ahead(s, CONTAINER_OPEN) then TakeContainer(s) else TakeItem(s)
  }

  function ReadObjects(s: string): Option<seq<Object>>
    decreases |s|
  {
    if s == FOOTER then Some([])
    else
      var (o, rest) := TakeObject(Some(s));
      if rest.None? || |rest.value| >= |s| then None
      else
        var others := ReadObjects(rest.value);
        if others.None? then None else Some([o] + others.value)
  }

  /** The reader for a whole document with a given opening tag. */
  function ReadDocument(s: string, header: string): Option<seq<Object>> {
    var body := StripPrefix(s, header);
    if body.None? then None else ReadObjects(body.value)
  }

  // --- Reading back what was printed ---------------------------------------------------------

  function CleanResource(r: Resource): Resource {
    Resource(Sanitise(r.protocolInfo), r.size, Sanitise(r.url))
  }

  /** The object with every non-XML character of its texts replaced. */
  function Clean(o: Object): Object {
    match o
    case ContainerObject(id, parentId, title, childCount) =>
      ContainerObject(Sanitise(id), Sanitise(parentId), Sanitise(title), childCount)
    case ItemObject(id, parentId, title, upnpClass, bookmark, resource) =>
      ItemObject(Sanitise(id), Sanitise(parentId), Sanitise(title), upnpClass, bookmark,
                 if resource.Some? then Some(CleanResource(resource.value)) else None)
  }

  function CleanAll(objects: seq<Object>): seq<Object> {
    if objects == [] then [] else [Clean(objects[0])] + CleanAll(objects[1..])
  }

  /** Classes are written without escaping, which is right for the fixed table they come from. */
  predicate Printable(o: Object) {
    o.ItemObject? ==> Plain(o.upnpClass) && '&' !in o.upnpClass
  }

  lemma LiteralReads(head: string, tail: Rope, rest: string)
    ensures Ahead(Some(Flat(Then(head, tail), rest)), head)
    ensures Skip(Some(Flat(Then(head, tail), rest)), head) == Some(Flat(tail, rest))
  {
    var s := Flat(Then(head, tail), rest);
    assert s[|head|..] == Flat(tail, rest);
  }

  /** A field reads back up to the delimiter that starts the next piece. */
  lemma FieldReads(field: string, stop: char, next: string, tail: Rope, rest: string)
    requires stop !in field && next != "" && next[0] == stop
    ensures Take(Some(Flat(Then(field, Then(next, tail)), rest)), stop) == (field, Some(Flat(Then(next, tail), rest)))
  {
    var after := Flat(Then(next, tail), rest);
    UntilStops(field, stop, after);
    assert (field + after)[|field|..] == after;
  }

  lemma EscapedReads(text: string, stop: char, next: string, tail: Rope, rest: string)
    requires stop == '<' || stop == '\"'
    requires next != "" && next[0] == stop
    ensures Take(Some(Flat(Then(Escape(text), Then(next, tail)), rest)), stop)
         == (Escape(text), Some(Flat(Then(next, tail), rest)))
    ensures Unescape(Escape(text)) == Sanitise(text)
  {
    EscapeIsPlain(text);
    UnescapeEscape(text);
    assert stop !in Escape(text);
    FieldReads(Escape(text), stop, next, tail, rest);
  }

  lemma NumberReads(n: nat, stop: char, next: string, tail: Rope, rest: string)
    requires stop == '<' || stop == '\"'
    requires next != "" && next[0] == stop
    ensures TakeNumber(Some(Flat(Then(Decimal(n), Then(next, tail)), rest)), stop)
      == (n, Some(Flat(Then(next, tail), rest)))
  {
    DecimalValue(n);
    assert stop !in Decimal(n);
    FieldReads(Decimal(n), stop, next, tail, rest);
  }

  /** What is ahead cannot start with a literal that differs in its first or second character. */
  lemma NotAhead(literal: string, next: string, tail: Rope, rest: string)
    requires |literal| >= 2 && |next| >= 2 && (literal[0] != next[0] || literal[1] != next[1])
    ensures !Ahead(Some(Flat(Then(next, tail), rest)), literal)
  {
    var s := Flat(Then(next, tail), rest);
    assert s[0] == next[0] && s[1] == next[1];
  }

  /** An optional number attribute, absent or present, in front of a piece that does not look like it. */
  lemma AttributeReads(opening: string, n: Option<nat>, next: string, tail: Rope, rest: string)
    requires opening != "" && next != "" && opening[0] != next[0]
    ensures var after := Then(next, tail);
            var pieces := if n.Some? then Then(opening, Then(Decimal(n.value), Then("\"", after))) else after;
            TakeAttribute(Some(Flat(pieces, rest)), opening) == (n, Some(Flat(after, rest)))
  {
    hide Decimal, Until, AllDigits, DigitsValue;
    var after := Then(next, tail);
    if n.Some? {
      var digits := Then(Decimal(n.value), Then("\"", after));
      LiteralReads(opening, digits, rest);
      NumberReads(n.value, '\"', "\"", after, rest);
      LiteralReads("\"", after, rest);
    } else {
      var s := Flat(after, rest);
      assert s[0] == next[0];
    }
  }

  lemma TextReads(opening: string, text: string, stop: char, next: string, tail: Rope, rest: string)
    requires stop == '<' || stop == '\"'
    requires next != "" && next[0] == stop
    ensures TakeText(Some(Flat(Then(opening, Then(Escape(text), Then(next, tail))), rest)), opening, stop)
         == (Escape(text), Some(Flat(Then(next, tail), rest)))
    ensures Unescape(Escape(text)) == Sanitise(text)
  {
    hide Escape, Unescape, Sanitise, Flat, Take, Skip;
    LiteralReads(opening, Then(Escape(text), Then(next, tail)), rest);
    EscapedReads(text, stop, next, tail, rest);
  }

  lemma IdentityReads(opening: string, id: string, parentId: string, next: string, tail: Rope, rest: string)
    requires next != "" && next[0] == '\"'
    ensures TakeIdentity(Some(Flat(Then(opening, Then(Escape(id), Parented(parentId, next, tail))), rest)), opening)
         == (Sanitise(id), Sanitise(parentId), Some(Flat(Then(next, tail), rest)))
  {
    hide Escape, Unescape, Sanitise, Flat, TakeText;
    TextReads(opening, id, '\"', PARENT_OPEN, Then(Escape(parentId), Then(next, tail)), rest);
    TextReads(PARENT_OPEN, parentId, '\"', next, tail, rest);
  }

  lemma ContainerReads(o: Object, rest: string)
    requires o.ContainerObject?
    ensures Ahead(Some(Flat(ObjectRope(o), rest)), CONTAINER_OPEN)
    ensures TakeContainer(Some(Flat(ObjectRope(o), rest))) == (Clean(o), Some(rest))
  {
    var close := Then(CONTAINER_CLOSE, End);
    var classed := Then(CLASS_OPEN, Then(FOLDER_CLASS, close));
    var titled := Then("><dc:title>", Then(Escape(o.title), classed));
    var counted := CountAttribute(o.childCount, titled);
    var parented := Parented(o.parentId, RESTRICTED, counted);
    assert ObjectRope(o) == Then(CONTAINER_OPEN, Then(Escape(o.id), parented));
    hide Escape, Unescape, Sanitise, Decimal, Flat, TakeText, TakeIdentity, Skip, TakeAttribute, Ahead, ObjectRope;
    LiteralReads(CONTAINER_OPEN, Then(Escape(o.id), parented), rest);
    IdentityReads(CONTAINER_OPEN, o.id, o.parentId, RESTRICTED, counted, rest);
    LiteralReads(RESTRICTED, counted, rest);
    AttributeReads(" childCount=\"", o.childCount, "><dc:title>", titled.tail, rest);
    TextReads("><dc:title>", o.title, '<', CLASS_OPEN, classed.tail, rest);
    LiteralReads(CLASS_OPEN, classed.tail, rest);
    LiteralReads(FOLDER_CLASS, close, rest);
    LiteralReads(CONTAINER_CLOSE, End, rest);
    FlatEnd(rest);
  }

  lemma FlatEnd(rest: string)
    ensures Flat(End, rest) == rest
  {
  }

  lemma BookmarkReads(title: string, bookmark: Option<nat>, next: string, tail: Rope, rest: string)
    requires |next| >= 2 && next[1] != 's'
    ensures TakeBookmark(Some(Flat(BookmarkElement(title, bookmark, Then(next, tail)), rest)), Escape(title))
         == (bookmark, Some(Flat(Then(next, tail), rest)))
  {
    var after := Then(next, tail);
    if bookmark.Some? {
      var close := Then("</sec:dcmInfo>", after);
      var digits := Then(Decimal(bookmark.value), close);
      assert BookmarkElement(title, bookmark, after) == Then(BOOKMARK_OPEN, Then(Escape(title), Then(",BM=", digits)));
      hide Escape, Decimal, Flat, TakeNumber, Skip, Ahead, BookmarkElement;
      LiteralReads(BOOKMARK_OPEN, Then(Escape(title), Then(",BM=", digits)), rest);
      LiteralReads(Escape(title), Then(",BM=", digits), rest);
      LiteralReads(",BM=", digits, rest);
      NumberReads(bookmark.value, '<', "</sec:dcmInfo>", after, rest);
      LiteralReads("</sec:dcmInfo>", after, rest);
    } else {
      NotAhead(BOOKMARK_OPEN, next, tail, rest);
    }
  }

  lemma ResourceReads(resource: Option<Resource>, next: string, tail: Rope, rest: string)
    requires |next| >= 2 && next[1] != 'r'
    ensures TakeResource(Some(Flat(ResourceElement(resource, Then(next, tail)), rest)))
         == (if resource.Some? then Some(CleanResource(resource.value)) else None, Some(Flat(Then(next, tail), rest)))
  {
    var after := Then(next, tail);
    if resource.Some? {
      var r := resource.value;
      var close := Then("</res>", after);
      var linked := Then(">", Then(Escape(r.url), close));
      var sized := SizeAttribute(r.size, linked);
      assert ResourceElement(resource, after) == Then(RESOURCE_OPEN, Then(Escape(r.protocolInfo), Then("\"", sized)));
      hide Escape, Unescape, Sanitise, Decimal, Flat, Take, Skip, TakeAttribute, Ahead, ResourceElement;
      LiteralReads(RESOURCE_OPEN, Then(Escape(r.protocolInfo), Then("\"", sized)), rest);
      EscapedReads(r.protocolInfo, '\"', "\"", sized, rest);
      LiteralReads("\"", sized, rest);
      AttributeReads(" size=\"", r.size, ">", linked.tail, rest);
      LiteralReads(">", linked.tail, rest);
      EscapedReads(r.url, '<', "</res>", after, rest);
      LiteralReads("</res>", after, rest);
    } else {
      NotAhead(RESOURCE_OPEN, next, tail, rest);
    }
  }

  /** Text without markup or ampersands is its own escaping. */
  lemma {:induction false} PlainEscapesToItself(s: string)
    requires Plain(s) && '&' !in s
    ensures Escape(s) == s
  {
    if s != "" {
      assert forall c :: c in s[1..] ==> c in s;
      PlainEscapesToItself(s[1..]);
      assert s[0] in s && IsXmlChar(s[0]) && !IsMarkup(s[0]) && s[0] != '&';
      assert EscapeChar(s[0]) == [s[0]];
      assert s == [s[0]] + s[1..];
    }
  }

  function TitledRope(o: Object): Rope
    requires o.ItemObject?
  {
    var bookmarked := BookmarkElement(o.title, o.bookmark, ResourceElement(o.resource, Then("</item>", End)));
    Then(Escape(o.title), Then(CLASS_OPEN, Then(o.upnpClass, Then(CLASS_CLOSE, bookmarked))))
  }

  /** The optional parts read back. */
  lemma ItemEndReads(id: string, parentId: string, title: string, upnpClass: string, bookmark: Option<nat>,
                     resource: Option<Resource>, rest: string)
    ensures var bookmarked := BookmarkElement(title, bookmark, ResourceElement(resource, Then("</item>", End)));
            TakeItemEnd(Some(Flat(bookmarked, rest)), id, parentId, Escape(title), Escape(upnpClass))
              == (ItemObject(id, parentId, Sanitise(title), Sanitise(upnpClass), bookmark,
                             if resource.Some? then Some(CleanResource(resource.value)) else None), Some(rest))
  {
    var close := Then("</item>", End);
    var resourced := ResourceElement(resource, close);
    assert resourced.Then? && |resourced.head| >= 2 && resourced.head[1] != 's';
    UnescapeEscape(title);
    UnescapeEscape(upnpClass);
    hide Escape, Unescape, Sanitise, Flat, Skip, TakeBookmark, TakeResource, BookmarkElement, ResourceElement,
         CleanResource;
    BookmarkReads(title, bookmark, resourced.head, resourced.tail, rest);
    ResourceReads(resource, "</item>", End, rest);
    LiteralReads("</item>", End, rest);
    FlatEnd(rest);
  }

  lemma ClassReads(upnpClass: string)
    requires Plain(upnpClass) && '&' !in upnpClass
    ensures Escape(upnpClass) == upnpClass && Sanitise(upnpClass) == upnpClass
  {
    PlainEscapesToItself(upnpClass);
    SanitiseKeeps(upnpClass);
  }

  lemma ItemBodyReads(o: Object, rest: string)
    requires o.ItemObject? && Printable(o)
    ensures TakeItemBody(Some(Flat(Then(ITEM_TITLE_OPEN, TitledRope(o)), rest)), Sanitise(o.id), Sanitise(o.parentId))
              == (Clean(o), Some(rest))
  {
    ClassReads(o.upnpClass);
    var bookmarked := BookmarkElement(o.title, o.bookmark, ResourceElement(o.resource, Then("</item>", End)));
    var closed := Then(CLASS_CLOSE, bookmarked);
    var classed := Then(CLASS_OPEN, Then(o.upnpClass, closed));
    hide Escape, Unescape, Sanitise, Flat, TakeText, Skip, TakeItemEnd, BookmarkElement, ResourceElement, Printable,
         Plain,
         CleanResource;
    TextReads(ITEM_TITLE_OPEN, o.title, '<', CLASS_OPEN, classed.tail, rest);
    TextReads(CLASS_OPEN, o.upnpClass, '<', CLASS_CLOSE, bookmarked, rest);
    LiteralReads(CLASS_CLOSE, bookmarked, rest);
    ItemEndReads(Sanitise(o.id), Sanitise(o.parentId), o.title, o.upnpClass, o.bookmark, o.resource, rest);
  }

  lemma ItemRope(o: Object)
    requires o.ItemObject?
    ensures ObjectRope(o) == Then(ITEM_OPEN, Then(Escape(o.id), Parented(o.parentId, ITEM_TITLE_OPEN, TitledRope(o))))
  {
    hide Escape, BookmarkElement, ResourceElement, Parented;
  }

  lemma ItemReads(o: Object, rest: string)
    requires o.ItemObject? && Printable(o)
    ensures !Ahead(Some(Flat(ObjectRope(o), rest)), CONTAINER_OPEN)
    ensures TakeItem(Some(Flat(ObjectRope(o), rest))) == (Clean(o), Some(rest))
  {
    hide *;
    ItemBodyReads(o, rest);
    ItemRope(o);
    ItemStart(o.id, Parented(o.parentId, ITEM_TITLE_OPEN, TitledRope(o)), rest);
    ItemIdentity(o.id, o.parentId, TitledRope(o), rest);
  }

  lemma ItemStart(id: string, tail: Rope, rest: string)
    ensures !Ahead(Some(Flat(Then(ITEM_OPEN, Then(Escape(id), tail)), rest)), CONTAINER_OPEN)
  {
    hide Escape, Flat, Ahead;
    NotAhead(CONTAINER_OPEN, ITEM_OPEN, Then(Escape(id), tail), rest);
  }

  lemma ItemIdentity(id: string, parentId: string, titled: Rope, rest: string)
    ensures TakeItem(Some(Flat(Then(ITEM_OPEN, Then(Escape(id), Parented(parentId, ITEM_TITLE_OPEN, titled))), rest)))
         == TakeItemBody(Some(Flat(Then(ITEM_TITLE_OPEN, titled), rest)), Sanitise(id), Sanitise(parentId))
  {
    hide Escape, Unescape, Sanitise, Flat, TakeIdentity, TakeItemBody, Parented;
    IdentityReads(ITEM_OPEN, id, parentId, ITEM_TITLE_OPEN, titled, rest);
  }

  lemma ObjectReads(o: Object, rest: string)
    requires Printable(o)
    ensures TakeObject(Some(Flat(ObjectRope(o), rest))) == (Clean(o), Some(rest))
  {
    hide TakeContainer, TakeItem, Ahead, Flat, ObjectRope;
    if o.ContainerObject? {
      ContainerReads(o, rest);
    } else {
      ItemReads(o, rest);
    }
  }

  lemma {:induction false} FlatGrows(r: Rope, rest: string)
    ensures |Flat(r, rest)| >= |rest|
    ensures r.Then? && r.head != "" ==> |Flat(r, rest)| > |rest| && Flat(r, rest)[0] == r.head[0]
    ensures r.Then? && |r.head| >= 2 ==> |Flat(r, rest)| >= 2 && Flat(r, rest)[1] == r.head[1]
  {
    match r
    case End =>
    case Then(_, tail) => FlatGrows(tail, rest);
  }

  lemma {:induction false} RenderReads(objects: seq<Object>)
    requires forall o :: o in objects ==> Printable(o)
    ensures ReadObjects(Render(objects, FOOTER)) == Some(CleanAll(objects))
  {
    hide Clean, TakeObject, ObjectRope, Flat, Printable;
    if objects != [] {
      var rest := Render(objects[1..], FOOTER);
      RenderReads(objects[1..]);
      ObjectReads(objects[0], rest);
      NeverFooter(objects[0], rest);
    }
  }

  lemma NeverFooter(o: Object, rest: string)
    ensures Flat(ObjectRope(o), rest) != FOOTER && |Flat(ObjectRope(o), rest)| > |rest|
  {
    hide Flat;
    var r := ObjectRope(o);
    assert r.Then? && |r.head| >= 2 && r.head[1] != '/';
    FlatGrows(r, rest);
    assert FOOTER[1] == '/';
  }

  /** The reader recovers from a printed document exactly the objects printed, in order. */
  lemma DocumentReads(objects: seq<Object>)
    requires forall o :: o in objects ==> Printable(o)
    ensures ReadDocument(Document(objects), Header()) == Some(CleanAll(objects))
  {
    hide Render, ReadObjects, Header, CleanAll, Printable;
    RenderReads(objects);
    var s := Document(objects);
    assert s[|Header()|..] == Render(objects, FOOTER);
  }

  // --- A document contains XML characters only -----------------------------------------------

  predicate AllXml(s: string) {
    forall c :: c in s ==> IsXmlChar(c)
  }

  predicate RopeXml(r: Rope) {
    r.End? || (AllXml(r.head) && RopeXml(r.tail))
  }

  lemma {:induction false} FlatXml(r: Rope, rest: string)
    requires RopeXml(r) && AllXml(rest)
    ensures AllXml(Flat(r, rest))
  {
    match r
    case End =>
    case Then(_, tail) => FlatXml(tail, rest);
  }

  lemma EscapedXml(s: string)
    ensures AllXml(Escape(s))
  {
    EscapeIsPlain(s);
  }

  lemma DecimalXml(n: nat)
    ensures AllXml(Decimal(n))
  {
    assert forall c :: c in Decimal(n) ==> IsDigit(c);
  }

  lemma CountXml(count: Option<nat>, tail: Rope)
    requires RopeXml(tail)
    ensures RopeXml(CountAttribute(count, tail)) && RopeXml(SizeAttribute(count, tail))
  {
    if count.Some? {
      DecimalXml(count.value);
      hide Decimal;
      var digits := Then(Decimal(count.value), Then("\"", tail));
      assert RopeXml(Then("\"", tail)) && RopeXml(digits);
    }
  }

  lemma LiteralsAreXml()
    ensures AllXml(CONTAINER_OPEN) && AllXml(ITEM_OPEN) && AllXml(PARENT_OPEN) && AllXml(RESTRICTED)
    ensures AllXml(ITEM_TITLE_OPEN) && AllXml(CLASS_OPEN) && AllXml(CLASS_CLOSE) && AllXml(BOOKMARK_OPEN)
    ensures AllXml(RESOURCE_OPEN) && AllXml(FOLDER_CLASS) && AllXml(CONTAINER_CLOSE)
    ensures AllXml("><dc:title>") && AllXml(",BM=") && AllXml("</sec:dcmInfo>") && AllXml("</res>") && AllXml("</item>")
    ensures AllXml(FOOTER)
  {
    OpeningsXml();
    ClosingsXml();
    BothXml("\" restricted=\"1\"", "><dc:title>");
    hide AllXml;
    FolderXml();
    BookmarkOpenXml();
  }

  lemma BothXml(a: string, b: string)
    ensures AllXml(a) && AllXml(b) ==> AllXml(a + b)
  {
  }

  lemma OpeningsXml()
    ensures AllXml(CONTAINER_OPEN) && AllXml(ITEM_OPEN) && AllXml(PARENT_OPEN) && AllXml(RESTRICTED)
    ensures AllXml(RESOURCE_OPEN) && AllXml("><dc:title>") && AllXml(",BM=")
  {
  }

  lemma ClosingsXml()
    ensures AllXml(CLASS_OPEN) && AllXml(CLASS_CLOSE) && AllXml("</sec:dcmInfo>")
    ensures AllXml("</res>") && AllXml("</item>") && AllXml(FOOTER)
  {
  }

  lemma FolderXml()
    ensures AllXml(FOLDER_CLASS) && AllXml(CONTAINER_CLOSE)
  {
    assert AllXml("object.container") && AllXml(".storageFolder");
    assert AllXml("</upnp:class>") && AllXml("</container>");
    hide AllXml;
    BothXml("object.container", ".storageFolder");
    BothXml("</upnp:class>", "</container>");
  }

  lemma BookmarkOpenXml()
    ensures AllXml(BOOKMARK_OPEN)
  {
    assert AllXml("<sec:dcmInfo>") && AllXml("CREATIONDATE=0,FOLDER=");
    hide AllXml;
    BothXml("<sec:dcmInfo>", "CREATIONDATE=0,FOLDER=");
  }

  lemma ResourceXml(resource: Option<Resource>, tail: Rope)
    requires RopeXml(tail)
    ensures RopeXml(ResourceElement(resource, tail))
  {
    if resource.Some? {
      var r := resource.value;
      LiteralsAreXml();
      EscapedXml(r.protocolInfo);
      EscapedXml(r.url);
      hide AllXml, Escape;
      assert AllXml(">") && AllXml("\"") by { ShortXml(); }
      var linked := Then(">", Then(Escape(r.url), Then("</res>", tail)));
      assert RopeXml(Then("</res>", tail)) && RopeXml(linked.tail) && RopeXml(linked);
      var sized := SizeAttribute(r.size, linked);
      CountXml(r.size, linked);
      assert RopeXml(Then("\"", sized)) && RopeXml(Then(Escape(r.protocolInfo), Then("\"", sized)));
    }
  }

  lemma ShortXml()
    ensures AllXml(">") && AllXml("\"")
  {
  }

  lemma BookmarkXml(title: string, bookmark: Option<nat>, tail: Rope)
    requires RopeXml(tail)
    ensures RopeXml(BookmarkElement(title, bookmark, tail))
  {
    if bookmark.Some? {
      LiteralsAreXml();
      EscapedXml(title);
      DecimalXml(bookmark.value);
      hide AllXml, Escape, Decimal;
      var digits := Then(Decimal(bookmark.value), Then("</sec:dcmInfo>", tail));
      assert RopeXml(digits.tail) && RopeXml(digits) && RopeXml(Then(",BM=", digits));
      assert RopeXml(Then(Escape(title), Then(",BM=", digits)));
    }
  }

  lemma ParentedXml(opening: string, id: string, parentId: string, next: string, tail: Rope)
    requires RopeXml(tail) && AllXml(opening) && AllXml(next)
    ensures RopeXml(Then(opening, Then(Escape(id), Parented(parentId, next, tail))))
  {
    LiteralsAreXml();
    EscapedXml(id);
    EscapedXml(parentId);
    hide AllXml, Escape;
    assert RopeXml(Then(next, tail)) && RopeXml(Then(Escape(parentId), Then(next, tail)));
    assert RopeXml(Parented(parentId, next, tail)) && RopeXml(Then(Escape(id), Parented(parentId, next, tail)));
  }

  lemma ObjectXml(o: Object)
    requires Printable(o)
    ensures RopeXml(ObjectRope(o))
  {
    LiteralsAreXml();
    EscapedXml(o.title);
    assert o.ItemObject? ==> AllXml(o.upnpClass);
    hide AllXml, Escape, Parented, BookmarkElement, ResourceElement, CountAttribute;
    match o
    case ContainerObject(id, parentId, title, childCount) =>
      var classed := Then(CLASS_OPEN, Then(FOLDER_CLASS, Then(CONTAINER_CLOSE, End)));
      assert RopeXml(Then(CONTAINER_CLOSE, End)) && RopeXml(classed.tail) && RopeXml(classed);
      var titled := Then("><dc:title>", Then(Escape(title), classed));
      assert RopeXml(titled.tail) && RopeXml(titled);
      CountXml(childCount, titled);
      ParentedXml(CONTAINER_OPEN, id, parentId, RESTRICTED, CountAttribute(childCount, titled));
    case ItemObject(id, parentId, title, upnpClass, bookmark, resource) =>
      var close := Then("</item>", End);
      assert RopeXml(close);
      ResourceXml(resource, close);
      var bookmarked := BookmarkElement(title, bookmark, ResourceElement(resource, close));
      BookmarkXml(title, bookmark, ResourceElement(resource, close));
      var classed := Then(CLASS_OPEN, Then(upnpClass, Then(CLASS_CLOSE, bookmarked)));
      assert RopeXml(Then(CLASS_CLOSE, bookmarked)) && RopeXml(classed.tail) && RopeXml(classed);
      ParentedXml(ITEM_OPEN, id, parentId, ITEM_TITLE_OPEN, Then(Escape(title), classed));
  }

  lemma {:induction false} RenderXml(objects: seq<Object>)
    requires forall o :: o in objects ==> Printable(o)
    ensures AllXml(Render(objects, FOOTER))
  {
    hide ObjectRope, Flat, Printable;
    if objects == [] {
      LiteralsAreXml();
    } else {
      RenderXml(objects[1..]);
      ObjectXml(objects[0]);
      FlatXml(ObjectRope(objects[0]), Render(objects[1..], FOOTER));
    }
  }

  lemma HeaderXml()
    ensures AllXml(Header())
  {
    NamespacesXml();
    hide DefaultNamespace, DublinCore, UpnpNamespace, SamsungNamespace, AllXml;
    BothXml(DefaultNamespace(), DublinCore());
    BothXml(DefaultNamespace() + DublinCore(), UpnpNamespace());
    BothXml(DefaultNamespace() + DublinCore() + UpnpNamespace(), SamsungNamespace());
  }

  lemma NamespacesXml()
    ensures AllXml(DefaultNamespace()) && AllXml(DublinCore()) && AllXml(UpnpNamespace()) && AllXml(SamsungNamespace())
  {
    hide AllXml;
    PiecesXml();
    MorePiecesXml();
    JoinXml("<DIDL-Lite xmlns=\"urn", ":schemas-upnp-org:", "metadata-1-0/", "DIDL-Lite/\"");
    JoinXml(" xmlns:dc=\"http://", "purl.org/dc/", "elements/1.1/\"", "");
    JoinXml(" xmlns:upnp=\"urn", ":schemas-upnp-org:", "metadata-1-0/", "upnp/\"");
    JoinXml(" xmlns:sec=\"http://", "www.sec.co.kr/dlna", "\">", "");
  }

  lemma JoinXml(a: string, b: string, c: string, d: string)
    requires AllXml(a) && AllXml(b) && AllXml(c) && AllXml(d)
    ensures AllXml(a + b + c) && AllXml(a + b + c + d)
  {
  }

  lemma PiecesXml()
    ensures AllXml("<DIDL-Lite xmlns=\"urn") && AllXml(":schemas-upnp-org:") && AllXml("metadata-1-0/")
    ensures AllXml("DIDL-Lite/\"") && AllXml("upnp/\"") && AllXml(" xmlns:upnp=\"urn")
  {
  }

  lemma MorePiecesXml()
    ensures AllXml(" xmlns:dc=\"http://") && AllXml("purl.org/dc/") && AllXml("elements/1.1/\"")
    ensures AllXml(" xmlns:sec=\"http://") && AllXml("www.sec.co.kr/dlna") && AllXml("\">") && AllXml("")
  {
  }

  /** Embedding a document in a SOAP response replaces none of its characters. */
  lemma DocumentSurvives(objects: seq<Object>)
    requires forall o :: o in objects ==> Printable(o)
    ensures Sanitise(Document(objects)) == Document(objects)
  {
    hide Render, Header, Printable;
    HeaderXml();
    RenderXml(objects);
    SanitiseKeeps(Document(objects));
  }

  /** The tags and attributes around the fields of a printed object. */
  lemma Tags()
    ensures CONTAINER_OPEN == "<container id=\"" && ITEM_OPEN == "<item id=\""
    ensures PARENT_OPEN == "\" parentID=\"" && RESTRICTED == "\" restricted=\"1\""
    ensures ITEM_TITLE_OPEN == "\" restricted=\"1\"><dc:title>" && CLASS_OPEN == "</dc:title><upnp:class>"
    ensures CLASS_CLOSE == "</upnp:class>" && FOLDER_CLASS == "object.container.storageFolder"
    ensures CONTAINER_CLOSE == "</upnp:class></container>" && RESOURCE_OPEN == "<res protocolInfo=\""
    ensures BOOKMARK_OPEN == "<sec:dcmInfo>CREATIONDATE=0,FOLDER=" && FOOTER == "</DIDL-Lite>"
  {
  }
}
