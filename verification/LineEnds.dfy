/**
 * A reader that normalises line ends, as section 2.11 of XML 1.0 has it: what it recovers from a
 * Browse response, and when that is what was described.
 */
module LineEnds {
  import opened Prelude
  import opened Numbers
  import opened CatalogSpec
  import opened Xml
  import opened Didl
  import opened Browse
  import opened Soap

  /** A carriage return, alone or with a line feed, becomes one line feed. */
  function Normalise(s: string): string {
    if s == "" then ""
    else if s[0] != '\r' then [s[0]] + Normalise(s[1..])
    else if |s| > 1 && s[1] == '\n' then "\n" + Normalise(s[2..])
    else "\n" + Normalise(s[1..])
  }

  predicate Straight(s: string) {
    '\r' !in s
  }

  lemma {:induction false} NormalisedIsStraight(s: string)
    ensures Straight(Normalise(s))
  {
    if s != "" {
      NormalisedIsStraight(s[1..]);
      if |s| > 1 {
        NormalisedIsStraight(s[2..]);
      }
    }
  }

  lemma {:induction false} StraightIsKept(s: string)
    requires Straight(s)
    ensures Normalise(s) == s
  {
    if s != "" {
      assert forall c :: c in s[1..] ==> c in s;
      StraightIsKept(s[1..]);
    }
  }

  lemma NormaliseTwice(s: string)
    ensures Normalise(Normalise(s)) == Normalise(s)
  {
    NormalisedIsStraight(s);
    StraightIsKept(Normalise(s));
  }

  /** What one more character in front does. */
  lemma NormaliseCons(c: char, t: string)
    ensures c != '\r' ==> Normalise([c] + t) == [c] + Normalise(t)
    ensures c == '\r' && t != "" && t[0] == '\n' ==> Normalise([c] + t) == "\n" + Normalise(t[1..])
    ensures c == '\r' && !(t != "" && t[0] == '\n') ==> Normalise([c] + t) == "\n" + Normalise(t)
  {
    var s := [c] + t;
    assert s[1..] == t;
    if t != "" {
      assert s[2..] == t[1..];
    }
  }

  lemma ConsParts(c: char, t: string, b: string)
    ensures ([c] + t) + b == [c] + (t + b)
    ensures t != "" ==> (t + b)[0] == t[0] && (t + b)[1..] == t[1..] + b
    ensures t == "" ==> t + b == b
  {
  }

  /** Texts may be normalised one after the other unless a line end straddles the joint. */
  lemma {:induction false} NormaliseConcat(a: string, b: string)
    requires Straight(a) || b == "" || b[0] != '\n'
    ensures Normalise(a + b) == Normalise(a) + Normalise(b)
    decreases |a|
  {
    if a == "" {
      assert a + b == b;
    } else {
      var c, t := a[0], a[1..];
      assert a == [c] + t && c in a && forall x :: x in t ==> x in a;
      hide Normalise;
      ConsParts(c, t, b);
      NormaliseCons(c, t);
      NormaliseCons(c, t + b);
      NormaliseConcat(t, b);
      if c == '\r' && t != "" && t[0] == '\n' {
        assert forall x :: x in t[1..] ==> x in a;
        NormaliseConcat(t[1..], b);
        ConsParts('\n', Normalise(t[1..]), Normalise(b));
      } else {
        ConsParts(if c == '\r' then '\n' else c, Normalise(t), Normalise(b));
      }
    }
  }

  /** Escaping and normalising can be exchanged: escaping neither adds nor hides line ends. */
  lemma {:induction false} EscapeNormalised(s: string)
    ensures Normalise(Escape(s)) == Escape(Normalise(s))
    decreases |s|
  {
    if s != "" {
      EscapeNormalised(s[1..]);
      var head, tail := EscapeChar(s[0]), Escape(s[1..]);
      if s[0] == '\r' {
        EscapedStart(s[1..]);
        assert head == "\r";
        assert (head + tail)[1..] == tail;
        if |s| > 1 && s[1] == '\n' {
          EscapeNormalised(s[2..]);
          assert s[1..][1..] == s[2..];
          assert tail == "\n" + Escape(s[2..]);
          assert (head + tail)[2..] == Escape(s[2..]);
        }
        EscapeConcat("\n", Normalise(if |s| > 1 && s[1] == '\n' then s[2..] else s[1..]));
        assert Escape("\n") == EscapeChar('\n') + Escape("") == "\n";
      } else {
        EscapedCharIsStraight(s[0]);
        NormaliseConcat(head, tail);
        StraightIsKept(head);
        EscapeConcat([s[0]], Normalise(s[1..]));
        assert Escape([s[0]]) == EscapeChar(s[0]) + Escape("");
      }
    }
  }

  lemma EscapedStart(s: string)
    ensures Escape(s) != "" && Escape(s)[0] == '\n' <==> s != "" && s[0] == '\n'
  {
  }

  lemma EscapedCharIsStraight(c: char)
    requires c != '\r'
    ensures Straight(EscapeChar(c))
  {
  }

  lemma {:induction false} SanitiseKeepsReturns(s: string)
    ensures Straight(Sanitise(s)) <==> Straight(s)
  {
    if s != "" {
      SanitiseKeepsReturns(s[1..]);
      assert s == [s[0]] + s[1..];
    }
  }

  /** A reader that normalises recovers an escaped text with its line ends normalised. */
  lemma UnescapeNormalised(s: string)
    ensures Unescape(Normalise(Escape(s))) == Sanitise(Normalise(s))
  {
    EscapeNormalised(s);
    UnescapeEscape(Normalise(s));
  }

  /** That is the text itself, sanitised, exactly when there is no carriage return in it. */
  lemma SameTextIff(s: string)
    ensures Sanitise(Normalise(s)) == Sanitise(s) <==> Straight(s)
  {
    if Straight(s) {
      StraightIsKept(s);
    } else {
      NormalisedIsStraight(s);
      SanitiseKeepsReturns(s);
      SanitiseKeepsReturns(Normalise(s));
    }
  }

  // --- Objects -------------------------------------------------------------------------------

  function NormalResource(r: Resource): Resource {
    Resource(Normalise(r.protocolInfo), r.size, Normalise(r.url))
  }

  /** The object with the line ends of its texts normalised. */
  function NormalObject(o: Object): Object {
    match o
    case ContainerObject(id, parentId, title, childCount) =>
      ContainerObject(Normalise(id), Normalise(parentId), Normalise(title), childCount)
    case ItemObject(id, parentId, title, upnpClass, bookmark, resource) =>
      ItemObject(Normalise(id), Normalise(parentId), Normalise(title), Normalise(upnpClass), bookmark,
                 if resource.Some? then Some(NormalResource(resource.value)) else None)
  }

  function NormalAll(objects: seq<Object>): seq<Object> {
    if objects == [] then [] else [NormalObject(objects[0])] + NormalAll(objects[1..])
  }

  /** The pieces of `q` are those of `r`, normalised, and no line end straddles two pieces of `r`. */
  predicate Normals(r: Rope, q: Rope) {
    match r
    case End => q.End?
    case Then(head, tail) =>
      && q.Then? && q.head == Normalise(head) && Normals(tail, q.tail)
      && (Straight(head) || (tail.Then? && tail.head != "" && tail.head[0] != '\n'))
  }

  lemma {:induction false} FlatNormalised(r: Rope, q: Rope, rest: string)
    requires Normals(r, q)
    ensures Normalise(Flat(r, rest)) == Flat(q, Normalise(rest))
  {
    match r
    case End =>
    case Then(head, tail) =>
      FlatNormalised(tail, q.tail, rest);
      FlatGrows(tail, rest);
      NormaliseConcat(head, Flat(tail, rest));
  }

  lemma NormalLiteral(literal: string, t: Rope, u: Rope)
    requires Straight(literal) && Normals(t, u)
    ensures Normals(Then(literal, t), Then(literal, u))
  {
    StraightIsKept(literal);
  }

  lemma NormalPiece(s: string, t: Rope, u: Rope)
    requires Normals(t, u) && t.Then? && t.head != "" && t.head[0] != '\n'
    ensures Normals(Then(s, t), Then(Normalise(s), u))
    ensures Normals(Then(Escape(s), t), Then(Escape(Normalise(s)), u))
  {
    EscapeNormalised(s);
    hide Normalise, Escape;
  }

  lemma NumberIsStraight(n: nat)
    ensures Straight(Decimal(n))
  {
    assert forall c :: c in Decimal(n) ==> IsDigit(c);
  }

  lemma StraightOpenings()
    ensures Straight(CONTAINER_OPEN) && Straight(ITEM_OPEN) && Straight(PARENT_OPEN) && Straight(RESTRICTED)
    ensures Straight(RESOURCE_OPEN) && Straight(",BM=") && Straight("\"") && Straight(">")
  {
  }

  lemma StraightClosings()
    ensures Straight(CLASS_OPEN) && Straight(CLASS_CLOSE) && Straight("</sec:dcmInfo>")
    ensures Straight("</res>") && Straight("</item>") && Straight(FOOTER) && Straight(" size=\"")
  {
  }

  lemma StraightPair(a: string, b: string)
    requires Straight(a) && Straight(b)
    ensures Straight(a + b)
  {
  }

  lemma StraightHalves()
    ensures Straight("\" restricted=\"1\"") && Straight("><dc:title>") && Straight(" childCount=\"")
    ensures Straight("object.container") && Straight(".storageFolder")
  {
  }

  lemma MoreStraightHalves()
    ensures Straight("</upnp:class>") && Straight("</container>")
    ensures Straight("<sec:dcmInfo>") && Straight("CREATIONDATE=0,FOLDER=")
  {
  }

  lemma StraightPairs()
    ensures Straight(ITEM_TITLE_OPEN) && Straight(FOLDER_CLASS) && Straight(CONTAINER_CLOSE) && Straight(BOOKMARK_OPEN)
    ensures Straight("><dc:title>") && Straight(" childCount=\"")
  {
    StraightHalves();
    MoreStraightHalves();
    hide Straight;
    StraightPair("\" restricted=\"1\"", "><dc:title>");
    StraightPair("object.container", ".storageFolder");
    StraightPair("</upnp:class>", "</container>");
    StraightPair("<sec:dcmInfo>", "CREATIONDATE=0,FOLDER=");
  }

  lemma CountNormals(count: Option<nat>, t: Rope, u: Rope)
    requires Normals(t, u)
    ensures Normals(CountAttribute(count, t), CountAttribute(count, u))
    ensures Normals(SizeAttribute(count, t), SizeAttribute(count, u))
  {
    if count.Some? {
      StraightOpenings();
      StraightClosings();
      StraightPairs();
      NumberIsStraight(count.value);
      hide Straight, Normals, Decimal;
      NormalLiteral("\"", t, u);
      NormalLiteral(Decimal(count.value), Then("\"", t), Then("\"", u));
      var a, b := Then(Decimal(count.value), Then("\"", t)), Then(Decimal(count.value), Then("\"", u));
      NormalLiteral(" childCount=\"", a, b);
      NormalLiteral(" size=\"", a, b);
    }
  }

  lemma ResourceNormals(resource: Option<Resource>, t: Rope, u: Rope)
    requires Normals(t, u)
    ensures Normals(ResourceElement(resource, t),
                    ResourceElement(if resource.Some? then Some(NormalResource(resource.value)) else None, u))
  {
    if resource.Some? {
      var r := resource.value;
      StraightOpenings();
      StraightClosings();
      hide Straight, Normals, Escape, Normalise;
      var close, closed := Then("</res>", t), Then("</res>", u);
      NormalLiteral("</res>", t, u);
      NormalPiece(r.url, close, closed);
      var link, linked := Then(">", Then(Escape(r.url), close)), Then(">", Then(Escape(Normalise(r.url)), closed));
      NormalLiteral(">", link.tail, linked.tail);
      CountNormals(r.size, link, linked);
      var size, sized := SizeAttribute(r.size, link), SizeAttribute(r.size, linked);
      NormalLiteral("\"", size, sized);
      NormalPiece(r.protocolInfo, Then("\"", size), Then("\"", sized));
      NormalLiteral(RESOURCE_OPEN, Then(Escape(r.protocolInfo), Then("\"", size)),
                    Then(Escape(Normalise(r.protocolInfo)), Then("\"", sized)));
    }
  }

  lemma BookmarkNormals(title: string, bookmark: Option<nat>, t: Rope, u: Rope)
    requires Normals(t, u)
    ensures Normals(BookmarkElement(title, bookmark, t), BookmarkElement(Normalise(title), bookmark, u))
  {
    if bookmark.Some? {
      StraightOpenings();
      StraightClosings();
      StraightPairs();
      NumberIsStraight(bookmark.value);
      hide Straight, Normals, Escape, Normalise, Decimal;
      var close, closed := Then("</sec:dcmInfo>", t), Then("</sec:dcmInfo>", u);
      NormalLiteral("</sec:dcmInfo>", t, u);
      NormalLiteral(Decimal(bookmark.value), close, closed);
      var number, numbered := Then(Decimal(bookmark.value), close), Then(Decimal(bookmark.value), closed);
      NormalLiteral(",BM=", number, numbered);
      NormalPiece(title, Then(",BM=", number), Then(",BM=", numbered));
      NormalLiteral(BOOKMARK_OPEN, Then(Escape(title), Then(",BM=", number)),
                    Then(Escape(Normalise(title)), Then(",BM=", numbered)));
    }
  }

  lemma IdentityNormals(opening: string, id: string, parentId: string, next: string, t: Rope, u: Rope)
    requires Straight(opening) && Straight(next) && next != "" && next[0] != '\n' && Normals(t, u)
    ensures Normals(Then(opening, Then(Escape(id), Parented(parentId, next, t))),
                    Then(opening, Then(Escape(Normalise(id)), Parented(Normalise(parentId), next, u))))
  {
    StraightOpenings();
    hide Straight, Normals, Escape, Normalise;
    NormalLiteral(next, t, u);
    NormalPiece(parentId, Then(next, t), Then(next, u));
    NormalLiteral(PARENT_OPEN, Then(Escape(parentId), Then(next, t)), Then(Escape(Normalise(parentId)), Then(next, u)));
    NormalPiece(id, Parented(parentId, next, t), Parented(Normalise(parentId), next, u));
    NormalLiteral(opening, Then(Escape(id), Parented(parentId, next, t)),
                  Then(Escape(Normalise(id)), Parented(Normalise(parentId), next, u)));
  }

  lemma ContainerNormals(o: Object)
    requires o.ContainerObject?
    ensures Normals(ObjectRope(o), ObjectRope(NormalObject(o)))
  {
    StraightOpenings();
    StraightClosings();
    StraightPairs();
    var close := Then(CONTAINER_CLOSE, End);
    assert Normals(End, End);
    hide Straight, Normals, Escape, Normalise, CountAttribute, Parented;
    NormalLiteral(CONTAINER_CLOSE, End, End);
    NormalLiteral(FOLDER_CLASS, close, close);
    var classed := Then(CLASS_OPEN, Then(FOLDER_CLASS, close));
    NormalLiteral(CLASS_OPEN, classed.tail, classed.tail);
    NormalPiece(o.title, classed, classed);
    var t, u := Then("><dc:title>", Then(Escape(o.title), classed)),
      Then("><dc:title>", Then(Escape(Normalise(o.title)), classed));
    NormalLiteral("><dc:title>", t.tail, u.tail);
    CountNormals(o.childCount, t, u);
    IdentityNormals(CONTAINER_OPEN, o.id, o.parentId, RESTRICTED, CountAttribute(o.childCount, t),
                    CountAttribute(o.childCount, u));
  }

  lemma ItemNormals(o: Object)
    requires o.ItemObject?
    ensures Normals(ObjectRope(o), ObjectRope(NormalObject(o)))
  {
    StraightOpenings();
    StraightClosings();
    StraightPairs();
    var n := NormalObject(o);
    ItemRope(o);
    ItemRope(n);
    assert Normals(End, End);
    hide Straight, Normals, Escape, Normalise, Parented, ObjectRope, BookmarkElement, ResourceElement;
    var close := Then("</item>", End);
    NormalLiteral("</item>", End, End);
    ResourceNormals(o.resource, close, close);
    BookmarkNormals(o.title, o.bookmark, ResourceElement(o.resource, close), ResourceElement(n.resource, close));
    var t := BookmarkElement(o.title, o.bookmark, ResourceElement(o.resource, close));
    var u := BookmarkElement(n.title, n.bookmark, ResourceElement(n.resource, close));
    NormalLiteral(CLASS_CLOSE, t, u);
    NormalPiece(o.upnpClass, Then(CLASS_CLOSE, t), Then(CLASS_CLOSE, u));
    var c, d := Then(o.upnpClass, Then(CLASS_CLOSE, t)), Then(n.upnpClass, Then(CLASS_CLOSE, u));
    NormalLiteral(CLASS_OPEN, c, d);
    NormalPiece(o.title, Then(CLASS_OPEN, c), Then(CLASS_OPEN, d));
    IdentityNormals(ITEM_OPEN, o.id, o.parentId, ITEM_TITLE_OPEN, TitledRope(o), TitledRope(n));
  }

  lemma {:induction false} RenderNormalised(objects: seq<Object>)
    ensures Normalise(Render(objects, FOOTER)) == Render(NormalAll(objects), FOOTER)
  {
    hide ObjectRope, NormalObject, Flat, Normals;
    if objects == [] {
      StraightClosings();
      StraightIsKept(FOOTER);
    } else {
      RenderNormalised(objects[1..]);
      var o := objects[0];
      if o.ContainerObject? {
        ContainerNormals(o);
      } else {
        ItemNormals(o);
      }
      FlatNormalised(ObjectRope(o), ObjectRope(NormalObject(o)), Render(objects[1..], FOOTER));
    }
  }

  lemma StraightHeader()
    ensures Straight(Header())
  {
    StraightNamespaces();
    hide DefaultNamespace, DublinCore, UpnpNamespace, SamsungNamespace, Straight;
    StraightPair(DefaultNamespace(), DublinCore());
    StraightPair(DefaultNamespace() + DublinCore(), UpnpNamespace());
    StraightPair(DefaultNamespace() + DublinCore() + UpnpNamespace(), SamsungNamespace());
  }

  lemma StraightNamespaces()
    ensures Straight(DefaultNamespace()) && Straight(DublinCore()) && Straight(UpnpNamespace())
      && Straight(SamsungNamespace())
  {
    StraightPieces();
    MoreStraightPieces();
    hide Straight;
    StraightJoin("<DIDL-Lite xmlns=\"urn", ":schemas-upnp-org:", "metadata-1-0/", "DIDL-Lite/\"");
    StraightJoin(" xmlns:dc=\"http://", "purl.org/dc/", "elements/1.1/\"", "");
    StraightJoin(" xmlns:upnp=\"urn", ":schemas-upnp-org:", "metadata-1-0/", "upnp/\"");
    StraightJoin(" xmlns:sec=\"http://", "www.sec.co.kr/dlna", "\">", "");
  }

  lemma StraightJoin(a: string, b: string, c: string, d: string)
    requires Straight(a) && Straight(b) && Straight(c) && Straight(d)
    ensures Straight(a + b + c) && Straight(a + b + c + d)
  {
  }

  lemma StraightPieces()
    ensures Straight("<DIDL-Lite xmlns=\"urn") && Straight(":schemas-upnp-org:") && Straight("metadata-1-0/")
    ensures Straight("DIDL-Lite/\"") && Straight("upnp/\"") && Straight(" xmlns:upnp=\"urn")
  {
  }

  lemma MoreStraightPieces()
    ensures Straight(" xmlns:dc=\"http://") && Straight("purl.org/dc/") && Straight("elements/1.1/\"")
    ensures Straight(" xmlns:sec=\"http://") && Straight("www.sec.co.kr/dlna") && Straight("\">") && Straight("")
  {
  }

  /** Normalising a document normalises the texts of its objects and nothing else. */
  lemma DocumentNormalised(objects: seq<Object>)
    ensures Normalise(Document(objects)) == Document(NormalAll(objects))
  {
    StraightHeader();
    hide Header, Render, Straight;
    NormaliseConcat(Header(), Render(objects, FOOTER));
    StraightIsKept(Header());
    RenderNormalised(objects);
  }

  /** No text of the object contains a carriage return. */
  predicate StraightObject(o: Object) {
    && Straight(o.id) && Straight(o.parentId) && Straight(o.title)
    && (o.ItemObject? ==>
          && Straight(o.upnpClass)
          && (o.resource.Some? ==> Straight(o.resource.value.protocolInfo) && Straight(o.resource.value.url)))
  }

  /** What is read is the object described, sanitised, exactly when it has no carriage return. */
  lemma SameObjectIff(o: Object)
    requires Printable(o)
    ensures Clean(NormalObject(o)) == Clean(o) <==> StraightObject(o)
  {
    SameTextIff(o.id);
    SameTextIff(o.parentId);
    SameTextIff(o.title);
    if o.ItemObject? {
      SamePlainIff(o.upnpClass);
      if o.resource.Some? {
        SameTextIff(o.resource.value.protocolInfo);
        SameTextIff(o.resource.value.url);
      }
    }
    hide Sanitise, Normalise, Straight;
  }

  lemma SamePlainIff(s: string)
    ensures Normalise(s) == s <==> Straight(s)
  {
    NormalisedIsStraight(s);
    if Straight(s) {
      StraightIsKept(s);
    }
  }

  lemma {:induction false} SameObjectsIff(objects: seq<Object>)
    requires forall o :: o in objects ==> Printable(o)
    ensures CleanAll(NormalAll(objects)) == CleanAll(objects) <==> forall o :: o in objects ==> StraightObject(o)
  {
    hide Clean, NormalObject, StraightObject, Printable;
    if objects != [] {
      SameObjectsIff(objects[1..]);
      SameObjectIff(objects[0]);
      assert objects == [objects[0]] + objects[1..];
      assert CleanAll(NormalAll(objects)) == [Clean(NormalObject(objects[0]))] + CleanAll(NormalAll(objects[1..])) by {
        assert NormalAll(objects)[1..] == NormalAll(objects[1..]);
      }
      SameHeadAndTail(Clean(NormalObject(objects[0])), CleanAll(NormalAll(objects[1..])), Clean(objects[0]),
                      CleanAll(objects[1..]));
    }
  }

  lemma SameHeadAndTail(a: Object, s: seq<Object>, b: Object, t: seq<Object>)
    ensures [a] + s == [b] + t <==> a == b && s == t
  {
    if [a] + s == [b] + t {
      assert a == ([a] + s)[0] && s == ([a] + s)[1..];
      assert b == ([b] + t)[0] && t == ([b] + t)[1..];
    }
  }

  lemma NormalIsPrintable(o: Object)
    requires Printable(o)
    ensures Printable(NormalObject(o))
  {
    if o.ItemObject? {
      NormalIsPlain(o.upnpClass);
      hide Plain, Normalise;
    }
  }

  lemma {:induction false} NormalIsPlain(s: string)
    requires Plain(s) && '&' !in s
    ensures Plain(Normalise(s)) && '&' !in Normalise(s)
    decreases |s|
  {
    if s != "" {
      assert (forall c :: c in s[1..] ==> c in s) && s[0] in s;
      NormalIsPlain(s[1..]);
      if |s| > 1 {
        assert forall c :: c in s[2..] ==> c in s;
        NormalIsPlain(s[2..]);
      }
      assert IsXmlChar('\n') && !IsMarkup('\n');
    }
  }

  lemma {:induction false} NormalArePrintable(objects: seq<Object>)
    requires forall o :: o in objects ==> Printable(o)
    ensures forall o :: o in NormalAll(objects) ==> Printable(o)
  {
    hide Printable, NormalObject;
    if objects != [] {
      NormalArePrintable(objects[1..]);
      NormalIsPrintable(objects[0]);
    }
  }

  // --- Responses -----------------------------------------------------------------------------

  function NormalValues(values: Values): (r: Values)
    ensures |r| == |values| && forall i :: 0 <= i < |values| ==> r[i] == (values[i].0, Normalise(values[i].1))
  {
    seq(|values|, i requires 0 <= i < |values| => (values[i].0, Normalise(values[i].1)))
  }

  lemma ElementNormalised(name: string, value: string)
    requires Straight(name)
    ensures Normalise(Element(name, value)) == Element(name, Normalise(value))
  {
    var open, close := "<" + name + ">", "</" + name + ">";
    assert Straight(open) && Straight(close);
    EscapeNormalised(value);
    hide Straight, Escape, Normalise;
    NormaliseConcat(Escape(value), close);
    NormaliseConcat(open, Escape(value) + close);
    StraightIsKept(open);
    StraightIsKept(close);
    ElementParts(open, Escape(value), close);
    ElementParts(open, Escape(Normalise(value)), close);
    ElementIs(name, value);
    ElementIs(name, Normalise(value));
  }

  lemma ElementIs(name: string, value: string)
    ensures Element(name, value) == ("<" + name + ">") + Escape(value) + ("</" + name + ">")
  {
    hide Escape;
    assert "<" + name + ">" + Escape(value) + "</" + name + ">"
      == ("<" + name + ">") + Escape(value) + ("</" + name + ">");
  }

  lemma ElementParts(a: string, b: string, c: string)
    ensures a + (b + c) == a + b + c
  {
  }

  lemma {:induction false} ElementsNormalised(values: Values)
    requires forall v :: v in values ==> Straight(v.0)
    ensures Normalise(Elements(values)) == Elements(NormalValues(values))
    decreases |values|
  {
    hide Normalise, Element, Straight;
    if values == [] {
      EmptyIsNormal();
    } else {
      var front, last := values[..|values| - 1], values[|values| - 1];
      assert last in values && forall v :: v in front ==> v in values;
      ElementsNormalised(front);
      ElementNormalised(last.0, last.1);
      ElementStart(last.0, last.1);
      NormaliseConcat(Elements(front), Element(last.0, last.1));
      var all := NormalValues(values);
      assert all[..|all| - 1] == NormalValues(front) && all[|all| - 1] == (last.0, Normalise(last.1));
    }
  }

  lemma EmptyIsNormal()
    ensures Normalise("") == "" && Elements([]) == ""
  {
  }

  lemma ElementStart(name: string, value: string)
    ensures Element(name, value) != "" && Element(name, value)[0] == '<'
  {
    hide Escape;
  }

  lemma StraightEnvelope(serviceType: string, action: string)
    requires Straight(serviceType) && Straight(action)
    ensures Straight(EnvelopeOpen(serviceType, action)) && Straight(EnvelopeClose(action))
  {
    StraightProlog();
    StraightTags();
    hide Straight, Prolog, EnvelopeTag;
    StraightPair("</u:", action);
    StraightPair("</u:" + action, "Response></s:Body>");
    StraightPair("</u:" + action + "Response></s:Body>", "</s:Envelope>");
    StraightPair(Prolog(), EnvelopeTag());
    StraightPair(Prolog() + EnvelopeTag(), "<u:");
    StraightPair(Prolog() + EnvelopeTag() + "<u:", action);
    StraightPair(Prolog() + EnvelopeTag() + "<u:" + action, "Response xmlns:u=\"");
    StraightPair(Prolog() + EnvelopeTag() + "<u:" + action + "Response xmlns:u=\"", serviceType);
    StraightPair(Prolog() + EnvelopeTag() + "<u:" + action + "Response xmlns:u=\"" + serviceType, "\">");
  }

  lemma EnvelopeCloses(action: string)
    ensures EnvelopeClose(action) != "" && EnvelopeClose(action)[0] == '<'
  {
  }

  lemma StraightProlog()
    ensures Straight(Prolog()) && Straight("</u:") && Straight("<u:") && Straight("\">")
    ensures Straight("Response></s:Body>") && Straight("</s:Envelope>") && Straight("Response xmlns:u=\"")
  {
    assert Straight("<?xml version=\"1.0\"") && Straight(" encoding=\"utf-8\"?>");
    StraightPair("<?xml version=\"1.0\"", " encoding=\"utf-8\"?>");
  }

  lemma StraightTags()
    ensures Straight(EnvelopeTag())
  {
    StraightUrls();
    hide Straight;
    StraightJoin("<s:Envelope xmlns:s=\"", "http://", "schemas.xmlsoap.org/", "soap/envelope/\"");
    StraightJoin(" s:encodingStyle=\"", "http://", "schemas.xmlsoap.org/", "soap/encoding/\">");
    StraightPair(EnvelopeNamespace(), EncodingStyle());
    StraightPair(EnvelopeNamespace() + EncodingStyle(), "<s:Body>");
  }

  lemma StraightUrls()
    ensures Straight("<s:Envelope xmlns:s=\"") && Straight("http://") && Straight("schemas.xmlsoap.org/")
    ensures Straight("soap/envelope/\"") && Straight(" s:encodingStyle=\"") && Straight("soap/encoding/\">")
    ensures Straight("<s:Body>")
  {
  }

  /** Normalising a response normalises its output arguments and nothing else. */
  lemma ResponseNormalised(serviceType: string, action: string, values: Values)
    requires Straight(serviceType) && Straight(action) && forall v :: v in values ==> Straight(v.0)
    ensures Normalise(Response(serviceType, action, values)) == Response(serviceType, action, NormalValues(values))
  {
    StraightEnvelope(serviceType, action);
    EnvelopeCloses(action);
    ElementsNormalised(values);
    hide EnvelopeOpen, EnvelopeClose, Elements, Normalise, Straight, NormalValues;
    var open, close := EnvelopeOpen(serviceType, action), EnvelopeClose(action);
    NormaliseConcat(Elements(values), close);
    NormaliseConcat(open, Elements(values) + close);
    StraightIsKept(open);
    StraightIsKept(close);
    ElementParts(open, Elements(values), close);
    ElementParts(open, Elements(NormalValues(values)), close);
  }

  /** A number reads back through normalisation as well. */
  lemma NumberIsNormal(n: nat)
    ensures Normalise(Decimal(n)) == Decimal(n)
  {
    NumberIsStraight(n);
    StraightIsKept(Decimal(n));
  }

  lemma FourNormalised(o: Values, n: Values)
    requires |o| == |n| == 4
    requires n[0] == (o[0].0, Normalise(o[0].1)) && n[1] == (o[1].0, Normalise(o[1].1))
    requires n[2] == (o[2].0, Normalise(o[2].1)) && n[3] == (o[3].0, Normalise(o[3].1))
    ensures NormalValues(o) == n
  {
    hide Normalise;
  }

  lemma OutputNormalised(a: Answer)
    ensures NormalValues(Output(a)) == Output(a.(objects := NormalAll(a.objects)))
    ensures forall v :: v in Output(a) ==> Straight(v.0)
  {
    DocumentNormalised(a.objects);
    NumberIsNormal(a.numberReturned);
    NumberIsNormal(a.totalMatches);
    NumberIsNormal(a.updateId);
    StraightNames();
    hide Normalise, Document, Decimal, Straight, NormalAll, NormalValues;
    FourNormalised(Output(a), Output(a.(objects := NormalAll(a.objects))));
  }

  lemma StraightNames()
    ensures Straight("Result") && Straight("NumberReturned") && Straight("TotalMatches") && Straight("UpdateID")
  {
  }

  /** What a reader that normalises, in the response and again in the document inside it, makes of the texts. */
  predicate ReadsNormally(read: Option<seq<string>>, a: Answer) {
    && read.Some? && |read.value| == 4
    && ReadDocument(Normalise(read.value[0]), Header()) == Some(CleanAll(NormalAll(a.objects)))
    && ParseNumber(read.value[1]) == Some(a.numberReturned)
    && ParseNumber(read.value[2]) == Some(a.totalMatches)
    && ParseNumber(read.value[3]) == Some(a.updateId)
  }

  /**
   * The Browse round trip for a reader that normalises line ends: it recovers the objects with
   * normalised line ends, and these are the objects described exactly when no text of theirs
   * contains a carriage return.
   */
  lemma BrowseRoundTripNormalised(arguments: Arguments, c: Snapshot, bookmarks: Bookmarks, baseUrl: string,
                                  serviceType: string)
    requires KnownClasses(c) && BrowseAnswer(arguments, c, bookmarks, baseUrl).Ok? && Straight(serviceType)
    ensures var a := BrowseAnswer(arguments, c, bookmarks, baseUrl).value;
            && ReadsNormally(ReadResponse(Normalise(Response(serviceType, "Browse", Output(a))), serviceType,
                                          "Browse", ANSWER_NAMES), a)
            && (CleanAll(NormalAll(a.objects)) == CleanAll(a.objects) <==>
                forall o :: o in a.objects ==> StraightObject(o))
  {
    AnswersArePrintable(arguments, c, bookmarks, baseUrl);
    assert Straight("Browse");
    hide *;
    var a := BrowseAnswer(arguments, c, bookmarks, baseUrl).value;
    ReadsBack(a, serviceType, "Browse");
    OutputNames(a.(objects := NormalAll(a.objects)));
    SameObjectsIff(a.objects);
  }

  lemma ReadsBack(a: Answer, serviceType: string, action: string)
    requires Straight(serviceType) && Straight(action) && forall o :: o in a.objects ==> Printable(o)
    ensures var names := Names(Output(a.(objects := NormalAll(a.objects))));
            ReadsNormally(ReadResponse(Normalise(Response(serviceType, action, Output(a))), serviceType, action,
                                       names), a)
  {
    hide *;
    var n := a.(objects := NormalAll(a.objects));
    OutputNormalised(a);
    ResponseNormalised(serviceType, action, Output(a));
    ResponseReads(serviceType, action, Output(n));
    NormalArePrintable(a.objects);
    TextsReadNormally(a);
  }

  lemma {:induction false} NormalAllTwice(objects: seq<Object>)
    ensures NormalAll(NormalAll(objects)) == NormalAll(objects)
  {
    if objects != [] {
      NormalAllTwice(objects[1..]);
      NormalObjectTwice(objects[0]);
      assert NormalAll(objects)[1..] == NormalAll(objects[1..]);
    }
  }

  lemma NormalObjectTwice(o: Object)
    ensures NormalObject(NormalObject(o)) == NormalObject(o)
  {
    NormaliseTwice(o.id);
    NormaliseTwice(o.parentId);
    NormaliseTwice(o.title);
    if o.ItemObject? {
      NormaliseTwice(o.upnpClass);
      if o.resource.Some? {
        NormaliseTwice(o.resource.value.protocolInfo);
        NormaliseTwice(o.resource.value.url);
      }
    }
    hide Normalise;
  }

  lemma TextsReadNormally(a: Answer)
    requires forall o :: o in NormalAll(a.objects) ==> Printable(o)
    ensures ReadsNormally(Some(Texts(Output(a.(objects := NormalAll(a.objects))))), a)
  {
    hide Document, ReadDocument, CleanAll, Decimal, Sanitise, Header, Printable, ParseNumber, Normalise, NormalAll;
    var n := a.(objects := NormalAll(a.objects));
    var o := Output(n);
    assert |Texts(o)| == |o| == 4;
    assert o[0].1 == Document(n.objects) && o[1].1 == Decimal(a.numberReturned);
    DocumentSurvives(n.objects);
    DocumentNormalised(n.objects);
    NormalAllTwice(a.objects);
    DocumentReads(n.objects);
    NumberSurvives(a.numberReturned);
    NumberSurvives(a.totalMatches);
    NumberSurvives(a.updateId);
  }
}
