/** Escaping of character data and attribute values, and how a reader undoes it. */
module Xml {
  const REPLACEMENT: char := '\U{fffd}'

  /** The characters XML 1.0 (section 2.2) allows in a document. */
  predicate IsXmlChar(c: char) {
    c == '\t' || c == '\n' || c == '\r' || '\U{20}' <= c <= '\U{d7ff}'
    || '\U{e000}' <= c <= '\U{fffd}' || '\U{10000}' <= c
  }

  function SanitiseChar(c: char): char {
    if IsXmlChar(c) then c else REPLACEMENT
  }

  /** The text with every character outside XML replaced. */
  function Sanitise(s: string): (r: string)
    ensures |r| == |s|
  {
    if s == "" then "" else [SanitiseChar(s[0])] + Sanitise(s[1..])
  }

  /** The predefined entity for a markup character (XML 1.0, section 4.6). */
  function EscapeChar(c: char): string {
    if c == '&' then "&amp;"
    else if c == '<' then "&lt;"
    else if c == '>' then "&gt;"
    else if c == '\'' then "&apos;"
    else if c == '\"' then "&quot;"
    else [SanitiseChar(c)]
  }

  function Escape(s: string): string {
    if s == "" then "" else EscapeChar(s[0]) + Escape(s[1..])
  }

  /** A reader's view: each predefined entity stands for its character, anything else for itself. */
  function Unescape(s: string): string {
    if s == "" then ""
    else if "&amp;" <= s then ['&'] + Unescape(s[5..])
    else if "&lt;" <= s then ['<'] + Unescape(s[4..])
    else if "&gt;" <= s then ['>'] + Unescape(s[4..])
    else if "&apos;" <= s then ['\''] + Unescape(s[6..])
    else if "&quot;" <= s then ['\"'] + Unescape(s[6..])
    else [s[0]] + Unescape(s[1..])
  }

  predicate IsMarkup(c: char) {
    c == '<' || c == '>' || c == '\'' || c == '\"'
  }

  /** Allowed in XML and needing no quoting inside an element or attribute. */
  predicate Plain(s: string) {
    forall c :: c in s ==> IsXmlChar(c) && !IsMarkup(c)
  }

  lemma {:induction false} UnescapeOne(c: char, rest: string)
    ensures Unescape(EscapeChar(c) + rest) == [SanitiseChar(c)] + Unescape(rest)
  {
    var e := EscapeChar(c);
    var s := e + rest;
    assert s[|e|..] == rest;
    if c == '&' {
      assert "&amp;" <= s;
    } else if c == '<' {
      assert s[1] == 'l';
      assert "&lt;" <= s && !("&amp;" <= s);
    } else if c == '>' {
      assert s[1] == 'g';
      assert "&gt;" <= s && !("&amp;" <= s) && !("&lt;" <= s);
    } else if c == '\'' {
      assert s[1] == 'a' && s[2] == 'p';
      assert "&apos;" <= s && !("&amp;" <= s) && !("&lt;" <= s) && !("&gt;" <= s);
    } else if c == '\"' {
      assert s[1] == 'q';
      assert "&quot;" <= s && !("&amp;" <= s) && !("&lt;" <= s) && !("&gt;" <= s) && !("&apos;" <= s);
    } else {
      assert s[0] == SanitiseChar(c) != '&';
    }
  }

  /** Reading an escaped text gives the text back, with non-XML characters replaced. */
  lemma {:induction false} UnescapeEscape(s: string)
    ensures Unescape(Escape(s)) == Sanitise(s)
  {
    if s != "" {
      UnescapeOne(s[0], Escape(s[1..]));
      UnescapeEscape(s[1..]);
    }
  }

  /** Nothing in an escaped text can end the element or attribute that holds it. */
  lemma {:induction false} EscapeIsPlain(s: string)
    ensures Plain(Escape(s))
  {
    if s != "" {
      EscapeIsPlain(s[1..]);
      EscapeCharIsPlain(s[0]);
    }
  }

  lemma EscapeCharIsPlain(c: char)
    ensures Plain(EscapeChar(c))
  {
  }

  /** Text of XML characters only is sanitised to itself. */
  lemma {:induction false} SanitiseKeeps(s: string)
    requires forall c :: c in s ==> IsXmlChar(c)
    ensures Sanitise(s) == s
  {
    if s != "" {
      SanitiseKeeps(s[1..]);
    }
  }

  /** Control characters other than tab, line feed and carriage return, and U+FFFE and U+FFFF, are replaced. */
  lemma {:induction false} SanitiseMeans(s: string, i: nat)
    requires i < |s|
    ensures var n := s[i] as int;
            Sanitise(s)[i] == if (n < 0x20 && n !in {0x9, 0xa, 0xd}) || n in {0xfffe, 0xffff} then '\U{fffd}' else s[i]
  {
    if i > 0 {
      SanitiseMeans(s[1..], i - 1);
    }
  }

  lemma {:induction false} EscapeConcat(a: string, b: string)
    ensures Escape(a + b) == Escape(a) + Escape(b)
  {
    if a == "" {
      assert a + b == b;
    } else {
      assert (a + b)[1..] == a[1..] + b;
      EscapeConcat(a[1..], b);
    }
  }

  /** `escape_text`. */
  method EscapeText(value: string) returns (escaped: string)
    ensures escaped == Escape(value)
  {
    escaped := "";
    assert value[..0] == "";
    for i := 0 to |value|
      invariant escaped == Escape(value[..i])
    {
      var character := value[i];
      assert value[..i + 1] == value[..i] + [character];
      EscapeConcat(value[..i], [character]);
      assert Escape([character]) == EscapeChar(character) + Escape("");
      match character {
        case '&' => escaped := escaped + "&amp;";
        case '<' => escaped := escaped + "&lt;";
        case '>' => escaped := escaped + "&gt;";
        case '\'' => escaped := escaped + "&apos;";
        case '\"' => escaped := escaped + "&quot;";
        case _ =>
          if IsXmlChar(character) {
            escaped := escaped + [character];
          } else {
            escaped := escaped + [REPLACEMENT];
          }
      }
    }
    assert value[..|value|] == value;
  }

  /** What `element` appends. */
  function Element(name: string, value: string): string {
    "<" + name + ">" + Escape(value) + "</" + name + ">"
  }

  /** `element`. */
  method AppendElement(output: string, name: string, value: string) returns (r: string)
    ensures r == output + Element(name, value)
  {
    var escaped := EscapeText(value);
    r := output + ("<" + name + ">" + escaped + "</" + name + ">");
  }

  // --- Reading -------------------------------------------------------------------------------

  /** The part of `s` before the first occurrence of `stop`, or all of it. */
  function Until(s: string, stop: char): (r: string)
    ensures r <= s && stop !in r
  {
    if s == "" || s[0] == stop then "" else [s[0]] + Until(s[1..], stop)
  }

  lemma {:induction false} UntilStops(field: string, stop: char, rest: string)
    requires stop !in field && rest != "" && rest[0] == stop
    ensures Until(field + rest, stop) == field
  {
    if field == "" {
      assert field + rest == rest;
    } else {
      assert (field + rest)[1..] == field[1..] + rest;
      UntilStops(field[1..], stop, rest);
    }
  }

  lemma {:induction false} UntilFollowed(s: string, stop: char)
    ensures var left := Until(s, stop); |left| < |s| ==> s[|left|] == stop
  {
    if s != "" && s[0] != stop {
      UntilFollowed(s[1..], stop);
    }
  }
}
