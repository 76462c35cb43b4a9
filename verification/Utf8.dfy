/** The UTF-8 bytes behind a Rust `String`, and the bytewise order in which strings compare. */
module Utf8 {
  import opened Prelude

  function EncodeChar(c: char): (r: seq<byte>)
    ensures 1 <= |r| <= 4
    ensures forall b :: b in r ==> b < 0xf8
  {
    var n := c as int;
    var n1 := n / 0x40;
    var n2 := n1 / 0x40;
    if n < 0x80 then [n]
    else if n < 0x800 then [0xc0 + n1, 0x80 + n % 0x40]
    else if n < 0x1_0000 then [0xe0 + n2, 0x80 + n1 % 0x40, 0x80 + n % 0x40]
    else [0xf0 + n2 / 0x40, 0x80 + n2 % 0x40, 0x80 + n1 % 0x40, 0x80 + n % 0x40]
  }

  /** `str::as_bytes`; the byte 0xff never occurs in it. */
  function Encode(s: string): (r: seq<byte>)
    ensures 0xff !in r
    ensures |r| >= |s|
  {
    if s == [] then [] else EncodeChar(s[0]) + Encode(s[1..])
  }

  lemma EncodeCharInjective(c: char, d: char)
    requires EncodeChar(c) == EncodeChar(d)
    ensures c == d
  {
    var m, n := c as int, d as int;
    var ec, ed := EncodeChar(c), EncodeChar(d);
    assert |ec| == |ed| && ec[|ec| - 1] == ed[|ed| - 1] && ec[0] == ed[0];
    if |ec| >= 3 {
      assert ec[1] == ed[1] && ec[2] == ed[2];
    }
    assert m == n;
  }

  /** No encoded character is a proper prefix of another, so the first character can be read off. */
  lemma EncodeCharPrefixFree(c: char, x: seq<byte>, d: char, y: seq<byte>)
    requires EncodeChar(c) + x == EncodeChar(d) + y
    ensures c == d && x == y
  {
    var ec, ed := EncodeChar(c), EncodeChar(d);
    var s := ec + x;
    assert s == ed + y;
    assert ec[0] == s[0] == ed[0];
    assert |ec| == |ed|;
    assert ec == s[..|ec|] == ed;
    EncodeCharInjective(c, d);
    assert x == s[|ec|..] && y == s[|ed|..];
  }

  lemma {:induction false} EncodeInjective(a: string, b: string)
    requires Encode(a) == Encode(b)
    ensures a == b
  {
    if a != [] && b != [] {
      EncodeCharPrefixFree(a[0], Encode(a[1..]), b[0], Encode(b[1..]));
      EncodeInjective(a[1..], b[1..]);
    }
  }

  /** Lexicographic order on bytes, the order of Rust's `str::cmp`. */
  predicate BytesLess(a: seq<byte>, b: seq<byte>) {
    b != [] && (a == [] || a[0] < b[0] || (a[0] == b[0] && BytesLess(a[1..], b[1..])))
  }

  predicate StringLess(a: string, b: string) {
    BytesLess(Encode(a), Encode(b))
  }

  lemma {:induction false} BytesLessTotal(a: seq<byte>, b: seq<byte>)
    ensures BytesLess(a, b) || BytesLess(b, a) || a == b
    ensures !(BytesLess(a, b) && BytesLess(b, a))
    ensures !BytesLess(a, a)
  {
    if a != [] {
      BytesLessTotal(a[1..], if b == [] then [] else b[1..]);
      if b != [] && a[0] == b[0] && a[1..] == b[1..] {
        assert a == [a[0]] + a[1..] == b;
      }
    }
  }

  lemma {:induction false} BytesLessTransitive(a: seq<byte>, b: seq<byte>, c: seq<byte>)
    requires BytesLess(a, b) && BytesLess(b, c)
    ensures BytesLess(a, c)
  {
    if a != [] && a[0] == b[0] == c[0] {
      BytesLessTransitive(a[1..], b[1..], c[1..]);
    }
  }

  lemma StringLessTotal(a: string, b: string)
    ensures StringLess(a, b) || StringLess(b, a) || a == b
    ensures !(StringLess(a, b) && StringLess(b, a))
    ensures !StringLess(a, a)
  {
    BytesLessTotal(Encode(a), Encode(b));
    BytesLessTotal(Encode(a), Encode(a));
    if Encode(a) == Encode(b) {
      EncodeInjective(a, b);
    }
  }

  lemma StringLessTransitive(a: string, b: string, c: string)
    requires StringLess(a, b) && StringLess(b, c)
    ensures StringLess(a, c)
  {
    BytesLessTransitive(Encode(a), Encode(b), Encode(c));
  }

  // --- What the bytes mean -------------------------------------------------------------------

  /** A continuation byte. */
  predicate Continues(b: int) {
    0x80 <= b < 0xc0
  }

  /**
   * One to four bytes, as few as the code point needs; the first tells how many, and all together
   * carry the code point (RFC 3629, section 3).
   */
  lemma CharReads(c: char)
    ensures var n, r: seq<int> := c as int, EncodeChar(c);
            && (n < 0x80 ==> r == [n])
            && (0x80 <= n < 0x800 ==>
                 |r| == 2 && 0xc2 <= r[0] < 0xe0 && Continues(r[1]) && n == (r[0] - 0xc0) * 0x40 + (r[1] - 0x80))
            && (0x800 <= n < 0x1_0000 ==>
                 && |r| == 3 && 0xe0 <= r[0] < 0xf0 && Continues(r[1]) && Continues(r[2])
                 && n == (r[0] - 0xe0) * 0x1000 + (r[1] - 0x80) * 0x40 + (r[2] - 0x80))
            && (0x1_0000 <= n ==>
                 && |r| == 4 && 0xf0 <= r[0] <= 0xf4 && Continues(r[1]) && Continues(r[2]) && Continues(r[3])
                 && n == (r[0] - 0xf0) * 0x4_0000 + (r[1] - 0x80) * 0x1000 + (r[2] - 0x80) * 0x40 + (r[3] - 0x80))
  {
  }

  // --- The order of strings ------------------------------------------------------------------

  /** At the first difference `a` has the smaller character, or it is a proper prefix of `b`. */
  predicate CodePointsBefore(a: string, b: string) {
    exists k :: 0 <= k <= |a| && DiffersAt(a, b, k)
  }

  predicate DiffersAt(a: string, b: string, k: nat)
    requires k <= |a|
  {
    k < |b| && a[..k] == b[..k] && (k == |a| || a[k] < b[k])
  }

  lemma {:induction false} BytesDiffer(a: seq<byte>, b: seq<byte>, k: nat)
    requires k < |a| && k < |b| && a[..k] == b[..k] && a[k] < b[k]
    ensures BytesLess(a, b) && !BytesLess(b, a)
    decreases k
  {
    if k > 0 {
      assert a[0] == a[..k][0] == b[..k][0] == b[0];
      assert a[1..][..k - 1] == a[..k][1..] == b[1..][..k - 1];
      BytesDiffer(a[1..], b[1..], k - 1);
    }
  }

  lemma {:induction false} SharedFront(x: seq<byte>, a: seq<byte>, b: seq<byte>)
    ensures BytesLess(x + a, x + b) == BytesLess(a, b)
  {
    if x == [] {
      assert x + a == a && x + b == b;
    } else {
      assert (x + a)[1..] == x[1..] + a && (x + b)[1..] == x[1..] + b;
      SharedFront(x[1..], a, b);
    }
  }

  /** The first byte in which the encodings of two characters differ orders them like the characters. */
  lemma CharsDiffer(c: char, d: char) returns (k: nat)
    requires c < d
    ensures var (x, y) := (EncodeChar(c), EncodeChar(d));
            k < |x| && k < |y| && x[..k] == y[..k] && x[k] < y[k]
  {
    CharReads(c);
    CharReads(d);
    var x, y := EncodeChar(c), EncodeChar(d);
    hide EncodeChar;
    if |x| != |y| || x[0] != y[0] {
      k := 0;
    } else if x[1] != y[1] {
      k := 1;
    } else if x[2] != y[2] {
      k := 2;
    } else {
      k := 3;
    }
  }

  lemma FirstCharsOrder(a: string, b: string)
    requires a != "" && b != "" && a[0] < b[0]
    ensures StringLess(a, b) && !StringLess(b, a)
  {
    var x, y := EncodeChar(a[0]), EncodeChar(b[0]);
    var k := CharsDiffer(a[0], b[0]);
    hide EncodeChar;
    var p, q := x + Encode(a[1..]), y + Encode(b[1..]);
    assert p[..k] == x[..k] && q[..k] == y[..k] && p[k] == x[k] && q[k] == y[k];
    BytesDiffer(p, q, k);
  }

  lemma BeforeStep(a: string, b: string)
    requires a != "" && b != "" && a[0] == b[0]
    ensures CodePointsBefore(a, b) <==> CodePointsBefore(a[1..], b[1..])
  {
    if CodePointsBefore(a, b) {
      var k :| 0 <= k <= |a| && DiffersAt(a, b, k);
      assert k > 0;
      assert a[1..][..k - 1] == a[..k][1..] && b[1..][..k - 1] == b[..k][1..];
      assert DiffersAt(a[1..], b[1..], k - 1);
    }
    if CodePointsBefore(a[1..], b[1..]) {
      var k :| 0 <= k <= |a[1..]| && DiffersAt(a[1..], b[1..], k);
      assert a[..k + 1] == [a[0]] + a[1..][..k] && b[..k + 1] == [b[0]] + b[1..][..k];
      assert DiffersAt(a, b, k + 1);
    }
  }

  /** Strings compare by their UTF-8 bytes exactly as they do by code points. */
  lemma {:induction false} OrderedByCodePoints(a: string, b: string)
    ensures StringLess(a, b) <==> CodePointsBefore(a, b)
  {
    if b == "" {
      assert Encode(b) == [];
    } else if a == "" {
      assert DiffersAt(a, b, 0);
    } else if a[0] == b[0] {
      BeforeStep(a, b);
      SharedFront(EncodeChar(a[0]), Encode(a[1..]), Encode(b[1..]));
      OrderedByCodePoints(a[1..], b[1..]);
    } else if a[0] < b[0] {
      FirstCharsOrder(a, b);
      assert DiffersAt(a, b, 0);
    } else {
      FirstCharsOrder(b, a);
      forall k | 0 <= k <= |a|
        ensures !DiffersAt(a, b, k)
      {
        assert k > 0 ==> a[..k][0] == a[0];
      }
    }
  }
}
