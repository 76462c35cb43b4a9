/** Paths as raw bytes, and the object identifiers derived from them. */
module Identity {
  import opened Prelude
  import opened Fnv

  /** One path component in its platform encoding. */
  type Name = seq<byte>
  /** An absolute path, component by component. */
  type Path = seq<Name>

  const SLASH: byte := 0x2f
  const ROOT_ID := "0"

  /** The bytes of a relative path. */
  function Joined(components: seq<Name>): seq<byte> {
    if components == [] then []
    else if |components| == 1 then components[0]
    else Joined(components[..|components| - 1]) + [SLASH] + components[|components| - 1]
  }

  function AbsoluteBytes(path: Path): seq<byte> {
    [SLASH] + Joined(path)
  }

  /** `path.strip_prefix(&root).unwrap_or(&path)`. */
  function RelativeBytes(root: Path, path: Path): seq<byte> {
    if root <= path then Joined(path[|root|..]) else AbsoluteBytes(path)
  }

  /** `stable_os_hash`. */
  function StableOsHash(value: seq<byte>): u64 {
    Extended(OFFSET_BASIS, value)
  }

  function HexDigit(d: nat): char
    requires d < 16
  {
    if d < 10 then ('0' as int + d) as char else ('a' as int + d - 10) as char
  }

  function HexDigitValue(c: char): nat {
    if '0' <= c <= '9' then c as int - '0' as int
    else if 'a' <= c <= 'f' then c as int - 'a' as int + 10
    else 0
  }

  /** The significant hexadecimal digits of `n`. */
  function HexDigits(n: nat): string {
    if n == 0 then "" else HexDigits(n / 16) + [HexDigit(n % 16)]
  }

  function HexValue(s: string): nat {
    if s == "" then 0 else 16 * HexValue(s[..|s| - 1]) + HexDigitValue(s[|s| - 1])
  }

  function Pow16(digits: nat): nat {
    if digits == 0 then 1 else 16 * Pow16(digits - 1)
  }

  lemma {:induction false} HexDigitsFit(n: nat, digits: nat)
    requires n < Pow16(digits)
    ensures |HexDigits(n)| <= digits
    decreases digits
  {
    if n != 0 {
      HexDigitsFit(n / 16, digits - 1);
    }
  }

  lemma HexDigitsFit64(n: u64)
    ensures |HexDigits(n)| <= 16
  {
    assert Pow16(4) == 0x1_0000;
    assert Pow16(8) == 0x1_0000 * Pow16(4);
    assert Pow16(12) == 0x1_0000 * Pow16(8);
    assert Pow16(16) == 0x1_0000 * Pow16(12);
    HexDigitsFit(n, 16);
  }

  lemma {:induction false} HexDigitsValue(n: nat)
    ensures HexValue(HexDigits(n)) == n
  {
    if n != 0 {
      HexDigitsValue(n / 16);
      var s := HexDigits(n);
      assert s[..|s| - 1] == HexDigits(n / 16);
    }
  }

  function Zeros(count: nat): (r: string)
    ensures |r| == count
  {
    if count == 0 then "" else ['0'] + Zeros(count - 1)
  }

  lemma {:induction false} LeadingZeros(count: nat, s: string)
    ensures HexValue(Zeros(count) + s) == HexValue(s)
    decreases count, |s|
  {
    var padded := Zeros(count) + s;
    if s != "" {
      assert padded[..|padded| - 1] == Zeros(count) + s[..|s| - 1];
      LeadingZeros(count, s[..|s| - 1]);
    } else if count > 0 {
      assert padded == Zeros(count);
      ZerosEnd(count);
      LeadingZeros(count - 1, "");
      assert Zeros(count - 1) + "" == Zeros(count - 1);
    }
  }

  lemma {:induction false} ZerosEnd(count: nat)
    ensures Zeros(count + 1) == Zeros(count) + ['0']
    ensures count > 0 ==> Zeros(count)[..count - 1] == Zeros(count - 1) && Zeros(count)[count - 1] == '0'
  {
    if count > 0 {
      ZerosEnd(count - 1);
    }
  }

  /** The `{:016x}` rendering of a hash. */
  function Hex16(n: u64): (r: string)
    ensures |r| == 16
  {
    HexDigitsFit64(n);
    Zeros(16 - |HexDigits(n)|) + HexDigits(n)
  }

  lemma Hex16Injective(m: u64, n: u64)
    requires Hex16(m) == Hex16(n)
    ensures m == n
  {
    HexDigitsFit64(m);
    HexDigitsFit64(n);
    LeadingZeros(16 - |HexDigits(m)|, HexDigits(m));
    LeadingZeros(16 - |HexDigits(n)|, HexDigits(n));
    HexDigitsValue(m);
    HexDigitsValue(n);
  }

  /** `object_id`: a kind letter, the share root's hash and the relative path's hash. */
  function ObjectId(kind: char, rootHash: u64, relative: seq<byte>): (r: string)
    ensures |r| == 33 && r[0] == kind
  {
    [kind] + Hex16(rootHash) + Hex16(StableOsHash(relative))
  }

  /** Identifiers agree exactly when kind, root hash and path hash do. */
  lemma ObjectIdParts(k: char, g: u64, a: seq<byte>, l: char, h: u64, b: seq<byte>)
    ensures ObjectId(k, g, a) == ObjectId(l, h, b) <==>
            k == l && g == h && StableOsHash(a) == StableOsHash(b)
  {
    var x, y := ObjectId(k, g, a), ObjectId(l, h, b);
    if x == y {
      assert x[0] == k && y[0] == l;
      assert x[1..17] == Hex16(g) && y[1..17] == Hex16(h);
      assert x[17..] == Hex16(StableOsHash(a)) && y[17..] == Hex16(StableOsHash(b));
      Hex16Injective(g, h);
      Hex16Injective(StableOsHash(a), StableOsHash(b));
    }
  }

  /** Equal-length relative paths that differ in one byte never share an identifier. */
  lemma OneByteChangesId(kind: char, rootHash: u64, front: seq<byte>, b: byte, c: byte, back: seq<byte>)
    requires b != c
    ensures ObjectId(kind, rootHash, front + [b] + back) != ObjectId(kind, rootHash, front + [c] + back)
  {
    OneByteChangesHash(OFFSET_BASIS, front, b, c, back);
    ObjectIdParts(kind, rootHash, front + [b] + back, kind, rootHash, front + [c] + back);
  }

  /** Same-named files in two directories below a share root collide exactly when the directories do. */
  lemma SameNameCollidesWithDirectory(rootHash: u64, d: seq<Name>, e: seq<Name>, name: Name)
    requires d != [] && e != []
    ensures ObjectId('f', rootHash, Joined(d + [name])) == ObjectId('f', rootHash, Joined(e + [name]))
            <==> ObjectId('d', rootHash, Joined(d)) == ObjectId('d', rootHash, Joined(e))
  {
    var tail := [SLASH] + name;
    assert (d + [name])[..|d|] == d && (e + [name])[..|e|] == e;
    assert Joined(d + [name]) == Joined(d) + tail;
    assert Joined(e + [name]) == Joined(e) + tail;
    ExtendedConcat(OFFSET_BASIS, Joined(d), tail);
    ExtendedConcat(OFFSET_BASIS, Joined(e), tail);
    ExtendedInjective(StableOsHash(Joined(d)), StableOsHash(Joined(e)), tail);
    ObjectIdParts('f', rootHash, Joined(d + [name]), 'f', rootHash, Joined(e + [name]));
    ObjectIdParts('d', rootHash, Joined(d), 'd', rootHash, Joined(e));
  }

  // --- What an identifier tells --------------------------------------------------------------

  predicate IsHex(s: string) {
    forall c :: c in s ==> '0' <= c <= '9' || 'a' <= c <= 'f'
  }

  lemma {:induction false} DigitsAreHex(n: nat)
    ensures IsHex(HexDigits(n))
  {
    if n != 0 {
      DigitsAreHex(n / 16);
    }
  }

  lemma {:induction false} ZerosAreHex(count: nat)
    ensures IsHex(Zeros(count))
  {
    if count > 0 {
      ZerosAreHex(count - 1);
    }
  }

  lemma HexReads(n: u64)
    ensures HexValue(Hex16(n)) == n && IsHex(Hex16(n))
  {
    HexDigitsFit64(n);
    LeadingZeros(16 - |HexDigits(n)|, HexDigits(n));
    HexDigitsValue(n);
    DigitsAreHex(n);
    ZerosAreHex(16 - |HexDigits(n)|);
  }

  /** Kind letter, sixteen lower-case digits for the hash of the root, and sixteen for that of the path. */
  lemma ObjectIdReads(kind: char, rootHash: u64, relative: seq<byte>)
    ensures var id := ObjectId(kind, rootHash, relative);
            && |id| == 33 && id[0] == kind && IsHex(id[1..])
            && HexValue(id[1..17]) == rootHash && HexValue(id[17..]) == Extended(OFFSET_BASIS, relative)
  {
    HexReads(rootHash);
    HexReads(StableOsHash(relative));
    var id := ObjectId(kind, rootHash, relative);
    hide Hex16, HexValue;
    assert id[1..17] == Hex16(rootHash) && id[17..] == Hex16(StableOsHash(relative));
    assert id[1..] == id[1..17] + id[17..];
  }

  /** The names between the slashes. */
  function Parts(s: seq<byte>): seq<Name> {
    if s == [] then [[]]
    else if s[0] == SLASH then [[]] + Parts(s[1..])
    else
      var others := Parts(s[1..]);
      [[s[0]] + others[0]] + others[1..]
  }

  lemma {:induction false} PartsOf(name: Name, rest: seq<byte>)
    requires SLASH !in name
    ensures Parts(name) == [name] && Parts(name + [SLASH] + rest) == [name] + Parts(rest)
  {
    var s := name + [SLASH] + rest;
    if name == [] {
      assert s[1..] == rest;
    } else {
      assert s[1..] == name[1..] + [SLASH] + rest;
      PartsOf(name[1..], rest);
      assert name == [name[0]] + name[1..];
    }
  }

  lemma {:induction false} JoinedFront(name: Name, others: seq<Name>)
    requires others != []
    ensures Joined([name] + others) == name + [SLASH] + Joined(others)
    decreases |others|
  {
    var all := [name] + others;
    if |others| == 1 {
      assert all[..1] == [name] && Joined([name]) == name;
    } else {
      var front := others[..|others| - 1];
      assert all[..|all| - 1] == [name] + front;
      JoinedFront(name, front);
    }
  }

  /** The bytes of a path tell its names. */
  lemma {:induction false} JoinedReads(path: Path)
    requires path != [] && forall name :: name in path ==> SLASH !in name
    ensures Parts(Joined(path)) == path
  {
    hide Joined, Parts;
    var others := path[1..];
    assert path == [path[0]] + others;
    assert path[0] in path && forall name :: name in others ==> name in path;
    if others == [] {
      assert path == [path[0]];
      JoinedOne(path[0]);
      PartsOf(path[0], []);
    } else {
      JoinedFront(path[0], others);
      JoinedReads(others);
      PartsOf(path[0], Joined(others));
    }
  }

  lemma JoinedOne(name: Name)
    ensures Joined([name]) == name
  {
  }

  /**
   * An identifier of that kind for something below a root: one hash is that of bytes which, after a
   * leading slash, spell the names of the root, the other that of bytes which spell those below it.
   */
  ghost predicate Identifies(id: string, kind: char, root: Path, path: Path) {
    && |id| == 33 && id[0] == kind && IsHex(id[1..])
    && exists front, back ::
         SpelledBy(root, front) && SpelledBy(path[Min(|root|, |path|)..], back)
         && HexValue(id[1..17]) == Extended(OFFSET_BASIS, [0x2f] + front)
         && HexValue(id[17..]) == Extended(OFFSET_BASIS, back)
  }

  /** The bytes spell the path, its names not containing slashes. */
  predicate SpelledBy(path: Path, bytes: seq<byte>) {
    if path == [] then bytes == [] else (forall name :: name in path ==> SLASH !in name) ==> Parts(bytes) == path
  }

  lemma PathIsSpelled(path: Path)
    ensures SpelledBy(path, Joined(path))
  {
    if path != [] && forall name :: name in path ==> SLASH !in name {
      JoinedReads(path);
    }
  }

  lemma IdIdentifies(kind: char, root: Path, path: Path)
    requires root <= path
    ensures Identifies(ObjectId(kind, StableOsHash(AbsoluteBytes(root)), RelativeBytes(root, path)), kind, root, path)
  {
    PathIsSpelled(root);
    PathIsSpelled(path[|root|..]);
    ObjectIdReads(kind, StableOsHash(AbsoluteBytes(root)), RelativeBytes(root, path));
    hide ObjectId, HexValue, SpelledBy, IsHex, Joined;
  }
}
