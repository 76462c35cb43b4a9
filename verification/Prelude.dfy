/** Machine integers, results and a few facts about sequences shared by every component. */
module Prelude {
  datatype Option<+T> = None | Some(value: T)

  datatype Result<+T, +E> = Ok(value: T) | Err(error: E)

  const U32_COUNT := 0x1_0000_0000
  const U64_COUNT := 0x1_0000_0000_0000_0000
  const U64_MAX := U64_COUNT - 1

  type byte = n: int | 0 <= n < 0x100
  type u32 = n: int | 0 <= n < 0x1_0000_0000
  type u64 = n: int | 0 <= n < 0x1_0000_0000_0000_0000

  function Min(a: int, b: int): (r: int)
    ensures r <= a && r <= b && (r == a || r == b)
  {
    if a <= b then a else b
  }

  function Max(a: int, b: int): (r: int)
    ensures r >= a && r >= b && (r == a || r == b)
  {
    if a >= b then a else b
  }

  /** `u64::saturating_add`. */
  function SaturatingAdd(a: u64, b: u64): (r: u64)
    ensures r == Min(a + b, U64_MAX)
  {
    if a + b < U64_COUNT then a + b else U64_MAX
  }

  /** `u64::saturating_sub`. */
  function SaturatingSub(a: u64, b: u64): (r: u64)
    ensures r == Max(a - b, 0)
  {
    if a < b then 0 else a - b
  }

  /** `strip_prefix`. */
  function StripPrefix<T(==)>(s: seq<T>, prefix: seq<T>): (r: Option<seq<T>>)
    ensures r.Some? <==> prefix <= s
    ensures r.Some? ==> s == prefix + r.value
  {
    if prefix <= s then Some(s[|prefix|..]) else None
  }

  ghost predicate NoDuplicates<T>(s: seq<T>) {
    forall i, j :: 0 <= i < j < |s| ==> s[i] != s[j]
  }

  /** Two delimited prefixes without the delimiter split a sequence in the same place. */
  lemma DelimiterSplits<T>(a: seq<T>, x: seq<T>, b: seq<T>, y: seq<T>, d: T)
    requires d !in a && d !in b
    requires a + [d] + x == b + [d] + y
    ensures a == b && x == y
  {
    var s := a + [d] + x;
    assert s[|a|] == d && forall i :: 0 <= i < |a| ==> s[i] == a[i] != d;
    assert s[|b|] == d && forall i :: 0 <= i < |b| ==> s[i] == b[i] != d;
    assert |a| == |b|;
    assert a == s[..|a|] && b == s[..|b|];
    assert x == s[|a| + 1..] && y == s[|b| + 1..];
  }

  /** Removing one element of a sequence removes it once from its multiset. */
  lemma RemoveIndex<T>(s: seq<T>, i: nat)
    requires i < |s|
    ensures multiset(s) == multiset{s[i]} + multiset(s[..i] + s[i + 1..])
  {
    assert s == s[..i] + [s[i]] + s[i + 1..];
  }

  /** Leaving out a later element commutes with dropping the first. */
  lemma LeaveOutLater<T>(s: seq<T>, i: nat)
    requires 0 < i < |s|
    ensures var others := s[..i] + s[i + 1..];
            others[0] == s[0] && others[1..] == s[1..][..i - 1] + s[1..][i..]
  {
    var others := s[..i] + s[i + 1..];
    assert s[..i][1..] == s[1..][..i - 1] && s[i + 1..] == s[1..][i..];
    assert others[1..] == s[..i][1..] + s[i + 1..];
  }

  /** Leaving out an earlier element commutes with dropping the last. */
  lemma LeaveOutEarlier<T>(s: seq<T>, i: nat)
    requires i < |s| - 1
    ensures var (others, front) := (s[..i] + s[i + 1..], s[..|s| - 1]);
            others[..|others| - 1] == front[..i] + front[i + 1..] && others[|others| - 1] == s[|s| - 1]
  {
    var others, front := s[..i] + s[i + 1..], s[..|s| - 1];
    assert front[..i] == s[..i] && s[i + 1..] == front[i + 1..] + [s[|s| - 1]];
    assert others == front[..i] + front[i + 1..] + [s[|s| - 1]];
  }

  /** Dropping a shared first element from two arrangements of the same elements. */
  lemma DropShared<T>(xs: seq<T>, ys: seq<T>, i: nat)
    requires multiset(xs) == multiset(ys)
    requires xs != [] && i < |ys| && ys[i] == xs[0]
    ensures multiset(xs[1..]) == multiset(ys[..i] + ys[i + 1..])
  {
    RemoveIndex(ys, i);
    assert xs == [xs[0]] + xs[1..];
    assert multiset(xs[1..]) == multiset(xs) - multiset{xs[0]};
    assert multiset(ys[..i] + ys[i + 1..]) == multiset(ys) - multiset{xs[0]};
  }

  /** Sum of `weight` over the elements of a multiset, each counted with its multiplicity. */
  ghost function Total<T>(m: multiset<T>, weight: T -> nat): nat
    decreases |m|
  {
    if m == multiset{} then 0
    else
      var x :| x in m;
      weight(x) + Total(m - multiset{x}, weight)
  }

  lemma {:induction false} TotalInsert<T>(m: multiset<T>, x: T, weight: T -> nat)
    ensures Total(m + multiset{x}, weight) == Total(m, weight) + weight(x)
    decreases |m|
  {
    var n := m + multiset{x};
    var y :| y in n && Total(n, weight) == weight(y) + Total(n - multiset{y}, weight);
    if y == x {
      assert n - multiset{y} == m;
    } else {
      var rest := m - multiset{y};
      TakeTwo(m, x, y);
      TotalInsert(rest, x, weight);
      TotalInsert(rest, y, weight);
    }
  }

  lemma TakeTwo<T>(m: multiset<T>, x: T, y: T)
    requires y in m + multiset{x} && y != x
    ensures var rest := m - multiset{y};
            m + multiset{x} - multiset{y} == rest + multiset{x} && m == rest + multiset{y} && |rest| < |m|
  {
  }

  lemma {:induction false} TotalSplit<T>(a: multiset<T>, b: multiset<T>, weight: T -> nat)
    ensures Total(a + b, weight) == Total(a, weight) + Total(b, weight)
    decreases |b|
  {
    if b == multiset{} {
      assert a + b == a;
    } else {
      var x :| x in b;
      var rest := b - multiset{x};
      assert b == rest + multiset{x};
      assert a + b == (a + rest) + multiset{x};
      TotalInsert(rest, x, weight);
      TotalInsert(a + rest, x, weight);
      TotalSplit(a, rest, weight);
    }
  }

  /** When every element weighs one, the sum is the cardinality. */
  lemma {:induction false} TotalOfOnes<T>(m: multiset<T>, weight: T -> nat)
    requires forall x :: x in m ==> weight(x) == 1
    ensures Total(m, weight) == |m|
    decreases |m|
  {
    if m != multiset{} {
      var x :| x in m;
      var rest := m - multiset{x};
      assert m == rest + multiset{x};
      TotalInsert(rest, x, weight);
      TotalOfOnes(rest, weight);
    }
  }
}
