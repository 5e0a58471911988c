/** String orderings the scripts sort by, and sorting on sequences.
    JavaScript's default `Array.prototype.sort` and .NET's
    `StringComparer.Ordinal` compare UTF-16 code units;
    `StringComparer.OrdinalIgnoreCase` does the same after upper-casing both
    sides. Here strings are sequences of code points and are compared code
    point by code point, which gives the same order as long as neither string
    holds a character outside the Basic Multilingual Plane. Upper-casing
    covers the ASCII letters only. */
module Ordering {
  import opened Text

  /** Lexicographic order on character codes: a proper prefix comes first,
      otherwise the first differing character decides. */
  predicate LexLeq(a: string, b: string)
    decreases |a|
  {
    |a| == 0 || (|b| > 0 && if a[0] == b[0] then LexLeq(a[1..], b[1..]) else a[0] < b[0])
  }

  lemma {:induction false} LexLeqRefl(a: string)
    ensures LexLeq(a, a)
    decreases |a|
  {
    if |a| > 0 {
      LexLeqRefl(a[1..]);
    }
  }

  lemma {:induction false} LexLeqTotal(a: string, b: string)
    ensures LexLeq(a, b) || LexLeq(b, a)
    decreases |a|
  {
    if |a| > 0 && |b| > 0 && a[0] == b[0] {
      LexLeqTotal(a[1..], b[1..]);
    }
  }

  lemma {:induction false} LexLeqTrans(a: string, b: string, c: string)
    requires LexLeq(a, b) && LexLeq(b, c)
    ensures LexLeq(a, c)
    decreases |a|
  {
    if |a| > 0 && a[0] == b[0] && b[0] == c[0] {
      LexLeqTrans(a[1..], b[1..], c[1..]);
    }
  }

  lemma {:induction false} LexLeqAntisym(a: string, b: string)
    requires LexLeq(a, b) && LexLeq(b, a)
    ensures a == b
    decreases |a|
  {
    if |a| > 0 {
      LexLeqAntisym(a[1..], b[1..]);
      assert a == [a[0]] + a[1..];
      assert b == [b[0]] + b[1..];
    }
  }

  /** The two `StringComparer`s the scripts use. */
  datatype StringComparer = Ordinal | OrdinalIgnoreCase

  /** The string a comparer actually compares. */
  function Key(cmp: StringComparer, s: string): string {
    match cmp
    case Ordinal => s
    case OrdinalIgnoreCase => UpperAll(s)
  }

  predicate Leq(cmp: StringComparer, a: string, b: string) {
    LexLeq(Key(cmp, a), Key(cmp, b))
  }

  /** Equality as the comparer sees it: `Equals` of the comparer. */
  predicate Same(cmp: StringComparer, a: string, b: string) {
    Key(cmp, a) == Key(cmp, b)
  }

  predicate SortedBy(cmp: StringComparer, xs: seq<string>) {
    forall i, j | 0 <= i < j < |xs| :: Leq(cmp, xs[i], xs[j])
  }

  function InsertBy(cmp: StringComparer, x: string, xs: seq<string>): (r: seq<string>)
    requires SortedBy(cmp, xs)
    ensures SortedBy(cmp, r)
    ensures multiset(r) == multiset(xs) + multiset{x}
  {
    if |xs| == 0 then [x]
    else if Leq(cmp, x, xs[0]) then
      LeqBeforeSorted(cmp, x, xs);
      [x] + xs
    else
      var rest := InsertBy(cmp, x, xs[1..]);
      InsertAfterHead(cmp, x, xs, rest);
      [xs[0]] + rest
  }

  lemma InsertAfterHead(cmp: StringComparer, x: string, xs: seq<string>, rest: seq<string>)
    requires SortedBy(cmp, xs) && |xs| > 0 && !Leq(cmp, x, xs[0])
    requires SortedBy(cmp, rest) && multiset(rest) == multiset(xs[1..]) + multiset{x}
    ensures SortedBy(cmp, [xs[0]] + rest)
    ensures multiset([xs[0]] + rest) == multiset(xs) + multiset{x}
  {
    assert xs == [xs[0]] + xs[1..];
    forall y | y in multiset(rest) ensures Leq(cmp, xs[0], y) {
      HeadBeforeMember(cmp, x, xs, rest, y);
    }
    HeadBeforeRest(cmp, xs[0], rest);
  }

  lemma HeadBeforeMember(cmp: StringComparer, x: string, xs: seq<string>, rest: seq<string>, y: string)
    requires SortedBy(cmp, xs) && |xs| > 0 && !Leq(cmp, x, xs[0])
    requires multiset(rest) == multiset(xs[1..]) + multiset{x}
    requires y in multiset(rest)
    ensures Leq(cmp, xs[0], y)
  {
    if y == x {
      LexLeqTotal(Key(cmp, x), Key(cmp, xs[0]));
    } else {
      assert y in multiset(xs[1..]);
      var j :| 0 <= j < |xs[1..]| && xs[1..][j] == y;
      assert xs[j + 1] == y;
    }
  }

  lemma LeqBeforeSorted(cmp: StringComparer, x: string, xs: seq<string>)
    requires SortedBy(cmp, xs) && |xs| > 0 && Leq(cmp, x, xs[0])
    ensures SortedBy(cmp, [x] + xs)
  {
    forall j | 0 < j < |xs| ensures Leq(cmp, x, xs[j]) {
      LexLeqTrans(Key(cmp, x), Key(cmp, xs[0]), Key(cmp, xs[j]));
    }
  }

  lemma HeadBeforeRest(cmp: StringComparer, h: string, rest: seq<string>)
    requires SortedBy(cmp, rest)
    requires forall y | y in multiset(rest) :: Leq(cmp, h, y)
    ensures SortedBy(cmp, [h] + rest)
  {
    forall j | 0 <= j < |rest| ensures Leq(cmp, h, rest[j]) {
      assert rest[j] in multiset(rest);
    }
  }

  /** Sorting by a comparer: `List<string>.Sort(comparer)` and
      `Array.prototype.sort()`. Neither promises stability, so the contract is
      only that the result is an ordered permutation. */
  function SortBy(cmp: StringComparer, xs: seq<string>): (r: seq<string>)
    ensures SortedBy(cmp, r)
    ensures multiset(r) == multiset(xs)
  {
    if |xs| == 0 then []
    else
      assert xs == xs[..|xs| - 1] + [xs[|xs| - 1]];
      InsertBy(cmp, xs[|xs| - 1], SortBy(cmp, xs[..|xs| - 1]))
  }

  /** Increasing by code points, with no repeated element. */
  predicate StrictlySorted(xs: seq<string>) {
    forall i, j | 0 <= i < j < |xs| :: LexLeq(xs[i], xs[j]) && xs[i] != xs[j]
  }

  function InsertUnique(x: string, xs: seq<string>): (r: seq<string>)
    requires StrictlySorted(xs)
    ensures StrictlySorted(r)
    ensures forall y :: y in r <==> y == x || y in xs
  {
    if |xs| == 0 then [x]
    else if x == xs[0] then xs
    else if LexLeq(x, xs[0]) then
      forall j | 0 < j < |xs| ensures LexLeq(x, xs[j]) && x != xs[j] {
        LexLeqTrans(x, xs[0], xs[j]);
        if x == xs[j] {
          LexLeqAntisym(x, xs[0]);
        }
      }
      [x] + xs
    else
      LexLeqTotal(x, xs[0]);
      var rest := InsertUnique(x, xs[1..]);
      assert forall y :: y in xs <==> y == xs[0] || y in xs[1..];
      assert forall j | 0 <= j < |rest| :: rest[j] in rest;
      [xs[0]] + rest
  }

  /** The keys of a JavaScript object built from `entries`, sorted:
      `Object.keys(Object.fromEntries(entries)).sort()`. Repeated keys collapse
      to one. */
  function SortedKeys(keys: seq<string>): (r: seq<string>)
    ensures StrictlySorted(r)
    ensures forall y :: y in r <==> y in keys
  {
    if |keys| == 0 then []
    else
      assert forall y :: y in keys <==> y in keys[..|keys| - 1] || y == keys[|keys| - 1] by {
        assert keys == keys[..|keys| - 1] + [keys[|keys| - 1]];
      }
      InsertUnique(keys[|keys| - 1], SortedKeys(keys[..|keys| - 1]))
  }

  /** A strictly sorted sequence is determined by its elements: two of them
      holding the same strings are equal. */
  lemma {:induction false} StrictlySortedUnique(a: seq<string>, b: seq<string>)
    requires StrictlySorted(a) && StrictlySorted(b)
    requires forall y :: y in a <==> y in b
    ensures a == b
    decreases |a|
  {
    assert |a| > 0 ==> a[0] in a && a[0] in b;
    assert |b| > 0 ==> b[0] in b && b[0] in a;
    if |a| > 0 && |b| > 0 {
      var i :| 0 <= i < |b| && b[i] == a[0];
      var j :| 0 <= j < |a| && a[j] == b[0];
      LexLeqRefl(a[0]);
      LexLeqRefl(b[0]);
      assert LexLeq(b[0], a[0]) && LexLeq(a[0], b[0]);
      LexLeqAntisym(a[0], b[0]);
      forall y ensures y in a[1..] <==> y in b[1..] {
        if y in a[1..] {
          var k :| 1 <= k < |a| && a[k] == y;
          assert y in a;
          var m :| 0 <= m < |b| && b[m] == y;
          assert m != 0;
        }
        if y in b[1..] {
          var k :| 1 <= k < |b| && b[k] == y;
          assert y in b;
          var m :| 0 <= m < |a| && a[m] == y;
          assert m != 0;
        }
      }
      StrictlySortedUnique(a[1..], b[1..]);
      assert a == [a[0]] + a[1..];
      assert b == [b[0]] + b[1..];
    }
  }

  /** The keys that come out do not depend on the order the entries went in. */
  lemma SortedKeysOrderFree(keys: seq<string>, keys': seq<string>)
    requires multiset(keys) == multiset(keys')
    ensures SortedKeys(keys) == SortedKeys(keys')
  {
    forall y ensures y in keys <==> y in keys' {
      assert y in keys <==> y in multiset(keys);
      assert y in keys' <==> y in multiset(keys');
    }
    StrictlySortedUnique(SortedKeys(keys), SortedKeys(keys'));
  }

  predicate Ascending(xs: seq<int>) {
    forall i, j | 0 <= i < j < |xs| :: xs[i] <= xs[j]
  }

  function InsertInt(x: int, xs: seq<int>): (r: seq<int>)
    requires Ascending(xs)
    ensures Ascending(r)
    ensures multiset(r) == multiset(xs) + multiset{x}
  {
    if |xs| == 0 then [x]
    else if x <= xs[0] then
      IntHeadBeforeRest(x, xs);
      [x] + xs
    else
      var rest := InsertInt(x, xs[1..]);
      IntInsertAfterHead(x, xs, rest);
      [xs[0]] + rest
  }

  lemma IntInsertAfterHead(x: int, xs: seq<int>, rest: seq<int>)
    requires Ascending(xs) && |xs| > 0 && xs[0] < x
    requires Ascending(rest) && multiset(rest) == multiset(xs[1..]) + multiset{x}
    ensures Ascending([xs[0]] + rest)
    ensures multiset([xs[0]] + rest) == multiset(xs) + multiset{x}
  {
    assert xs == [xs[0]] + xs[1..];
    forall y | y in multiset(rest) ensures xs[0] <= y {
      if y != x {
        assert y in multiset(xs[1..]);
        var j :| 0 <= j < |xs[1..]| && xs[1..][j] == y;
        assert xs[j + 1] == y;
      }
    }
    IntHeadBeforeRest(xs[0], rest);
  }

  lemma IntHeadBeforeRest(h: int, rest: seq<int>)
    requires Ascending(rest)
    requires forall y | y in multiset(rest) :: h <= y
    ensures Ascending([h] + rest)
  {
    forall j | 0 <= j < |rest| ensures h <= rest[j] {
      assert rest[j] in multiset(rest);
    }
  }

  /** An ascending sequence is determined by its elements: sorting has only
      one possible result. */
  lemma {:induction false} AscendingUnique(a: seq<int>, b: seq<int>)
    requires Ascending(a) && Ascending(b) && multiset(a) == multiset(b)
    ensures a == b
    decreases |a|
  {
    assert |a| == |multiset(a)| == |multiset(b)| == |b|;
    if |a| > 0 {
      LeastFirst(a, b[0]);
      LeastFirst(b, a[0]);
      TailsSameElements(a, b);
      AscendingUnique(a[1..], b[1..]);
      assert a == [a[0]] + a[1..] && b == [b[0]] + b[1..];
    }
  }

  /** The head of an ascending sequence is its least element. */
  lemma LeastFirst(a: seq<int>, x: int)
    requires Ascending(a) && x in multiset(a)
    ensures |a| > 0 && a[0] <= x
  {
    var i :| 0 <= i < |a| && a[i] == x;
    if i > 0 {
      assert a[0] <= a[i];
    }
  }

  lemma TailsSameElements(a: seq<int>, b: seq<int>)
    requires |a| > 0 && |b| > 0 && a[0] == b[0] && multiset(a) == multiset(b)
    ensures multiset(a[1..]) == multiset(b[1..])
  {
    assert a == [a[0]] + a[1..] && b == [b[0]] + b[1..];
    assert multiset(a) == multiset{a[0]} + multiset(a[1..]);
    assert multiset(b) == multiset{a[0]} + multiset(b[1..]);
    forall x ensures multiset(a[1..])[x] == multiset(b[1..])[x] {
      assert multiset(a)[x] == multiset(b)[x];
    }
  }

  /** `numbers.sort((a, b) => a - b)`: ascending numeric order. */
  function SortInts(xs: seq<int>): (r: seq<int>)
    ensures Ascending(r)
    ensures multiset(r) == multiset(xs)
  {
    if |xs| == 0 then []
    else
      assert xs == xs[..|xs| - 1] + [xs[|xs| - 1]];
      InsertInt(xs[|xs| - 1], SortInts(xs[..|xs| - 1]))
  }
}
