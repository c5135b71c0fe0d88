/**
  The order of the comparison rows: `Array.from(allKeys).sort(...)` with a comparator
  that compares first dot-segments, then segment counts, then whole keys.
  `localeCompare` is taken to be code-point lexicographic order.
 */
module KeyOrder {
  import opened Strings

  /** Code-point lexicographic comparison standing in for `localeCompare`: -1, 0 or 1. */
  function LexCompare(a: string, b: string): (r: int)
    ensures -1 <= r <= 1
    ensures r == 0 <==> a == b
  {
    if a == [] && b == [] then 0
    else if a == [] then -1
    else if b == [] then 1
    else if a[0] < b[0] then -1
    else if a[0] > b[0] then 1
    else
      var r := LexCompare(a[1..], b[1..]);
      assert r == 0 ==> a == [a[0]] + a[1..] == [b[0]] + b[1..] == b;
      r
  }

  lemma {:induction false} LexCompareAntisymmetric(a: string, b: string)
    ensures LexCompare(b, a) == -LexCompare(a, b)
  {
    if a != [] && b != [] && a[0] == b[0] {
      LexCompareAntisymmetric(a[1..], b[1..]);
    }
  }

  lemma {:induction false} LexCompareTransitive(a: string, b: string, c: string)
    requires LexCompare(a, b) < 0 && LexCompare(b, c) < 0
    ensures LexCompare(a, c) < 0
  {
    if a != [] && b != [] && c != [] && a[0] == b[0] && b[0] == c[0] {
      LexCompareTransitive(a[1..], b[1..], c[1..]);
    }
  }

  /** `key.split(".")[0]`. */
  function Base(key: string): string {
    Split(key, '.')[0]
  }

  /** `key.split(".").length`. */
  function Depth(key: string): nat {
    |Split(key, '.')|
  }

  /**
    The base is the key's first `.`-segment: a dot-free prefix of the key that
    is either the whole key or followed by a `.`.
   */
  lemma BaseIsFirstSegment(key: string)
    ensures '.' !in Base(key)
    ensures |Base(key)| <= |key| && key[..|Base(key)|] == Base(key)
    ensures |Base(key)| < |key| ==> key[|Base(key)|] == '.'
    ensures '.' !in key ==> Base(key) == key
  {
    JoinSplit(key, '.');
    JoinStartsWithFirst(Split(key, '.'), '.');
    if |Split(key, '.')| == 1 {
      assert Join(Split(key, '.'), '.') == Base(key);
    }
    if |Base(key)| < |key| {
      assert key[|Base(key)|] in key;
    }
  }

  /** The depth is one more than the number of `.` in the key. */
  lemma DepthCountsDots(key: string)
    ensures Depth(key) == 1 + multiset(key)['.']
  {
    SplitCountsSeparators(key, '.');
  }

  /** The comparator passed to `sort`: negative when `a` goes first. */
  function CompareKeys(a: string, b: string): int {
    if Base(a) != Base(b) then LexCompare(Base(a), Base(b))
    else if Depth(a) != Depth(b) then Depth(a) - Depth(b)
    else LexCompare(a, b)
  }

  predicate KeyBefore(a: string, b: string) {
    CompareKeys(a, b) < 0
  }

  /**
    The comparator is consistent, as `sort` needs: it returns 0 only for equal keys,
    swapping its arguments flips its sign, and the order it induces is transitive.
   */
  lemma KeyOrderIsStrictTotal(a: string, b: string, c: string)
    ensures CompareKeys(a, b) == 0 <==> a == b
    ensures KeyBefore(a, b) <==> CompareKeys(b, a) > 0
    ensures a != b ==> KeyBefore(a, b) || KeyBefore(b, a)
    ensures KeyBefore(a, b) && KeyBefore(b, c) ==> KeyBefore(a, c)
  {
    LexCompareAntisymmetric(Base(a), Base(b));
    LexCompareAntisymmetric(a, b);
    if KeyBefore(a, b) && KeyBefore(b, c) {
      if Base(a) != Base(b) && Base(b) != Base(c) {
        LexCompareTransitive(Base(a), Base(b), Base(c));
      } else if Base(a) == Base(b) && Base(b) == Base(c) && Depth(a) == Depth(b) && Depth(b) == Depth(c) {
        LexCompareTransitive(a, b, c);
      }
    }
  }

  predicate StrictlySorted(s: seq<string>) {
    forall i, j :: 0 <= i < j < |s| ==> KeyBefore(s[i], s[j])
  }

  /** Inserting a new key into a strictly sorted listing keeps it strictly sorted. */
  function Insert(s: seq<string>, k: string): (r: seq<string>)
    requires StrictlySorted(s) && k !in s
    ensures StrictlySorted(r) && |r| == |s| + 1
    ensures forall x :: x in r <==> x in s || x == k
  {
    if s == [] then [k]
    else if KeyBefore(k, s[0]) then
      KeyBeforeAll(s, k);
      [k] + s
    else
      var r := Insert(s[1..], k);
      KeyOrderIsStrictTotal(k, s[0], s[0]);
      assert forall x :: x in r ==> KeyBefore(s[0], x) by {
        forall x | x in r ensures KeyBefore(s[0], x) {
          if x != k {
            var j :| 1 <= j < |s| && s[j] == x;
          }
        }
      }
      [s[0]] + r
  }

  lemma KeyBeforeAll(s: seq<string>, k: string)
    requires StrictlySorted(s) && s != [] && KeyBefore(k, s[0])
    ensures StrictlySorted([k] + s)
  {
    forall j | 0 < j < |s|
      ensures KeyBefore(k, s[j])
    {
      KeyOrderIsStrictTotal(k, s[0], s[j]);
    }
  }

  /**
    `Array.from(allKeys).sort(compare)`: the keys of the set, each once, in comparator
    order. (`Array.from` lists the set in insertion order; with a consistent comparator
    the sorted result does not depend on that order.)
   */
  method SortKeys(keys: set<string>) returns (sorted: seq<string>)
    ensures StrictlySorted(sorted)
    ensures |sorted| == |keys|
    ensures forall k :: k in sorted <==> k in keys
  {
    sorted := [];
    var rest := keys;
    while rest != {}
      invariant rest <= keys
      invariant StrictlySorted(sorted)
      invariant |sorted| + |rest| == |keys|
      invariant forall k :: k in sorted <==> k in keys && k !in rest
      decreases |rest|
    {
      var k :| k in rest;
      sorted := Insert(sorted, k);
      rest := rest - {k};
    }
  }

  /** A strictly sorted listing of a set is unique, so the row order is determined by the key set. */
  lemma {:induction false} SortedListingUnique(s: seq<string>, t: seq<string>)
    requires StrictlySorted(s) && StrictlySorted(t)
    requires forall x :: x in s <==> x in t
    ensures s == t
    decreases |s|
  {
    if s != [] { assert s[0] in t; }
    if t != [] { assert t[0] in s; }
    if s != [] && t != [] {
      var i :| 0 <= i < |s| && s[i] == t[0];
      var j :| 0 <= j < |t| && t[j] == s[0];
      KeyOrderIsStrictTotal(s[0], t[0], s[0]);
      KeyOrderIsStrictTotal(t[0], s[0], t[0]);
      assert s[0] == t[0];
      forall x
        ensures x in s[1..] <==> x in t[1..]
      {
        if x in s[1..] {
          var a :| 1 <= a < |s| && s[a] == x;
          KeyOrderIsStrictTotal(s[0], x, x);
          assert x in t;
          var b :| 0 <= b < |t| && t[b] == x;
          assert t[1..][b - 1] == x;
        }
        if x in t[1..] {
          var b :| 1 <= b < |t| && t[b] == x;
          KeyOrderIsStrictTotal(t[0], x, x);
          assert x in s;
          var a :| 0 <= a < |s| && s[a] == x;
          assert s[1..][a - 1] == x;
        }
      }
      SortedListingUnique(s[1..], t[1..]);
      assert s == [s[0]] + s[1..] && t == [t[0]] + t[1..];
    }
  }

  /**
    In a strictly sorted listing, keys sharing a first segment are contiguous and
    appear shallow before deep.
   */
  lemma SortedGroupsByBase(s: seq<string>, i: nat, j: nat, l: nat)
    requires StrictlySorted(s) && i < j < l < |s|
    requires Base(s[i]) == Base(s[l])
    ensures Base(s[j]) == Base(s[i])
    ensures Depth(s[i]) <= Depth(s[j]) <= Depth(s[l])
  {
    assert KeyBefore(s[i], s[j]) && KeyBefore(s[j], s[l]);
    if Base(s[i]) != Base(s[j]) {
      if Base(s[j]) != Base(s[l]) {
        LexCompareTransitive(Base(s[i]), Base(s[j]), Base(s[l]));
      }
    }
  }
}
