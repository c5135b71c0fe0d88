/**
  Key-path collection (the `addKeys` closure of `compareJsonInputs`): every entry
  of every object level contributes its dot-joined path; a nested object is walked
  under that path with no marker; a non-empty array adds `path[array]` and walks its
  first element only, under `path[0]`; an empty array adds nothing beyond `path`.
 */
module KeyCollector {
  import opened Strings
  import opened JsonValue

  /** `prefix ? `${prefix}.${key}` : key` (the empty prefix is falsy). */
  function JoinKey(prefix: string, key: string): (full: string)
    ensures prefix == "" ==> full == key
    ensures prefix != "" ==> full == prefix + "." + key
  {
    if prefix == "" then key else prefix + "." + key
  }

  // ---------------------------------------------------------------------------
  // Specification of addKeys
  // ---------------------------------------------------------------------------

  /** The keys `addKeys(v, prefix)` adds to the set. */
  function KeysOf(v: Value, prefix: string): set<string>
    requires Walkable(v)
    decreases v, 2
  {
    EntryKeys(v, |Entries(v)|, prefix)
  }

  /** The keys added while visiting the first `n` entries of `v`. */
  function EntryKeys(v: Value, n: nat, prefix: string): set<string>
    requires Walkable(v) && n <= |Entries(v)|
    decreases v, 1, n
  {
    if n == 0 then {} else EntryKeys(v, n - 1, prefix) + EntryContribution(v, n - 1, prefix)
  }

  /** The keys one visit of the `forEach` callback adds, for the `i`-th entry of `v`. */
  function EntryContribution(v: Value, i: nat, prefix: string): set<string>
    requires Walkable(v) && i < |Entries(v)|
    decreases v, 0
  {
    var (key, value) := Entries(v)[i];
    var fullKey := JoinKey(prefix, key);
    {fullKey} +
      if value.Arr? && |value.elems| > 0 then
        {fullKey + "[array]"} + KeysOf(value.elems[0], fullKey + "[0]")
      else if value.Obj? then KeysOf(value, fullKey)
      else {}
  }

  /** The unified key set: the union of what every input contributes from the root. */
  function AllKeys(inputs: seq<Value>): set<string>
    requires forall i :: 0 <= i < |inputs| ==> Walkable(inputs[i])
  {
    if inputs == [] then {}
    else AllKeys(inputs[..|inputs| - 1]) + KeysOf(inputs[|inputs| - 1], "")
  }

  // ---------------------------------------------------------------------------
  // The collector as the source runs it
  // ---------------------------------------------------------------------------

  /** `addKeys(v, prefix)`, threading the shared set through the recursion. */
  method AddKeys(v: Value, prefix: string, allKeys: set<string>) returns (result: set<string>)
    requires Walkable(v)
    ensures result == allKeys + KeysOf(v, prefix)
    decreases v
  {
    var entries := Entries(v);
    result := allKeys;
    var i := 0;
    while i < |entries|
      invariant 0 <= i <= |entries|
      invariant result == allKeys + EntryKeys(v, i, prefix)
    {
      var (key, value) := entries[i];
      var fullKey := JoinKey(prefix, key);
      result := result + {fullKey};
      if value.Arr? && |value.elems| > 0 {
        result := result + {fullKey + "[array]"};
        result := AddKeys(value.elems[0], fullKey + "[0]", result);
      } else if value.Obj? {
        result := AddKeys(value, fullKey, result);
      }
      i := i + 1;
    }
  }

  /** The `inputs.forEach` loop that fills `allKeys`. */
  method CollectKeys(inputs: seq<Value>) returns (allKeys: set<string>)
    requires forall i :: 0 <= i < |inputs| ==> Walkable(inputs[i])
    ensures allKeys == AllKeys(inputs)
  {
    allKeys := {};
    var i := 0;
    while i < |inputs|
      invariant 0 <= i <= |inputs|
      invariant allKeys == AllKeys(inputs[..i])
    {
      assert inputs[..i + 1][..i] == inputs[..i];
      allKeys := AddKeys(inputs[i], "", allKeys);
      i := i + 1;
    }
    assert inputs[..i] == inputs;
  }

  // ---------------------------------------------------------------------------
  // Properties
  // ---------------------------------------------------------------------------

  lemma {:induction false} EntryKeysMembership(v: Value, n: nat, prefix: string, x: string)
    requires Walkable(v) && n <= |Entries(v)|
    ensures x in EntryKeys(v, n, prefix) <==>
      exists i :: 0 <= i < n && x in EntryContribution(v, i, prefix)
    decreases n
  {
    if n > 0 {
      EntryKeysMembership(v, n - 1, prefix, x);
      var last := EntryContribution(v, n - 1, prefix);
      assert EntryKeys(v, n, prefix) == EntryKeys(v, n - 1, prefix) + last;
      if x in last {
        assert 0 <= n - 1 < n && x in EntryContribution(v, n - 1, prefix);
        assert exists i :: 0 <= i < n && x in EntryContribution(v, i, prefix);
        assert x in EntryKeys(v, n, prefix);
      } else if x in EntryKeys(v, n - 1, prefix) {
        var j :| 0 <= j < n - 1 && x in EntryContribution(v, j, prefix);
        assert 0 <= j < n;
      } else {
        forall i | 0 <= i < n
          ensures x !in EntryContribution(v, i, prefix)
        {
        }
      }
    }
  }

  /** A key is collected from `v` exactly when one of `v`'s entries contributes it. */
  lemma KeysOfMembership(v: Value, prefix: string, x: string)
    requires Walkable(v)
    ensures x in KeysOf(v, prefix) <==>
      exists i :: 0 <= i < |Entries(v)| && x in EntryContribution(v, i, prefix)
  {
    EntryKeysMembership(v, |Entries(v)|, prefix, x);
  }

  /**
    Completeness of collection for one entry `(key, value)` of `v` under `prefix`:
    its joined path is collected; a nested object's keys are collected under that
    path with no marker; a non-empty array adds the `[array]` marker and its first
    element's keys under `path[0]`.
   */
  lemma EntryCollected(v: Value, i: nat, prefix: string)
    requires Walkable(v) && i < |Entries(v)|
    ensures var (key, value) := Entries(v)[i];
      var fullKey := JoinKey(prefix, key);
      && fullKey in KeysOf(v, prefix)
      && (value.Obj? ==> KeysOf(value, fullKey) <= KeysOf(v, prefix))
      && (value.Arr? && |value.elems| > 0 ==>
            && fullKey + "[array]" in KeysOf(v, prefix)
            && KeysOf(value.elems[0], fullKey + "[0]") <= KeysOf(v, prefix))
  {
    ContributionIncluded(v, |Entries(v)|, i, prefix);
  }

  /** Visiting more entries only adds keys: entry `i`'s contribution stays in every later set. */
  lemma {:induction false} ContributionIncluded(v: Value, n: nat, i: nat, prefix: string)
    requires Walkable(v) && i < n <= |Entries(v)|
    ensures EntryContribution(v, i, prefix) <= EntryKeys(v, n, prefix)
  {
    if i < n - 1 {
      ContributionIncluded(v, n - 1, i, prefix);
    }
  }

  predicate HasPrefix(x: string, p: string) {
    |p| <= |x| && x[..|p|] == p
  }

  lemma HasPrefixTransitive(x: string, q: string, p: string)
    requires HasPrefix(x, q) && HasPrefix(q, p)
    ensures HasPrefix(x, p)
  {
    assert x[..|p|] == x[..|q|][..|p|];
  }

  /** Every key collected under a non-empty prefix extends that prefix by a dot. */
  lemma {:induction false} KeysExtendPrefix(v: Value, prefix: string, x: string)
    requires Walkable(v) && prefix != ""
    requires x in KeysOf(v, prefix)
    ensures HasPrefix(x, prefix + ".")
    decreases v
  {
    KeysOfMembership(v, prefix, x);
    var i :| 0 <= i < |Entries(v)| && x in EntryContribution(v, i, prefix);
    var (key, value) := Entries(v)[i];
    var fullKey := JoinKey(prefix, key);
    assert HasPrefix(fullKey, prefix + ".");
    if x != fullKey {
      if value.Arr? && |value.elems| > 0 && x != fullKey + "[array]" {
        KeysExtendPrefix(value.elems[0], fullKey + "[0]", x);
        HasPrefixTransitive(x, fullKey + "[0]" + ".", fullKey);
      } else if value.Arr? && |value.elems| > 0 {
        assert HasPrefix(x, fullKey);
      } else {
        KeysExtendPrefix(value, fullKey, x);
        HasPrefixTransitive(x, fullKey + ".", fullKey);
      }
      HasPrefixTransitive(x, fullKey, prefix + ".");
    }
  }

  /** The entry keys of `v` are non-empty, pairwise distinct and free of `.`, `[` and `]`. */
  predicate WellFormedEntryKeys(v: Value)
    requires !v.Null? && !v.Undefined?
  {
    var es := Entries(v);
    && (forall i, j :: 0 <= i < j < |es| ==> es[i].0 != es[j].0)
    && (forall i :: 0 <= i < |es| ==> es[i].0 != "" && NoPathDelimiter(es[i].0))
  }

  /**
    What one entry contributes is its joined path, or keys that continue that path
    with `[` (only for a non-empty array) or with `.` (only for an object).
   */
  lemma ContributionShape(v: Value, j: nat, prefix: string, x: string)
    requires Walkable(v) && j < |Entries(v)| && x in EntryContribution(v, j, prefix)
    requires JoinKey(prefix, Entries(v)[j].0) != ""
    ensures var (key, value) := Entries(v)[j];
      var fullKey := JoinKey(prefix, key);
      || x == fullKey
      || (value.Arr? && |value.elems| > 0 && HasPrefix(x, fullKey + "["))
      || (value.Obj? && HasPrefix(x, fullKey + "."))
  {
    var (key, value) := Entries(v)[j];
    var fullKey := JoinKey(prefix, key);
    if x != fullKey {
      if value.Arr? && |value.elems| > 0 {
        if x != fullKey + "[array]" {
          KeysExtendPrefix(value.elems[0], fullKey + "[0]", x);
          HasPrefixTransitive(x, fullKey + "[0]" + ".", fullKey + "[");
        }
      } else {
        KeysExtendPrefix(value, fullKey, x);
      }
    }
  }

  /**
    Paths of two different delimiter-free keys under the same prefix never run into
    each other: nothing that is, or continues, one of them continues the other.
   */
  lemma NoCrossPrefix(prefix: string, ki: string, kj: string, x: string, d: string, e: char)
    requires ki != kj && NoPathDelimiter(ki) && NoPathDelimiter(kj) && IsPathDelimiter(e)
    requires d == "" || (|d| == 1 && IsPathDelimiter(d[0]))
    requires HasPrefix(x, JoinKey(prefix, kj) + d) && (d == "" ==> x == JoinKey(prefix, kj))
    ensures !HasPrefix(x, JoinKey(prefix, ki) + [e])
  {
    var P := if prefix == "" then "" else prefix + ".";
    assert JoinKey(prefix, ki) == P + ki && JoinKey(prefix, kj) == P + kj;
    HasPrefixTransitive(x, P + kj + d, P + kj);
    DistinctSegments(P, ki, kj, x, d, e);
  }

  /** The core of `NoCrossPrefix`, with the common prefix `P` already joined. */
  lemma DistinctSegments(P: string, ki: string, kj: string, x: string, d: string, e: char)
    requires ki != kj && NoPathDelimiter(ki) && NoPathDelimiter(kj) && IsPathDelimiter(e)
    requires d == "" || (|d| == 1 && IsPathDelimiter(d[0]))
    requires HasPrefix(x, P + kj + d) && HasPrefix(x, P + kj) && (d == "" ==> x == P + kj)
    ensures !HasPrefix(x, P + ki + [e])
  {
    var y := P + ki + [e];
    var z := P + kj;
    assert x[..|z|] == z;
    if |y| <= |x| {
      if |ki| < |kj| {
        var m := |P| + |ki|;
        assert x[m] == x[..|z|][m] == z[m] == kj[|ki|];
        assert y[m] == e;
        Mismatch(x, y, m);
      } else if |ki| > |kj| {
        var m := |P| + |kj|;
        assert x[m] == x[..|z + d|][m] == (z + d)[m] == d[0];
        assert y[m] == ki[|kj|];
        Mismatch(x, y, m);
      } else {
        var n :| 0 <= n < |ki| && ki[n] != kj[n];
        var m := |P| + n;
        assert x[m] == x[..|z|][m] == z[m] == kj[n];
        assert y[m] == ki[n];
        Mismatch(x, y, m);
      }
    }
  }

  /** A string that differs from `y` at a position of `y` does not start with `y`. */
  lemma Mismatch(x: string, y: string, m: nat)
    requires m < |y| <= |x| && x[m] != y[m]
    ensures !HasPrefix(x, y)
  {
    assert x[..|y|][m] == x[m];
  }

  lemma ForeignContribution(v: Value, i: nat, j: nat, prefix: string, x: string, e: char)
    requires Walkable(v) && WellFormedEntryKeys(v)
    requires i < |Entries(v)| && j < |Entries(v)| && i != j && IsPathDelimiter(e)
    requires x in EntryContribution(v, j, prefix)
    ensures !HasPrefix(x, JoinKey(prefix, Entries(v)[i].0) + [e])
  {
    var ki := Entries(v)[i].0;
    var kj := Entries(v)[j].0;
    assert ki != kj by {
      if i < j {} else {}
    }
    ContributionShape(v, j, prefix, x);
    var fullKey := JoinKey(prefix, kj);
    if x == fullKey {
      assert HasPrefix(x, fullKey + "");
      NoCrossPrefix(prefix, ki, kj, x, "", e);
    } else if HasPrefix(x, fullKey + "[") {
      NoCrossPrefix(prefix, ki, kj, x, "[", e);
    } else {
      NoCrossPrefix(prefix, ki, kj, x, ".", e);
    }
  }

  /** Every collected key that continues an entry's path with a delimiter comes from that entry. */
  lemma ContinuationFromOwnEntry(v: Value, i: nat, prefix: string, x: string, e: char)
    requires Walkable(v) && WellFormedEntryKeys(v) && i < |Entries(v)| && IsPathDelimiter(e)
    requires x in KeysOf(v, prefix) && HasPrefix(x, JoinKey(prefix, Entries(v)[i].0) + [e])
    ensures x in EntryContribution(v, i, prefix)
  {
    KeysOfMembership(v, prefix, x);
    var j :| 0 <= j < |Entries(v)| && x in EntryContribution(v, j, prefix);
    if j != i {
      ForeignContribution(v, i, j, prefix, x, e);
    }
  }

  /** A collected key that continues an entry's path with `[` comes from a non-empty array. */
  lemma BracketContinuation(v: Value, i: nat, prefix: string, x: string)
    requires Walkable(v) && WellFormedEntryKeys(v) && i < |Entries(v)|
    requires x in KeysOf(v, prefix) && HasPrefix(x, JoinKey(prefix, Entries(v)[i].0) + "[")
    ensures Entries(v)[i].1.Arr? && |Entries(v)[i].1.elems| > 0
  {
    var fullKey := JoinKey(prefix, Entries(v)[i].0);
    assert fullKey + "[" == fullKey + ['['];
    ContinuationFromOwnEntry(v, i, prefix, x, '[');
    ContributionShape(v, i, prefix, x);
    NextCharacter(x, fullKey, '[');
    NextCharacter(x, fullKey, '.');
  }

  /** A collected key that continues an entry's path with `.` comes from an object with entries. */
  lemma DotContinuation(v: Value, i: nat, prefix: string, x: string)
    requires Walkable(v) && WellFormedEntryKeys(v) && i < |Entries(v)|
    requires x in KeysOf(v, prefix) && HasPrefix(x, JoinKey(prefix, Entries(v)[i].0) + ".")
    ensures Entries(v)[i].1.Obj? && |Entries(v)[i].1.fields| > 0
  {
    var value := Entries(v)[i].1;
    var fullKey := JoinKey(prefix, Entries(v)[i].0);
    assert fullKey + "." == fullKey + ['.'];
    ContinuationFromOwnEntry(v, i, prefix, x, '.');
    ContributionShape(v, i, prefix, x);
    NextCharacter(x, fullKey, '[');
    NextCharacter(x, fullKey, '.');
    assert value.Obj?;
    assert x in KeysOf(value, fullKey);
    KeysOfMembership(value, fullKey, x);
  }

  /** A string that starts with `p + [c]` has `c` right after `p`. */
  lemma NextCharacter(x: string, p: string, c: char)
    ensures HasPrefix(x, p + [c]) ==> |x| > |p| && x[|p|] == c
  {
    if HasPrefix(x, p + [c]) {
      assert x[|p|] == x[..|p| + 1][|p|] == (p + [c])[|p|];
    }
  }

  /**
    The array policy, stated over everything collected from `v`: an entry's path gets
    the `[array]` marker, and keys continuing it with `[`, exactly when its value is a
    non-empty array. An empty array therefore gets neither a marker nor children.
   */
  lemma ArrayPolicy(v: Value, i: nat, prefix: string)
    requires Walkable(v) && WellFormedEntryKeys(v) && i < |Entries(v)|
    ensures var fullKey := JoinKey(prefix, Entries(v)[i].0);
      var value := Entries(v)[i].1;
      && (fullKey + "[array]" in KeysOf(v, prefix) <==> value.Arr? && |value.elems| > 0)
      && ((exists x :: x in KeysOf(v, prefix) && HasPrefix(x, fullKey + "[")) <==>
            value.Arr? && |value.elems| > 0)
  {
    var fullKey := JoinKey(prefix, Entries(v)[i].0);
    EntryCollected(v, i, prefix);
    assert HasPrefix(fullKey + "[array]", fullKey + "[");
    forall x | x in KeysOf(v, prefix) && HasPrefix(x, fullKey + "[")
      ensures Entries(v)[i].1.Arr? && |Entries(v)[i].1.elems| > 0
    {
      BracketContinuation(v, i, prefix, x);
    }
  }

  /**
    The object policy: keys continuing an entry's path with `.` exist exactly when its
    value is an object with entries (nested objects flatten under the path, unmarked).
   */
  lemma ObjectPolicy(v: Value, i: nat, prefix: string)
    requires Walkable(v) && WellFormedEntryKeys(v) && i < |Entries(v)|
    ensures var fullKey := JoinKey(prefix, Entries(v)[i].0);
      var value := Entries(v)[i].1;
      (exists x :: x in KeysOf(v, prefix) && HasPrefix(x, fullKey + ".")) <==>
        value.Obj? && |value.fields| > 0
  {
    var value := Entries(v)[i].1;
    var fullKey := JoinKey(prefix, Entries(v)[i].0);
    forall x | x in KeysOf(v, prefix) && HasPrefix(x, fullKey + ".")
      ensures value.Obj? && |value.fields| > 0
    {
      DotContinuation(v, i, prefix, x);
    }
    if value.Obj? && |value.fields| > 0 {
      EntryCollected(v, i, prefix);
      EntryCollected(value, 0, fullKey);
      var child := JoinKey(fullKey, value.fields[0].0);
      assert HasPrefix(child, fullKey + ".");
      assert child in KeysOf(v, prefix);
    }
  }

  /** A key is in the unified set exactly when some input contributes it. */
  lemma {:induction false} AllKeysMembership(inputs: seq<Value>, x: string)
    requires forall i :: 0 <= i < |inputs| ==> Walkable(inputs[i])
    ensures x in AllKeys(inputs) <==> exists i :: 0 <= i < |inputs| && x in KeysOf(inputs[i], "")
    decreases |inputs|
  {
    if inputs != [] {
      var init := inputs[..|inputs| - 1];
      AllKeysMembership(init, x);
      assert forall i :: 0 <= i < |init| ==> init[i] == inputs[i];
    }
  }
}
