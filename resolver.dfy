/**
  Path resolution: how `compareJsonInputs` looks a key up in one input. The mode is
  chosen by string matching on the key:
  - a key containing `[array]` has its first `[array]` removed, is split on `.`, and
    is walked by own-property lookups;
  - otherwise a key containing `[0]` is cut into the runs between `.`, `[` and `]`
    and walked by own-property lookups that also accept any numeric text on arrays;
  - otherwise the key is split on `.` and walked by own-property lookups.
  A step that fails ends the walk with `exists = false` and `value = null`.
 */
module KeyResolver {
  import opened Strings
  import opened JsonValue
  import opened JsNumber

  /** The two step rules: `part in value`, or additionally a numeric part on an array. */
  datatype Mode = Plain | Indexed

  /** The outcome of a lookup: the source's `exists` flag and the `value` it stores. */
  datatype Resolution = Resolution(present: bool, value: Value)

  /** What a failed step leaves behind. */
  const Missing := Resolution(false, Null)

  /**
    The guard of one step, `value && typeof value === "object" && (part in value || ...)`,
    where `...` (only in `[0]` mode) is `Array.isArray(value) && !isNaN(Number(part))`.
   */
  predicate CanStep(mode: Mode, v: Value, part: string) {
    && IsObjectLike(v)
    && (HasOwn(v, part) || (mode == Indexed && v.Arr? && IsNumeric(part)))
  }

  /** The result of walking `parts` from `root`, one step per part, stopping at the first failure. */
  function Walk(mode: Mode, root: Value, parts: seq<string>): (r: Resolution)
    ensures !r.present ==> r == Missing
    ensures parts == [] ==> r == Resolution(true, root)
    decreases |parts|
  {
    if parts == [] then Resolution(true, root)
    else
      var before := Walk(mode, root, parts[..|parts| - 1]);
      var part := parts[|parts| - 1];
      if before.present && CanStep(mode, before.value, part) then Resolution(true, Get(before.value, part))
      else Missing
  }

  /** Which mode a key is resolved in, and the parts it is cut into. */
  function PartsOf(key: string): (Mode, seq<string>) {
    if Contains(key, "[array]") then (Plain, Split(RemoveFirst(key, "[array]"), '.'))
    else if Contains(key, "[0]") then (Indexed, Tokens(key))
    else (Plain, Split(key, '.'))
  }

  /** The `exists` flag and value recorded for `key` against `input`. */
  function Resolve(key: string, input: Value): (r: Resolution)
    ensures !r.present ==> r.value == Null
  {
    var (mode, parts) := PartsOf(key);
    Walk(mode, input, parts)
  }

  // ---------------------------------------------------------------------------
  // The lookup loops as the source runs them
  // ---------------------------------------------------------------------------

  /** Once a walk has failed, further parts cannot revive it. */
  lemma {:induction false} MissingAbsorbs(mode: Mode, root: Value, parts: seq<string>, n: nat)
    requires n <= |parts| && !Walk(mode, root, parts[..n]).present
    ensures Walk(mode, root, parts) == Missing
    decreases |parts| - n
  {
    if n < |parts| {
      assert parts[..n + 1][..n] == parts[..n];
      MissingAbsorbs(mode, root, parts, n + 1);
    } else {
      assert parts[..n] == parts;
    }
  }

  /**
    One `for (const part of parts)` loop: each step either moves `value` to
    `value[part]` or sets `exists = false`, `value = null` and breaks.
   */
  method WalkParts(mode: Mode, root: Value, parts: seq<string>) returns (present: bool, value: Value)
    ensures Resolution(present, value) == Walk(mode, root, parts)
  {
    value := root;
    present := true;
    var i := 0;
    while i < |parts|
      invariant 0 <= i <= |parts|
      invariant present && Walk(mode, root, parts[..i]) == Resolution(true, value)
    {
      var part := parts[i];
      assert parts[..i + 1][..i] == parts[..i];
      if CanStep(mode, value, part) {
        value := Get(value, part);
      } else {
        present := false;
        value := Null;
        MissingAbsorbs(mode, root, parts, i + 1);
        break;
      }
      i := i + 1;
    }
    if present {
      assert parts[..i] == parts;
    }
  }

  /** The three-way branch on the key that picks the loop to run. */
  method ResolveKey(key: string, input: Value) returns (present: bool, value: Value)
    ensures Resolution(present, value) == Resolve(key, input)
    ensures !present ==> value == Null
  {
    if Contains(key, "[array]") {
      var basePath := RemoveFirst(key, "[array]");
      present, value := WalkParts(Plain, input, Split(basePath, '.'));
    } else if Contains(key, "[0]") {
      present, value := WalkParts(Indexed, input, Tokens(key));
    } else {
      present, value := WalkParts(Plain, input, Split(key, '.'));
    }
  }

  // ---------------------------------------------------------------------------
  // Properties of the step rules
  // ---------------------------------------------------------------------------

  /** Walking `ps + qs` is walking `qs` from wherever `ps` led. */
  lemma {:induction false} WalkAppend(mode: Mode, root: Value, ps: seq<string>, qs: seq<string>)
    ensures var r := Walk(mode, root, ps);
      Walk(mode, root, ps + qs) == if r.present then Walk(mode, r.value, qs) else Missing
    decreases |qs|
  {
    if qs == [] {
      assert ps + qs == ps;
    } else {
      var init := qs[..|qs| - 1];
      WalkAppend(mode, root, ps, init);
      assert (ps + qs)[..|ps + qs| - 1] == ps + init;
      assert (ps + qs)[|ps + qs| - 1] == qs[|qs| - 1];
    }
  }

  /**
    `[0]` mode accepts every step plain mode accepts, with the same result: whenever
    the plain walk succeeds, the indexed walk over the same parts gives the same value.
   */
  lemma {:induction false} IndexedExtendsPlain(root: Value, parts: seq<string>)
    requires Walk(Plain, root, parts).present
    ensures Walk(Indexed, root, parts) == Walk(Plain, root, parts)
    decreases |parts|
  {
    if parts != [] {
      IndexedExtendsPlain(root, parts[..|parts| - 1]);
    }
  }

  /**
    In `[0]` mode an array accepts any numeric part, even one that is not an index
    it has: the step succeeds and yields `undefined`. A part that is neither own nor
    numeric fails.
   */
  lemma IndexedArrayStep(elems: seq<Value>, part: string)
    ensures var r := Walk(Indexed, Arr(elems), [part]);
      && (IsNumeric(part) && !HasOwn(Arr(elems), part) ==> r == Resolution(true, Undefined))
      && (!IsNumeric(part) && !HasOwn(Arr(elems), part) ==> r == Missing)
      && (HasOwn(Arr(elems), part) ==> r == Resolution(true, Get(Arr(elems), part)))
  {
    assert [part][..0] == [];
  }

  /**
    An element of an empty array still "exists" in `[0]` mode: the step accepts the
    numeric part "0" on any array and stores `undefined`.
   */
  lemma EmptyArrayElementExists(k: string)
    requires k != "" && NoPathDelimiter(k)
    ensures Resolve(k + "[0]", Obj([(k, Arr([]))])) == Resolution(true, Undefined)
  {
    var key := k + "[0]";
    assert PartsOf(key) == (Indexed, [k, "0"]) by {
      ContainsIffOccurs(key, "[array]");
      forall i: nat
        ensures !OccursAt(key, "[array]", i)
      {
        if i < |k| && i + 7 <= |key| {
          assert key[i..i + 7][0] == k[i] != '[';
        }
      }
      assert !Contains(key, "[array]");
      assert key[|k|..|k| + 3] == "[0]";
      assert OccursAt(key, "[0]", |k|);
      ContainsIffOccurs(key, "[0]");
      assert Contains(key, "[0]");
      TokensOfKey(k);
      TokensAppendElement(k);
      assert Tokens(key) == [k, "0"];
    }
    var root := Obj([(k, Arr([]))]);
    assert Walk(Indexed, root, [k]) == Resolution(true, Arr([])) by {
      assert [k][..0] == [];
    }
    assert CanStep(Indexed, Arr([]), "0") by {
      assert IsCanonicalIndex("0");
      CanonicalIndexIsNumeric("0");
    }
    assert [k, "0"][..1] == [k];
  }

  /**
    `[array]` mode never checks that the value it reaches is an array: the marker
    key of a path without `[` resolves to whatever the plain walk over that path
    reaches, whatever its kind.
   */
  lemma ArrayModeIgnoresType(root: Value, path: string, v: Value)
    requires '[' !in path
    requires Walk(Plain, root, Split(path, '.')) == Resolution(true, v)
    ensures Resolve(path + "[array]", root) == Resolution(true, v)
  {
    NoEarlyOccurrence(path, "[array]");
    RemoveFirstSuffix(path, "[array]");
    assert PartsOf(path + "[array]") == (Plain, Split(path, '.'));
  }
}
