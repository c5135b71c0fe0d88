/**
  Soundness of the key table against the inputs it was collected from: every key
  collected from an input resolves against that same input, except an `[array]`
  marker whose path runs through an array element (`a[0].b[array]`). Removing
  `[array]` from such a key leaves a segment like `a[0]`, which plain lookups never
  find, so that row always shows the input as missing.

  The theorem assumes inputs whose object keys are non-empty, distinct and free of
  `.`, `[` and `]` (otherwise joining keys with `.` cannot be undone by splitting),
  and whose walked array elements are objects, arrays, numbers or booleans (a string
  first element is walked character by character, and null throws).
 */
module Soundness {
  import opened Strings
  import opened JsonValue
  import opened KeyCollector
  import opened KeyResolver

  // ---------------------------------------------------------------------------
  // Which inputs the theorem covers
  // ---------------------------------------------------------------------------

  /** Every object anywhere inside `v` has non-empty, distinct keys free of `.`, `[` and `]`. */
  predicate PathSafeKeys(v: Value)
    decreases v
  {
    match v
    case Obj(fields) =>
      && DistinctKeys(fields)
      && forall i :: 0 <= i < |fields| ==>
           fields[i].0 != "" && NoPathDelimiter(fields[i].0) && PathSafeKeys(fields[i].1)
    case Arr(elems) => forall i :: 0 <= i < |elems| ==> PathSafeKeys(elems[i])
    case _ => true
  }

  /**
    `v` can be lookup target and collector input alike: it is an object, an array, a
    number or a boolean, and so is everything the collector walks below it.
   */
  predicate TameShape(v: Value)
    decreases v, 1
  {
    match v
    case Obj(fields) => forall i :: 0 <= i < |fields| ==> TameChild(fields[i].1)
    case Arr(elems) => forall i :: 0 <= i < |elems| ==> TameChild(elems[i])
    case Bool(_) => true
    case Num(_) => true
    case _ => false
  }

  /** What the collector walks below an entry's value is tame. */
  predicate TameChild(c: Value)
    decreases c, 2
  {
    && (c.Obj? ==> TameShape(c))
    && (c.Arr? && |c.elems| > 0 ==> TameShape(c.elems[0]))
  }

  predicate Tame(v: Value) {
    PathSafeKeys(v) && TameShape(v)
  }

  /** The collector never reaches null or undefined below a tame value. */
  lemma {:induction false} TameWalkable(v: Value)
    requires TameShape(v)
    ensures Walkable(v)
    decreases v
  {
    var es := Entries(v);
    forall i | 0 <= i < |es|
      ensures es[i].1.Obj? ==> Walkable(es[i].1)
      ensures es[i].1.Arr? && |es[i].1.elems| > 0 ==> Walkable(es[i].1.elems[0])
    {
      var c := es[i].1;
      assert TameChild(c);
      if c.Obj? {
        TameWalkable(c);
      } else if c.Arr? && |c.elems| > 0 {
        TameWalkable(c.elems[0]);
      }
    }
  }

  /** The entries of a tame value: well-formed keys naming own properties, and tame values. */
  lemma TameEntry(v: Value, i: nat)
    requires Tame(v) && i < |Entries(v)|
    ensures IsObjectLike(v)
    ensures Entries(v)[i].0 != "" && NoPathDelimiter(Entries(v)[i].0)
    ensures HasOwn(v, Entries(v)[i].0) && Get(v, Entries(v)[i].0) == Entries(v)[i].1
    ensures TameChild(Entries(v)[i].1) && PathSafeKeys(Entries(v)[i].1)
  {
    EntryIsOwnProperty(v, i);
    var k := Entries(v)[i].0;
    if v.Arr? {
      assert k == NatToString(i) && AllDigits(k);
      assert NoPathDelimiter(k) by {
        forall j | 0 <= j < |k| ensures !IsPathDelimiter(k[j]) {
          assert IsDigit(k[j]);
        }
      }
    }
  }

  /** Property lookups never leave objects whose keys are path-safe. */
  lemma GetPathSafe(v: Value, k: string)
    requires PathSafeKeys(v)
    ensures PathSafeKeys(Get(v, k))
  {
    if v.Obj? && FindField(v.fields, k).Some? {
      var j :| 0 <= j < |v.fields| && v.fields[j] == (k, FindField(v.fields, k).value);
    }
  }

  lemma {:induction false} WalkPathSafe(mode: Mode, root: Value, parts: seq<string>)
    requires PathSafeKeys(root)
    ensures PathSafeKeys(Walk(mode, root, parts).value)
    decreases |parts|
  {
    if parts != [] {
      var init := parts[..|parts| - 1];
      WalkPathSafe(mode, root, init);
      GetPathSafe(Walk(mode, root, init).value, parts[|parts| - 1]);
    }
  }

  /** A plain walk over a part containing `[` fails: no own property has such a name. */
  lemma {:induction false} PlainWalkMissesBracket(root: Value, parts: seq<string>, i: nat)
    requires PathSafeKeys(root)
    requires i < |parts| && '[' in parts[i]
    ensures !Walk(Plain, root, parts).present
    decreases |parts|
  {
    var init := parts[..|parts| - 1];
    var part := parts[|parts| - 1];
    if i < |parts| - 1 {
      PlainWalkMissesBracket(root, init, i);
    } else {
      var before := Walk(Plain, root, init);
      WalkPathSafe(Plain, root, init);
      var w := before.value;
      var b :| 0 <= b < |part| && part[b] == '[';
      if w.Obj? {
        forall j | 0 <= j < |w.fields|
          ensures w.fields[j].0 != part
        {
          assert NoPathDelimiter(w.fields[j].0);
        }
      } else if w.Arr? {
        assert !IsDigit(part[b]);
        assert !IsCanonicalIndex(part) && part != "length";
      }
    }
  }

  // ---------------------------------------------------------------------------
  // Paths the collector builds
  // ---------------------------------------------------------------------------

  /** Every `[` of a collected path opens a `[0]`. */
  predicate BracketsOK(s: string) {
    forall j :: 0 <= j < |s| && s[j] == '[' ==> j + 2 < |s| && s[j + 1] == '0' && s[j + 2] == ']'
  }

  /** Such a path never contains the `[array]` marker. */
  lemma NoArrayMarker(s: string)
    requires BracketsOK(s)
    ensures !Contains(s, "[array]")
  {
    ContainsIffOccurs(s, "[array]");
    forall i: nat
      ensures !OccursAt(s, "[array]", i)
    {
      if i + 7 <= |s| {
        if s[i] == '[' {
          assert s[i..i + 7][1] == s[i + 1] == '0';
        } else {
          assert s[i..i + 7][0] == s[i];
        }
      }
    }
  }

  /** Such a path contains `[0]` exactly when it contains `[`. */
  lemma ElementMarkerIffBracket(s: string)
    requires BracketsOK(s)
    ensures Contains(s, "[0]") <==> '[' in s
  {
    if '[' in s {
      var j :| 0 <= j < |s| && s[j] == '[';
      assert s[j..j + 3] == "[0]";
      assert OccursAt(s, "[0]", j);
      ContainsIffOccurs(s, "[0]");
    } else {
      AbsentCharacter(s, "[0]", '[');
    }
  }

  /**
    The lookup invariant of the collector's walk: `v` is what both `[0]`-mode tokens
    and, for a path with no `[`, plain `.`-splitting of the path `p` reach from `root`.
   */
  predicate Reach(root: Value, p: string, v: Value) {
    && BracketsOK(p)
    && (p == "" ==> v == root)
    && (p != "" && '[' !in p ==> Walk(Plain, root, Split(p, '.')) == Resolution(true, v))
    && Walk(Indexed, root, Tokens(p)) == Resolution(true, v)
  }

  /** One successful own-property step at the end of a walk. */
  lemma StepOwn(mode: Mode, root: Value, ps: seq<string>, v: Value, k: string)
    requires Walk(mode, root, ps) == Resolution(true, v)
    requires IsObjectLike(v) && HasOwn(v, k)
    ensures Walk(mode, root, ps + [k]) == Resolution(true, Get(v, k))
  {
    assert (ps + [k])[..|ps|] == ps;
  }

  /** Joining a delimiter-free key onto a collected path keeps every `[` opening a `[0]`. */
  lemma JoinKeyBracketsOK(p: string, k: string)
    requires BracketsOK(p) && NoPathDelimiter(k)
    ensures BracketsOK(JoinKey(p, k))
  {
    var F := JoinKey(p, k);
    forall j | 0 <= j < |F|
      ensures F[j] == '[' ==> j + 2 < |F| && F[j + 1] == '0' && F[j + 2] == ']'
    {
      if p == "" {
        assert F[j] == k[j] && !IsPathDelimiter(k[j]);
      } else if j > |p| {
        assert F[j] == k[j - |p| - 1] && !IsPathDelimiter(k[j - |p| - 1]);
      } else if j < |p| && p[j] == '[' {
        assert F[j + 1] == p[j + 1] && F[j + 2] == p[j + 2];
      }
    }
  }

  /** Descending into an entry of the input itself keeps the lookup invariant. */
  lemma ReachRootEntry(root: Value, i: nat)
    requires Tame(root) && i < |Entries(root)|
    ensures Reach(root, Entries(root)[i].0, Entries(root)[i].1)
  {
    var (k, c) := Entries(root)[i];
    TameEntry(root, i);
    SplitNoSeparator(k, '.');
    TokensOfKey(k);
    StepOwn(Plain, root, [], root, k);
    StepOwn(Indexed, root, [], root, k);
    JoinKeyBracketsOK("", k);
  }

  /** Descending into an entry of a value reached under a non-empty path keeps the invariant. */
  lemma ReachNestedEntry(root: Value, v: Value, p: string, i: nat)
    requires Reach(root, p, v) && p != "" && Tame(v) && i < |Entries(v)|
    ensures Reach(root, p + "." + Entries(v)[i].0, Entries(v)[i].1)
  {
    var (k, c) := Entries(v)[i];
    TameEntry(v, i);
    var F := p + "." + k;
    TokensAppendKey(p, k);
    StepOwn(Indexed, root, Tokens(p), v, k);
    if '[' !in F {
      assert '[' !in p by {
        assert forall j :: 0 <= j < |p| ==> p[j] == F[j];
      }
      assert F == p + ['.'] + k;
      SplitAppend(p, '.', k);
      StepOwn(Plain, root, Split(p, '.'), v, k);
    }
    JoinKeyBracketsOK(p, k);
  }

  /** Descending into an entry keeps the lookup invariant. */
  lemma ReachEntry(root: Value, v: Value, p: string, i: nat)
    requires Reach(root, p, v) && Tame(v) && i < |Entries(v)|
    ensures Reach(root, JoinKey(p, Entries(v)[i].0), Entries(v)[i].1)
  {
    if p == "" {
      ReachRootEntry(root, i);
    } else {
      ReachNestedEntry(root, v, p, i);
    }
  }

  /** Descending into a non-empty array's first element under `path[0]` keeps the invariant. */
  lemma ReachElement(root: Value, F: string, c: Value)
    requires Reach(root, F, c) && F != "" && c.Arr? && |c.elems| > 0
    ensures Reach(root, F + "[0]", c.elems[0])
  {
    var G := F + "[0]";
    assert G[|F|] == '[';
    TokensAppendElement(F);
    assert IsCanonicalIndex("0") && DigitsValue("0") == 0;
    StepOwn(Indexed, root, Tokens(F), c, "0");
    assert BracketsOK(G) by {
      forall j | 0 <= j < |G| && G[j] == '['
        ensures j + 2 < |G| && G[j + 1] == '0' && G[j + 2] == ']'
      {
        if j < |F| {
          assert F[j] == '[';
        }
      }
    }
  }

  // ---------------------------------------------------------------------------
  // The theorem
  // ---------------------------------------------------------------------------

  /**
    The one kind of collected key that never resolves: an `[array]` key which, with
    its first `[array]` removed, still contains `[0]`.
   */
  predicate MarkerUnderElement(x: string) {
    Contains(x, "[array]") && Contains(RemoveFirst(x, "[array]"), "[0]")
  }

  /** An entry's own path resolves to the entry's value. */
  lemma FullKeySound(root: Value, F: string, c: Value)
    requires Reach(root, F, c) && F != ""
    ensures Resolve(F, root) == Resolution(true, c)
    ensures !MarkerUnderElement(F)
  {
    NoArrayMarker(F);
    ElementMarkerIffBracket(F);
  }

  /**
    A non-empty array's marker resolves, through the array's own path, exactly when
    that path has no `[0]` in it.
   */
  lemma MarkerSound(root: Value, F: string, c: Value)
    requires PathSafeKeys(root) && Reach(root, F, c) && F != ""
    ensures Resolve(F + "[array]", root).present <==> !MarkerUnderElement(F + "[array]")
  {
    NoEarlyOccurrence(F, "[array]");
    RemoveFirstSuffix(F, "[array]");
    ElementMarkerIffBracket(F);
    assert PartsOf(F + "[array]") == (Plain, Split(F, '.'));
    if '[' in F {
      SplitKeepsCharacters(F, '.', '[');
      var i :| 0 <= i < |Split(F, '.')| && '[' in Split(F, '.')[i];
      PlainWalkMissesBracket(root, Split(F, '.'), i);
    }
  }

  lemma {:induction false} KeysOfSound(root: Value, v: Value, p: string, x: string)
    requires PathSafeKeys(root) && Tame(v) && Walkable(v) && Reach(root, p, v)
    requires x in KeysOf(v, p)
    ensures Resolve(x, root).present <==> !MarkerUnderElement(x)
    decreases v, 1
  {
    KeysOfMembership(v, p, x);
    var i :| 0 <= i < |Entries(v)| && x in EntryContribution(v, i, p);
    EntrySound(root, v, i, p, x);
  }

  lemma {:induction false} EntrySound(root: Value, v: Value, i: nat, p: string, x: string)
    requires PathSafeKeys(root) && Tame(v) && Walkable(v) && Reach(root, p, v)
    requires i < |Entries(v)| && x in EntryContribution(v, i, p)
    ensures Resolve(x, root).present <==> !MarkerUnderElement(x)
    decreases v, 0
  {
    var (k, c) := Entries(v)[i];
    TameEntry(v, i);
    var F := JoinKey(p, k);
    ReachEntry(root, v, p, i);
    if x == F {
      FullKeySound(root, F, c);
    } else if c.Arr? && |c.elems| > 0 && x == F + "[array]" {
      MarkerSound(root, F, c);
    } else if c.Arr? && |c.elems| > 0 {
      ReachElement(root, F, c);
      TameWalkable(c.elems[0]);
      KeysOfSound(root, c.elems[0], F + "[0]", x);
    } else {
      TameWalkable(c);
      KeysOfSound(root, c, F, x);
    }
  }

  /**
    Every key collected from a tame input resolves against that input, with
    `exists = true`, unless it is an `[array]` marker under an array element, which
    never resolves.
   */
  lemma CollectedKeysResolve(root: Value, x: string)
    requires Tame(root)
    ensures Walkable(root)
    ensures x in KeysOf(root, "") ==> (Resolve(x, root).present <==> !MarkerUnderElement(x))
  {
    TameWalkable(root);
    if x in KeysOf(root, "") {
      KeysOfSound(root, root, "", x);
    }
  }

  /**
    The exception holds for any key, collected or not: once `[array]` is removed, a
    remaining `[0]` puts a `[` into some `.`-segment, and a plain lookup of that
    segment fails on every input with path-safe keys.
   */
  lemma MarkerUnderElementNeverResolves(root: Value, x: string)
    requires PathSafeKeys(root) && MarkerUnderElement(x)
    ensures Resolve(x, root) == Missing
  {
    var base := RemoveFirst(x, "[array]");
    var parts := Split(base, '.');
    ContainsIffOccurs(base, "[0]");
    var j: nat :| OccursAt(base, "[0]", j);
    assert base[j..j + 3][0] == base[j] == '[';
    SplitKeepsCharacters(base, '.', '[');
    var i :| 0 <= i < |parts| && '[' in parts[i];
    PlainWalkMissesBracket(root, parts, i);
  }

  /**
    Outside the theorem's assumptions: an array whose first element is a string gets
    a child key per character of that string (`tags[0].0` for `["x", "y"]`).
   */
  lemma StringElementKeysCollected(k: string, s: string, rest: seq<Value>)
    requires k != "" && NoPathDelimiter(k) && s != ""
    ensures Walkable(Obj([(k, Arr([Str(s)] + rest))]))
    ensures k + "[0]" + "." + "0" in KeysOf(Obj([(k, Arr([Str(s)] + rest))]), "")
  {
    var root := Obj([(k, Arr([Str(s)] + rest))]);
    assert Walkable(Str(s));
    assert Walkable(root);
    EntryCollected(root, 0, "");
    assert NatToString(0) == "0";
    EntryCollected(Str(s), 0, k + "[0]");
  }

  /**
    Such a character key never resolves: the `[0]` walk reaches the string, and a
    string is not an object.
   */
  lemma StringElementKeysNeverResolve(k: string, s: string, rest: seq<Value>)
    requires k != "" && NoPathDelimiter(k) && s != ""
    ensures !Resolve(k + "[0]" + "." + "0", Obj([(k, Arr([Str(s)] + rest))])).present
  {
    ElementCharacterKeyParts(k);
    CharacterStepFails(k, s, rest);
  }

  /** The third step, the character index on the string, is refused. */
  lemma CharacterStepFails(k: string, s: string, rest: seq<Value>)
    ensures Walk(Indexed, Obj([(k, Arr([Str(s)] + rest))]), [k, "0", "0"]) == Missing
  {
    FirstElementReached(k, s, rest);
    assert [k, "0", "0"][..2] == [k, "0"];
  }

  /** The character key of the first element is cut into the entry key, the index and the character index. */
  lemma ElementCharacterKeyParts(k: string)
    requires k != "" && NoPathDelimiter(k)
    ensures PartsOf(k + "[0]" + "." + "0") == (Indexed, [k, "0", "0"])
  {
    var key := k + "[0]" + "." + "0";
    assert BracketsOK(key) by {
      forall j | 0 <= j < |key|
        ensures key[j] == '[' ==> j + 2 < |key| && key[j + 1] == '0' && key[j + 2] == ']'
      {
        if j < |k| {
          assert key[j] == k[j] && !IsPathDelimiter(k[j]);
        }
      }
    }
    NoArrayMarker(key);
    ElementMarkerIffBracket(key);
    assert key[|k|] == '[' && '[' in key;
    assert Contains(key, "[0]") && !Contains(key, "[array]");
    TokensOfKey(k);
    TokensAppendElement(k);
    TokensAppendKey(k + "[0]", "0");
    assert Tokens(key) == [k] + ["0"] + ["0"] == [k, "0", "0"];
  }

  /** The `[0]` walk over the entry key and index "0" reaches the first element. */
  lemma FirstElementReached(k: string, s: string, rest: seq<Value>)
    ensures Walk(Indexed, Obj([(k, Arr([Str(s)] + rest))]), [k, "0"]) == Resolution(true, Str(s))
  {
    var arr := Arr([Str(s)] + rest);
    var root := Obj([(k, arr)]);
    assert IsCanonicalIndex("0") && DigitsValue("0") == 0;
    StepOwn(Indexed, root, [], root, k);
    StepOwn(Indexed, root, [k], arr, "0");
    assert [k] + ["0"] == [k, "0"];
  }
}
