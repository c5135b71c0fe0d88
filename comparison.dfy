/**
  `compareJsonInputs`: collect the unified key set of all inputs, sort it, and for
  every key record, per input, whether the key resolves, the kind of the value it
  resolves to, and that value, stored under the input's platform name.
 */
module Comparison {
  import opened Strings
  import opened JsonValue
  import opened TypeClassifier
  import opened KeyCollector
  import opened KeyOrder
  import opened KeyResolver
  import opened Soundness

  /** One platform's record for one key: `{ exists, type, value }`. */
  datatype Observation = Observation(present: bool, kind: ValueType, value: Value)

  /** One row of the comparison: the key and the record of every platform. */
  datatype ComparisonResult = ComparisonResult(key: string, platforms: map<string, Observation>)

  /** The fixed platform list. */
  const PlatformNames: seq<string> := ["Magento", "WooCommerce", "Shopify", "Lightspeed"]

  /**
    The property name `platformNames[index]` stores under: the platform's name, or
    "undefined" (the string an undefined property key becomes) past the end of the list.
   */
  function Label(index: nat): (l: string)
    ensures index < |PlatformNames| ==> l == PlatformNames[index]
    ensures index >= |PlatformNames| ==> l == "undefined"
  {
    if index < |PlatformNames| then PlatformNames[index] else "undefined"
  }

  /** The record of one key against one input; its kind is always the kind of its value. */
  function Observe(key: string, input: Value): (o: Observation)
    ensures o.present == Resolve(key, input).present && o.value == Resolve(key, input).value
    ensures o.kind == GetValueType(o.value)
    ensures !o.present ==> o.kind == TNull && o.value == Null
  {
    var r := Resolve(key, input);
    Observation(r.present, GetValueType(r.value), r.value)
  }

  /** The records of one key against each input, in input order. */
  function Observations(key: string, inputs: seq<Value>): (obs: seq<Observation>)
    ensures |obs| == |inputs|
    ensures forall i :: 0 <= i < |inputs| ==> obs[i] == Observe(key, inputs[i])
  {
    seq(|inputs|, i requires 0 <= i < |inputs| => Observe(key, inputs[i]))
  }

  /** `comparison.platforms` after the first `n` records have been stored under their labels. */
  function PlatformMap(obs: seq<Observation>, n: nat): (m: map<string, Observation>)
    requires n <= |obs|
    ensures m.Keys == LabelsUpTo(n)
  {
    if n == 0 then map[]
    else PlatformMap(obs, n - 1)[Label(n - 1) := obs[n - 1]]
  }

  /** The labels of the first `n` inputs. */
  function LabelsUpTo(n: nat): set<string> {
    if n == 0 then {} else LabelsUpTo(n - 1) + {Label(n - 1)}
  }

  /** The callback for input `index`: its lookup and the `{ exists, type, value }` record built from it. */
  method ObserveKey(key: string, inputs: seq<Value>, index: nat) returns (o: Observation)
    requires index < |inputs|
    ensures o == Observations(key, inputs)[index]
  {
    var present, value := ResolveKey(key, inputs[index]);
    o := Observation(present, GetValueType(value), value);
  }

  /** The inner `inputs.forEach((input, index) => ...)` loop that fills one row's platforms. */
  method RecordPlatforms(key: string, inputs: seq<Value>) returns (platforms: map<string, Observation>)
    ensures platforms == PlatformMap(Observations(key, inputs), |inputs|)
  {
    ghost var obs := Observations(key, inputs);
    platforms := map[];
    var index := 0;
    while index < |inputs|
      invariant 0 <= index <= |inputs|
      invariant platforms == PlatformMap(obs, index)
    {
      var o := ObserveKey(key, inputs, index);
      StoreNext(obs, index);
      platforms := platforms[Label(index) := o];
      index := index + 1;
    }
  }

  /** Storing the next record under its label extends the platforms map by one input. */
  lemma StoreNext(obs: seq<Observation>, n: nat)
    requires n < |obs|
    ensures PlatformMap(obs, n + 1) == PlatformMap(obs, n)[Label(n) := obs[n]]
  {
  }

  /**
    The comparison rows: one per collected key, in comparator order, each holding
    every input's record under its platform label.
   */
  method CompareJsonInputs(inputs: seq<Value>) returns (results: seq<ComparisonResult>)
    requires forall i :: 0 <= i < |inputs| ==> Walkable(inputs[i])
    ensures |results| == |AllKeys(inputs)|
    ensures forall k :: k in AllKeys(inputs) <==> exists i :: 0 <= i < |results| && results[i].key == k
    ensures forall i, j :: 0 <= i < j < |results| ==> KeyBefore(results[i].key, results[j].key)
    ensures forall i :: 0 <= i < |results| ==>
      results[i].platforms == PlatformMap(Observations(results[i].key, inputs), |inputs|)
  {
    var allKeys := CollectKeys(inputs);
    var sortedKeys := SortKeys(allKeys);
    results := BuildRows(sortedKeys, inputs);
    RowsFollowListing(results, sortedKeys, allKeys);
  }

  /** The row of one key: the key and every input's record under its label. */
  function Row(key: string, inputs: seq<Value>): ComparisonResult {
    ComparisonResult(key, PlatformMap(Observations(key, inputs), |inputs|))
  }

  /** The rows of the given keys, in the order given. */
  function RowsOf(keys: seq<string>, inputs: seq<Value>): (rows: seq<ComparisonResult>)
    ensures |rows| == |keys|
    ensures forall i :: 0 <= i < |keys| ==> rows[i] == Row(keys[i], inputs)
  {
    if keys == [] then [] else RowsOf(keys[..|keys| - 1], inputs) + [Row(keys[|keys| - 1], inputs)]
  }

  /** The `sortedKeys.forEach` loop: one row per key, in the order given, pushed onto `results`. */
  method BuildRows(sortedKeys: seq<string>, inputs: seq<Value>) returns (results: seq<ComparisonResult>)
    ensures results == RowsOf(sortedKeys, inputs)
  {
    results := [];
    var r := 0;
    while r < |sortedKeys|
      invariant 0 <= r <= |sortedKeys|
      invariant results == RowsOf(sortedKeys[..r], inputs)
    {
      var key := sortedKeys[r];
      var platforms := RecordPlatforms(key, inputs);
      assert sortedKeys[..r + 1][..r] == sortedKeys[..r];
      results := results + [ComparisonResult(key, platforms)];
      r := r + 1;
    }
    assert sortedKeys[..r] == sortedKeys;
  }

  /** Rows that copy a sorted listing of a key set, one per key, list that set in order. */
  lemma RowsFollowListing(results: seq<ComparisonResult>, sortedKeys: seq<string>, keys: set<string>)
    requires StrictlySorted(sortedKeys) && |sortedKeys| == |keys|
    requires forall k :: k in sortedKeys <==> k in keys
    requires |results| == |sortedKeys|
    requires forall i :: 0 <= i < |results| ==> results[i].key == sortedKeys[i]
    ensures |results| == |keys|
    ensures forall k :: k in keys <==> exists i :: 0 <= i < |results| && results[i].key == k
    ensures forall i, j :: 0 <= i < j < |results| ==> KeyBefore(results[i].key, results[j].key)
  {
    forall k
      ensures k in keys <==> exists i :: 0 <= i < |results| && results[i].key == k
    {
      if k in keys {
        var i :| 0 <= i < |sortedKeys| && sortedKeys[i] == k;
        assert results[i].key == k;
      }
    }
  }

  // ---------------------------------------------------------------------------
  // Where each input's record ends up
  // ---------------------------------------------------------------------------

  /** A record survives when no later record is stored under the same label. */
  lemma {:induction false} PlatformMapAt(obs: seq<Observation>, n: nat, i: nat)
    requires i < n <= |obs|
    requires forall j :: i < j < n ==> Label(j) != Label(i)
    ensures Label(i) in PlatformMap(obs, n)
    ensures PlatformMap(obs, n)[Label(i)] == obs[i]
    decreases n
  {
    if i < n - 1 {
      PlatformMapAt(obs, n - 1, i);
      assert Label(n - 1) != Label(i);
    }
  }

  /** A platform name is never the label of a later input: the five labels differ in their first letter. */
  lemma PlatformLabelUnique(i: nat, j: nat)
    requires i < j && i < |PlatformNames|
    ensures Label(i) != Label(j)
  {
    assert "Magento"[0] == 'M' && "WooCommerce"[0] == 'W' && "Shopify"[0] == 'S';
    assert "Lightspeed"[0] == 'L' && "undefined"[0] == 'u';
    assert Label(i)[0] != Label(j)[0];
  }

  /** Each of the first four inputs is recorded under its own platform name. */
  lemma RecordUnderPlatformName(key: string, inputs: seq<Value>, i: nat)
    requires i < |inputs| && i < |PlatformNames|
    ensures PlatformNames[i] in PlatformMap(Observations(key, inputs), |inputs|)
    ensures PlatformMap(Observations(key, inputs), |inputs|)[PlatformNames[i]] == Observe(key, inputs[i])
  {
    forall j | i < j < |inputs|
      ensures Label(j) != Label(i)
    {
      PlatformLabelUnique(i, j);
    }
    PlatformMapAt(Observations(key, inputs), |inputs|, i);
  }

  /**
    Inputs past the fourth all store under "undefined", so only the last of them
    remains in the row.
   */
  lemma ExtraInputsOverwrite(key: string, inputs: seq<Value>)
    requires |inputs| > |PlatformNames|
    ensures "undefined" in PlatformMap(Observations(key, inputs), |inputs|)
    ensures PlatformMap(Observations(key, inputs), |inputs|)["undefined"] == Observe(key, inputs[|inputs| - 1])
    ensures forall i :: |PlatformNames| <= i < |inputs| - 1 ==> Label(i) == Label(|inputs| - 1)
  {
    PlatformMapAt(Observations(key, inputs), |inputs|, |inputs| - 1);
  }

  /**
    For inputs within the theorem's assumptions, a row of a key collected from input
    `i` shows input `i` as present, unless the key is an `[array]` marker under an
    array element.
   */
  lemma CollectedKeyShowsPresent(key: string, inputs: seq<Value>, i: nat)
    requires i < |inputs| && i < |PlatformNames| && Tame(inputs[i])
    ensures Walkable(inputs[i])
    ensures PlatformNames[i] in PlatformMap(Observations(key, inputs), |inputs|)
    ensures key in KeysOf(inputs[i], "") ==>
      (PlatformMap(Observations(key, inputs), |inputs|)[PlatformNames[i]].present <==> !MarkerUnderElement(key))
  {
    RecordUnderPlatformName(key, inputs, i);
    CollectedKeysResolve(inputs[i], key);
  }

  // ---------------------------------------------------------------------------
  // One cell of the table
  // ---------------------------------------------------------------------------

  /**
    The text of a platform's cell: "-" when the key is missing, otherwise the kind's
    name, followed by ": " and the displayed value unless the value is undefined or
    an object.
   */
  function Cell(o: Observation): (text: string)
    requires o.kind == GetValueType(o.value)
    ensures text == "-" <==> !o.present
    ensures o.present && (o.kind == TObject || o.kind == TUndefined) ==> text == TypeName(o.kind)
    ensures o.present && o.kind != TObject && o.kind != TUndefined ==>
      text == TypeName(o.kind) + ": " + FormatValue(o.value, o.kind)
  {
    if !o.present then "-"
    else TypeName(o.kind) + (if o.value != Undefined && o.kind != TObject then ": " + FormatValue(o.value, o.kind) else "")
  }

}
