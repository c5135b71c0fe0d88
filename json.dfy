/**
  The JavaScript values the comparison walks: the JSON shapes plus `undefined`,
  which property access can produce. Objects keep their entries in order as a
  sequence of (key, value) pairs. This module also states what `Object.entries`,
  own-property membership (`part in value`) and property access (`value[part]`)
  give on each shape.
 */
module JsonValue {
  import opened Strings

  datatype Value =
    | Null
    | Undefined
    | Bool(b: bool)
    | Num(n: int)
    | Str(s: string)
    | Arr(elems: seq<Value>)
    | Obj(fields: seq<(string, Value)>)

  /** `value && typeof value === "object"`: an array or a plain object (null is falsy). */
  predicate IsObjectLike(v: Value) {
    v.Obj? || v.Arr?
  }

  /** No two entries of an object share a key, as in every JavaScript object. */
  predicate DistinctKeys(fields: seq<(string, Value)>) {
    forall i, j :: 0 <= i < j < |fields| ==> fields[i].0 != fields[j].0
  }

  /**
    `Object.entries(v)`: an object's own entries; an array's or a string's elements
    under their index keys "0", "1", ...; nothing for a number or a boolean. It is
    not defined on null and undefined (JavaScript throws a TypeError there).
   */
  function Entries(v: Value): (es: seq<(string, Value)>)
    requires !v.Null? && !v.Undefined?
    ensures v.Obj? ==> es == v.fields
    ensures v.Arr? ==> (|es| == |v.elems| &&
      forall i :: 0 <= i < |es| ==> es[i] == (NatToString(i), v.elems[i]))
    ensures v.Str? ==> (|es| == |v.s| &&
      forall i :: 0 <= i < |es| ==> es[i] == (NatToString(i), Str([v.s[i]])))
    ensures v.Num? || v.Bool? ==> es == []
    ensures forall i :: 0 <= i < |es| && IsObjectLike(es[i].1) ==> es[i].1 < v
  {
    match v
    case Obj(fields) => fields
    case Arr(elems) => ElementEntries(elems, |elems|)
    case Str(s) => CharEntries(s, |s|)
    case _ => []
  }

  /** The entries of the first `n` elements of an array, under their index keys. */
  function ElementEntries(elems: seq<Value>, n: nat): (es: seq<(string, Value)>)
    requires n <= |elems|
    ensures |es| == n && forall i :: 0 <= i < n ==> es[i] == (NatToString(i), elems[i])
  {
    if n == 0 then [] else ElementEntries(elems, n - 1) + [(NatToString(n - 1), elems[n - 1])]
  }

  /** The entries of the first `n` characters of a string, each a one-character string. */
  function CharEntries(s: string, n: nat): (es: seq<(string, Value)>)
    requires n <= |s|
    ensures |es| == n && forall i :: 0 <= i < n ==> es[i] == (NatToString(i), Str([s[i]]))
  {
    if n == 0 then [] else CharEntries(s, n - 1) + [(NatToString(n - 1), Str([s[n - 1]]))]
  }

  /** The value stored under the first entry with key `k`, if any. */
  function FindField(fields: seq<(string, Value)>, k: string): (r: Option<Value>)
    ensures r.None? <==> forall i :: 0 <= i < |fields| ==> fields[i].0 != k
    ensures r.Some? ==> exists i :: 0 <= i < |fields| && fields[i] == (k, r.value)
    ensures forall i :: 0 <= i < |fields| && fields[i].0 == k && DistinctKeys(fields) ==>
      r == Some(fields[i].1)
  {
    if fields == [] then None
    else if fields[0].0 == k then Some(fields[0].1)
    else
      var r := FindField(fields[1..], k);
      assert forall i :: 1 <= i < |fields| ==> fields[i] == fields[1..][i - 1];
      r
  }

  /**
    `k in v` for an object-like `v`, restricted to own properties: an object's keys;
    an array's canonical indices below its length, and "length".
   */
  predicate HasOwn(v: Value, k: string) {
    match v
    case Obj(fields) => FindField(fields, k).Some?
    case Arr(elems) => k == "length" || (ParseIndex(k).Some? && ParseIndex(k).value < |elems|)
    case _ => false
  }

  /** `v[k]`: the own property's value, or undefined when `v` has no such own property. */
  function Get(v: Value, k: string): (r: Value)
    ensures !HasOwn(v, k) ==> r == Undefined
  {
    match v
    case Obj(fields) =>
      (match FindField(fields, k) case Some(x) => x case None => Undefined)
    case Arr(elems) =>
      if k == "length" then Num(|elems|)
      else if ParseIndex(k).Some? && ParseIndex(k).value < |elems| then elems[ParseIndex(k).value]
      else Undefined
    case _ => Undefined
  }

  /**
    Every entry that `Object.entries` lists is an own property, and reading that
    property gives the entry's value (for objects, given distinct keys).
   */
  lemma EntryIsOwnProperty(v: Value, i: nat)
    requires IsObjectLike(v)
    requires v.Obj? ==> DistinctKeys(v.fields)
    requires i < |Entries(v)|
    ensures HasOwn(v, Entries(v)[i].0)
    ensures Get(v, Entries(v)[i].0) == Entries(v)[i].1
  {
    if v.Arr? {
      ParseIndexOfNatToString(i);
      assert NatToString(i) != "length";
    }
  }

  /**
    `Object.entries` is defined on `v` and on everything the key collector recurses
    into below it: the value of every entry that is an object, and the first element
    of every entry that is a non-empty array.
   */
  predicate Walkable(v: Value)
    decreases v
  {
    && !v.Null?
    && !v.Undefined?
    && var es := Entries(v);
       forall i :: 0 <= i < |es| ==>
         && (es[i].1.Obj? ==> Walkable(es[i].1))
         && (es[i].1.Arr? && |es[i].1.elems| > 0 ==> Walkable(es[i].1.elems[0]))
  }
}
