/**
  The type classifier (`getValueType`) and the display formatter (`formatValue`)
  of the comparison table.
 */
module TypeClassifier {
  import opened Strings
  import opened JsonValue

  /** The closed set of kinds a comparison cell can report. */
  datatype ValueType = TString | TNumber | TBoolean | TObject | TArray | TNull | TUndefined

  /** The name the table prints for a kind. */
  function TypeName(t: ValueType): string {
    match t
    case TString => "string"
    case TNumber => "number"
    case TBoolean => "boolean"
    case TObject => "object"
    case TArray => "array"
    case TNull => "null"
    case TUndefined => "undefined"
  }

  /**
    `getValueType`: null and undefined first, then arrays, then the `typeof` kind
    of what is left. Total, and each kind is reported for exactly one shape.
   */
  function GetValueType(v: Value): (t: ValueType)
    ensures t == TNull <==> v.Null?
    ensures t == TUndefined <==> v.Undefined?
    ensures t == TArray <==> v.Arr?
    ensures t == TObject <==> v.Obj?
    ensures t == TString <==> v.Str?
    ensures t == TNumber <==> v.Num?
    ensures t == TBoolean <==> v.Bool?
  {
    if v.Null? then TNull
    else if v.Undefined? then TUndefined
    else if v.Arr? then TArray
    else match v
      case Bool(_) => TBoolean
      case Num(_) => TNumber
      case Str(_) => TString
      case _ => TObject
  }

  /** Distinct kinds print as distinct names, so a cell's text identifies the kind. */
  lemma TypeNameInjective(s: ValueType, t: ValueType)
    requires TypeName(s) == TypeName(t)
    ensures s == t
  {
  }

  /**
    `String(n)` for an integral number below 10^21 in magnitude, which JavaScript
    prints in plain decimal notation.
   */
  function IntToString(n: int): (s: string)
    ensures |s| > 0
  {
    if n < 0 then "-" + NatToString(-n) else NatToString(n)
  }

  /** The text of an integer reads back as that integer: a sign for negatives, then its digits. */
  lemma IntToStringReadsBack(n: int)
    ensures n >= 0 ==> ParseIndex(IntToString(n)) == Some(n)
    ensures n < 0 ==> IntToString(n)[0] == '-' && ParseIndex(IntToString(n)[1..]) == Some(-n)
  {
    if n >= 0 {
      ParseIndexOfNatToString(n);
    } else {
      ParseIndexOfNatToString(-n);
      assert IntToString(n)[1..] == NatToString(-n);
    }
  }

  /** `String(v)` for the shapes that are printed literally. */
  function StringOf(v: Value): string
    requires !v.Arr? && !v.Obj?
  {
    match v
    case Null => "null"
    case Undefined => "undefined"
    case Bool(b) => if b then "true" else "false"
    case Num(n) => IntToString(n)
    case Str(s) => s
  }

  /**
    `formatValue(value, type)`, called with the type `getValueType` gave for the value:
    objects print as nothing, arrays as their item count, everything else as `String(value)`.
   */
  function FormatValue(v: Value, t: ValueType): (r: string)
    requires t == GetValueType(v)
    ensures t == TObject ==> r == ""
    ensures t == TArray ==> r == "[" + NatToString(|v.elems|) + " items]"
    ensures v.Str? ==> r == v.s
  {
    if t == TObject then ""
    else if t == TArray then "[" + NatToString(|v.elems|) + " items]"
    else StringOf(v)
  }

  /** The display is empty only for an object, whose contents are never inlined, or an empty string. */
  lemma FormatEmptyOnlyForObjects(v: Value)
    requires FormatValue(v, GetValueType(v)) == ""
    ensures v.Obj? || v == Str("")
  {
  }

  /** The item count of an array's display reads back as the array's length. */
  lemma FormatArrayCountReadsBack(v: Value)
    requires v.Arr?
    ensures var r := FormatValue(v, TArray);
      |r| > 7 && r[0] == '[' && r[|r| - 7..] == " items]" &&
      ParseIndex(r[1..|r| - 7]) == Some(|v.elems|)
  {
    var n := NatToString(|v.elems|);
    var r := FormatValue(v, TArray);
    assert r == "[" + n + " items]";
    assert r[1..|r| - 7] == n;
    assert r[|r| - 7..] == " items]";
    ParseIndexOfNatToString(|v.elems|);
  }
}
