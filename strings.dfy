/**
  String helpers shared by the key-path engine: JavaScript's `String.prototype.split`
  on one separator character, the regular-expression split used for `[0]` paths,
  `includes`, the first-occurrence `replace` with an empty replacement, and the
  decimal rendering and parsing of array indices.
 */
module Strings {

  datatype Option<T> = None | Some(value: T)

  // ---------------------------------------------------------------------------
  // Decimal digits, array indices
  // ---------------------------------------------------------------------------

  predicate IsDigit(c: char) {
    '0' <= c <= '9'
  }

  predicate AllDigits(s: string) {
    forall i :: 0 <= i < |s| ==> IsDigit(s[i])
  }

  function DigitChar(d: nat): (c: char)
    requires d < 10
    ensures IsDigit(c) && c as int - '0' as int == d
  {
    (d + '0' as int) as char
  }

  function DigitValue(c: char): nat
    requires IsDigit(c)
  {
    c as int - '0' as int
  }

  /** The decimal text of `n`, as `String(n)` gives it for a non-negative integer. */
  function NatToString(n: nat): (s: string)
    ensures |s| > 0 && AllDigits(s)
    ensures s[0] == '0' ==> n == 0 && s == "0"
    decreases n
  {
    if n < 10 then [DigitChar(n)] else NatToString(n / 10) + [DigitChar(n % 10)]
  }

  /** The number written by a string of decimal digits. */
  function DigitsValue(s: string): nat
    requires AllDigits(s)
    decreases |s|
  {
    if s == [] then 0 else DigitsValue(s[..|s| - 1]) * 10 + DigitValue(s[|s| - 1])
  }

  /** A canonical array index: decimal digits without a leading zero (except "0" itself). */
  predicate IsCanonicalIndex(s: string) {
    |s| > 0 && AllDigits(s) && (s[0] == '0' ==> |s| == 1)
  }

  /** The array index a property name denotes, if it denotes one. */
  function ParseIndex(s: string): Option<nat> {
    if IsCanonicalIndex(s) then Some(DigitsValue(s)) else None
  }

  lemma {:induction false} DigitsValueOfNat(n: nat)
    ensures DigitsValue(NatToString(n)) == n
    decreases n
  {
    if n >= 10 {
      var t := NatToString(n / 10);
      var s := NatToString(n);
      assert s == t + [DigitChar(n % 10)];
      assert s[..|s| - 1] == t;
      DigitsValueOfNat(n / 10);
    }
  }

  /** Rendering an index and parsing it back gives the index. */
  lemma ParseIndexOfNatToString(n: nat)
    ensures ParseIndex(NatToString(n)) == Some(n)
  {
    DigitsValueOfNat(n);
  }

  lemma DivMod10(m: nat, d: nat)
    requires d < 10
    ensures (m * 10 + d) / 10 == m && (m * 10 + d) % 10 == d
  {
  }

  lemma {:induction false} DigitsValuePositive(s: string)
    requires |s| > 0 && AllDigits(s) && s[0] != '0'
    ensures DigitsValue(s) > 0
    decreases |s|
  {
    if |s| > 1 {
      DigitsValuePositive(s[..|s| - 1]);
    }
  }

  /** Every canonical index string is the rendering of the index it denotes. */
  lemma {:induction false} NatToStringOfParseIndex(s: string)
    requires ParseIndex(s).Some?
    ensures NatToString(ParseIndex(s).value) == s
    decreases |s|
  {
    var n := DigitsValue(s);
    var init := s[..|s| - 1];
    var d := DigitValue(s[|s| - 1]);
    if |s| == 1 {
      assert init == [] && DigitsValue(init) == 0;
      assert n == d;
      assert NatToString(n) == [DigitChar(d)];
    } else {
      assert init[0] == s[0];
      DigitsValuePositive(init);
      assert IsCanonicalIndex(init);
      NatToStringOfParseIndex(init);
      var m := DigitsValue(init);
      assert n == m * 10 + d && m > 0 && d < 10;
      DivMod10(m, d);
      assert NatToString(n) == NatToString(m) + [DigitChar(d)];
      assert s == init + [s[|s| - 1]];
    }
  }

  // ---------------------------------------------------------------------------
  // split(sep) on one character
  // ---------------------------------------------------------------------------

  /**
    `s.split(sep)` for a one-character separator: the pieces between separators,
    including empty ones ("" splits to [""]). Defined from the right, so that
    appending to `s` only touches the last piece.
   */
  function Split(s: string, sep: char): (parts: seq<string>)
    ensures |parts| >= 1
    ensures forall i :: 0 <= i < |parts| ==> sep !in parts[i]
    decreases |s|
  {
    if s == [] then [""]
    else
      var init := Split(s[..|s| - 1], sep);
      var c := s[|s| - 1];
      if c == sep then init + [""]
      else init[..|init| - 1] + [init[|init| - 1] + [c]]
  }

  /** `parts.join(sep)`. */
  function Join(parts: seq<string>, sep: char): string
    requires |parts| >= 1
  {
    if |parts| == 1 then parts[0] else Join(parts[..|parts| - 1], sep) + [sep] + parts[|parts| - 1]
  }

  lemma {:induction false} SplitExtend(s: string, sep: char, k: string)
    requires sep !in k
    ensures Split(s + k, sep) ==
      Split(s, sep)[..|Split(s, sep)| - 1] + [Split(s, sep)[|Split(s, sep)| - 1] + k]
    decreases |k|
  {
    if k == [] {
      assert s + k == s;
      var P := Split(s, sep);
      assert P[|P| - 1] + k == P[|P| - 1];
      assert P[..|P| - 1] + [P[|P| - 1]] == P;
    } else {
      var k' := k[..|k| - 1];
      var c := k[|k| - 1];
      SplitExtend(s, sep, k');
      assert (s + k)[..|s + k| - 1] == s + k';
      assert (s + k)[|s + k| - 1] == c && c != sep;
      var P := Split(s, sep);
      var init := Split(s + k', sep);
      assert init == P[..|P| - 1] + [P[|P| - 1] + k'];
      assert init[..|init| - 1] == P[..|P| - 1];
      assert init[|init| - 1] + [c] == P[|P| - 1] + k;
    }
  }

  /** A string without the separator splits into itself alone. */
  lemma SplitNoSeparator(k: string, sep: char)
    requires sep !in k
    ensures Split(k, sep) == [k]
  {
    SplitExtend("", sep, k);
    assert "" + k == k;
  }

  /** Appending a separator and a separator-free piece appends exactly that piece. */
  lemma SplitAppend(p: string, sep: char, k: string)
    requires sep !in k
    ensures Split(p + [sep] + k, sep) == Split(p, sep) + [k]
  {
    var q := p + [sep];
    assert q[..|q| - 1] == p;
    assert Split(q, sep) == Split(p, sep) + [""];
    SplitExtend(q, sep, k);
    assert (Split(p, sep) + [""])[..|Split(p, sep)|] == Split(p, sep);
    assert q + k == p + [sep] + k;
    assert "" + k == k;
  }

  lemma JoinExtendLast(ps: seq<string>, sep: char, x: string)
    requires |ps| >= 1
    ensures Join(ps[..|ps| - 1] + [ps[|ps| - 1] + x], sep) == Join(ps, sep) + x
  {
    var qs := ps[..|ps| - 1] + [ps[|ps| - 1] + x];
    if |ps| > 1 {
      assert qs[..|qs| - 1] == ps[..|ps| - 1];
    }
  }

  /** Splitting then joining gives the string back. */
  lemma {:induction false} JoinSplit(s: string, sep: char)
    ensures Join(Split(s, sep), sep) == s
    decreases |s|
  {
    if s != [] {
      var init := s[..|s| - 1];
      var c := s[|s| - 1];
      var ps := Split(init, sep);
      JoinSplit(init, sep);
      assert s == init + [c];
      if c == sep {
        var qs := ps + [""];
        assert qs[..|qs| - 1] == ps;
        assert Join(qs, sep) == Join(ps, sep) + [sep] + "";
      } else {
        JoinExtendLast(ps, sep, [c]);
      }
    }
  }

  /** A join starts with its first piece, followed by the separator when more pieces follow. */
  lemma {:induction false} JoinStartsWithFirst(parts: seq<string>, sep: char)
    requires |parts| >= 1
    ensures |parts[0]| <= |Join(parts, sep)| && Join(parts, sep)[..|parts[0]|] == parts[0]
    ensures |parts| > 1 ==> |parts[0]| < |Join(parts, sep)| && Join(parts, sep)[|parts[0]|] == sep
    decreases |parts|
  {
    if |parts| > 1 {
      var pre := parts[..|parts| - 1];
      JoinStartsWithFirst(pre, sep);
      var j := Join(pre, sep);
      assert Join(parts, sep) == j + [sep] + parts[|parts| - 1];
      assert pre[0] == parts[0];
      if |pre| > 1 {
        assert Join(parts, sep)[|parts[0]|] == j[|parts[0]|];
      } else {
        assert j == parts[0];
      }
    }
  }

  /** `split` gives one piece more than the string has separators. */
  lemma {:induction false} SplitCountsSeparators(s: string, sep: char)
    ensures |Split(s, sep)| == 1 + multiset(s)[sep]
    decreases |s|
  {
    if s != [] {
      var init := s[..|s| - 1];
      SplitCountsSeparators(init, sep);
      assert s == init + [s[|s| - 1]];
      assert multiset(s) == multiset(init) + multiset{s[|s| - 1]};
    }
  }

  /** Joining separator-free pieces then splitting gives the pieces back. */
  lemma {:induction false} SplitJoin(parts: seq<string>, sep: char)
    requires |parts| >= 1
    requires forall i :: 0 <= i < |parts| ==> sep !in parts[i]
    ensures Split(Join(parts, sep), sep) == parts
    decreases |parts|
  {
    if |parts| == 1 {
      SplitNoSeparator(parts[0], sep);
    } else {
      var pre, last := parts[..|parts| - 1], parts[|parts| - 1];
      assert Join(parts, sep) == Join(pre, sep) + [sep] + last;
      SplitJoin(pre, sep);
      SplitAppend(Join(pre, sep), sep, last);
      assert pre + [last] == parts;
    }
  }

  /** Every character of `s` other than the separator lies in one of its pieces. */
  lemma {:induction false} SplitKeepsCharacters(s: string, sep: char, c: char)
    requires c in s && c != sep
    ensures exists i :: 0 <= i < |Split(s, sep)| && c in Split(s, sep)[i]
    decreases |s|
  {
    var init := s[..|s| - 1];
    var last := s[|s| - 1];
    var ps := Split(init, sep);
    assert s == init + [last];
    if last == c {
      var qs := Split(s, sep);
      assert qs[|qs| - 1] == ps[|ps| - 1] + [c];
      assert c in qs[|qs| - 1];
    } else {
      assert c in init;
      SplitKeepsCharacters(init, sep, c);
      var i :| 0 <= i < |ps| && c in ps[i];
      var qs := Split(s, sep);
      if last == sep {
        assert qs[i] == ps[i];
      } else if i < |ps| - 1 {
        assert qs[i] == ps[i];
      } else {
        assert qs[i] == ps[i] + [last];
      }
    }
  }

  // ---------------------------------------------------------------------------
  // split(/[.\[\]]+/).filter(Boolean)
  // ---------------------------------------------------------------------------

  predicate IsPathDelimiter(c: char) {
    c == '.' || c == '[' || c == ']'
  }

  predicate NoPathDelimiter(s: string) {
    forall i :: 0 <= i < |s| ==> !IsPathDelimiter(s[i])
  }

  /** A left-to-right scan: the runs finished so far and the run being read. */
  datatype Scan = Scan(done: seq<string>, run: string)

  function Flush(sc: Scan): seq<string> {
    if sc.run == "" then sc.done else sc.done + [sc.run]
  }

  /** Reading one character: a delimiter ends the current run, anything else extends it. */
  function Push(sc: Scan, c: char): Scan {
    if IsPathDelimiter(c) then Scan(Flush(sc), "") else Scan(sc.done, sc.run + [c])
  }

  /** Reading `s` from left to right, starting from `sc`. */
  function ScanFrom(sc: Scan, s: string): Scan
    decreases |s|
  {
    if s == [] then sc else ScanFrom(Push(sc, s[0]), s[1..])
  }

  function ScanRuns(s: string): Scan {
    ScanFrom(Scan([], ""), s)
  }

  /** Only non-empty runs of characters other than delimiters are ever held. */
  predicate Clean(sc: Scan) {
    && NoPathDelimiter(sc.run)
    && forall i :: 0 <= i < |sc.done| ==> sc.done[i] != "" && NoPathDelimiter(sc.done[i])
  }

  /** Reading more text keeps the scan clean. */
  lemma {:induction false} ScanFromClean(sc: Scan, s: string)
    requires Clean(sc)
    ensures Clean(ScanFrom(sc, s))
    decreases |s|
  {
    if s != [] {
      ScanFromClean(Push(sc, s[0]), s[1..]);
    }
  }

  /**
    The tokens of a `[0]` path: the maximal non-empty runs of characters other than
    `.`, `[` and `]`, which is what splitting on the regular expression `[.\[\]]+`
    and dropping empty strings leaves.
   */
  function Tokens(s: string): (ts: seq<string>)
    ensures forall i :: 0 <= i < |ts| ==> ts[i] != "" && NoPathDelimiter(ts[i])
  {
    ScanFromClean(Scan([], ""), s);
    Flush(ScanRuns(s))
  }

  /** Reading `s + k` is reading `s`, then `k`. */
  lemma {:induction false} ScanFromAppend(sc: Scan, s: string, k: string)
    ensures ScanFrom(sc, s + k) == ScanFrom(ScanFrom(sc, s), k)
    decreases |s|
  {
    if s == [] {
      assert s + k == k;
    } else {
      assert (s + k)[0] == s[0];
      assert (s + k)[1..] == s[1..] + k;
      ScanFromAppend(Push(sc, s[0]), s[1..], k);
    }
  }

  /** Text without delimiters only extends the current run. */
  lemma {:induction false} ScanFromRun(sc: Scan, k: string)
    requires NoPathDelimiter(k)
    ensures ScanFrom(sc, k) == Scan(sc.done, sc.run + k)
    decreases |k|
  {
    if k == [] {
      assert sc.run + k == sc.run;
    } else {
      assert !IsPathDelimiter(k[0]);
      ScanFromRun(Push(sc, k[0]), k[1..]);
      assert (sc.run + [k[0]]) + k[1..] == sc.run + k;
    }
  }

  /** Delimiter-free text after `s` extends the run `s` ends with. */
  lemma ScanRunsExtend(s: string, k: string)
    requires NoPathDelimiter(k)
    ensures ScanRuns(s + k) == Scan(ScanRuns(s).done, ScanRuns(s).run + k)
  {
    ScanFromAppend(Scan([], ""), s, k);
    ScanFromRun(ScanRuns(s), k);
  }

  /** Tokenizing `p.k` adds exactly the token `k`. */
  lemma TokensAppendKey(p: string, k: string)
    requires k != "" && NoPathDelimiter(k)
    ensures Tokens(p + "." + k) == Tokens(p) + [k]
  {
    var q := p + ".";
    ScanFromAppend(Scan([], ""), p, ".");
    assert ScanFrom(ScanRuns(p), ".") == Push(ScanRuns(p), '.');
    assert ScanRuns(q) == Scan(Tokens(p), "");
    ScanRunsExtend(q, k);
    assert q + k == p + "." + k;
    assert "" + k == k;
  }

  /** A delimiter-free key on its own is one token. */
  lemma TokensOfKey(k: string)
    requires k != "" && NoPathDelimiter(k)
    ensures Tokens(k) == [k]
  {
    ScanFromRun(Scan([], ""), k);
    assert "" + k == k;
  }

  /** Tokenizing `p[0]` adds exactly the token `0`. */
  lemma TokensAppendElement(p: string)
    ensures Tokens(p + "[0]") == Tokens(p) + ["0"]
  {
    var sc := ScanRuns(p);
    ScanFromAppend(Scan([], ""), p, "[0]");
    var s1 := Push(sc, '[');
    var s2 := Push(s1, '0');
    assert s1 == Scan(Tokens(p), "");
    assert s2 == Scan(Tokens(p), "0");
    assert ScanFrom(sc, "[0]") == ScanFrom(s1, "0]");
    assert ScanFrom(s1, "0]") == ScanFrom(s2, "]");
    assert ScanFrom(s2, "]") == Push(s2, ']');
  }

  // ---------------------------------------------------------------------------
  // includes, replace
  // ---------------------------------------------------------------------------

  predicate OccursAt(s: string, pat: string, i: nat) {
    i + |pat| <= |s| && s[i..i + |pat|] == pat
  }

  /** The first position at or after `from` where `pat` occurs in `s`. */
  function IndexOfFrom(s: string, pat: string, from: nat): (r: Option<nat>)
    ensures r.Some? ==> from <= r.value && OccursAt(s, pat, r.value)
    ensures r.Some? ==> forall j :: from <= j < r.value ==> !OccursAt(s, pat, j)
    ensures r.None? ==> forall j :: from <= j ==> !OccursAt(s, pat, j)
    decreases |s| - from
  {
    if from + |pat| > |s| then None
    else if s[from..from + |pat|] == pat then Some(from)
    else IndexOfFrom(s, pat, from + 1)
  }

  function IndexOf(s: string, pat: string): Option<nat> {
    IndexOfFrom(s, pat, 0)
  }

  /** `s.includes(pat)`. */
  predicate Contains(s: string, pat: string) {
    IndexOf(s, pat).Some?
  }

  /** `s.replace(pat, "")` with a string pattern: only the first occurrence is removed. */
  function RemoveFirst(s: string, pat: string): (r: string)
    ensures !Contains(s, pat) ==> r == s
    ensures Contains(s, pat) ==> |r| == |s| - |pat|
  {
    match IndexOf(s, pat)
    case None => s
    case Some(i) => s[..i] + s[i + |pat|..]
  }

  /**
    What `RemoveFirst` keeps when the pattern occurs: the text before its first
    occurrence followed by the text after that occurrence.
   */
  lemma RemoveFirstCutsFirstOccurrence(s: string, pat: string)
    requires Contains(s, pat)
    ensures exists i: nat :: && OccursAt(s, pat, i)
                             && (forall j: nat :: j < i ==> !OccursAt(s, pat, j))
                             && RemoveFirst(s, pat) == s[..i] + s[i + |pat|..]
  {
    var i := IndexOf(s, pat).value;
    assert OccursAt(s, pat, i);
  }

  lemma ContainsIffOccurs(s: string, pat: string)
    ensures Contains(s, pat) <==> exists i: nat :: OccursAt(s, pat, i)
  {
    if !Contains(s, pat) {
      assert forall j: nat :: !OccursAt(s, pat, j);
    }
  }

  /** A pattern with a character the text lacks does not occur in it. */
  lemma AbsentCharacter(s: string, pat: string, c: char)
    requires c in pat && c !in s
    ensures !Contains(s, pat)
  {
    ContainsIffOccurs(s, pat);
    var k :| 0 <= k < |pat| && pat[k] == c;
    forall i: nat
      ensures !OccursAt(s, pat, i)
    {
      if i + |pat| <= |s| {
        assert s[i..i + |pat|][k] == s[i + k] != c;
      }
    }
  }

  /**
    A pattern whose first two characters never appear next to each other in `base`
    cannot start inside `base` when appended to it.
   */
  lemma NoEarlyOccurrence(base: string, pat: string)
    requires |pat| >= 2
    requires forall j :: 0 <= j < |base| && base[j] == pat[0] ==> j + 1 < |base| && base[j + 1] != pat[1]
    ensures forall j :: 0 <= j < |base| ==> !OccursAt(base + pat, pat, j)
  {
    var s := base + pat;
    forall j | 0 <= j < |base|
      ensures !OccursAt(s, pat, j)
    {
      if j + |pat| <= |s| {
        if base[j] != pat[0] {
          assert s[j..j + |pat|][0] == base[j];
        } else {
          assert s[j..j + |pat|][1] == base[j + 1];
        }
      }
    }
  }

  /** Removing the first occurrence of a pattern that occurs only as a suffix drops that suffix. */
  lemma RemoveFirstSuffix(base: string, pat: string)
    requires |pat| > 0
    requires forall j :: 0 <= j < |base| ==> !OccursAt(base + pat, pat, j)
    ensures Contains(base + pat, pat)
    ensures RemoveFirst(base + pat, pat) == base
  {
    var s := base + pat;
    assert s[|base|..|base| + |pat|] == pat;
    assert OccursAt(s, pat, |base|);
    var r := IndexOf(s, pat);
    assert r.Some?;
    assert r.value == |base|;
    assert s[..|base|] == base;
    assert s[|base| + |pat|..] == [];
  }
}
