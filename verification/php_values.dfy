/**
 * PHP values as the application handles them: null, booleans, integers,
 * strings and arrays. A PHP array is an ordered list of key/value entries
 * whose keys are integers or strings; a string key that spells a canonical
 * 64-bit integer ("5", "-3", but not "05" or "+5") is stored as that
 * integer, so `$a["5"]` and `$a[5]` are the same entry.
 *
 * Floats are not part of the model.
 */
module Php {
  import opened Optional
  import opened Strings

  datatype Key = IntKey(i: int) | StrKey(s: string)

  datatype Value =
    | Null
    | Bool(b: bool)
    | Int(i: int)
    | Str(s: string)
    | Arr(entries: seq<(Key, Value)>)

  type Entries = seq<(Key, Value)>

  const Int64Min: int := -0x8000_0000_0000_0000
  const Int64Max: int := 0x7FFF_FFFF_FFFF_FFFF

  predicate InInt64(i: int) {
    Int64Min <= i <= Int64Max
  }

  // ---------------------------------------------------------------- keys

  /** The integer a string stands for when PHP uses it as an array key, if any. */
  function CanonicalInt(s: string): (r: Option<int>)
    ensures r.Some? ==> IntToDecimal(r.value) == s && InInt64(r.value)
  {
    if |s| == 0 || !(IsDigit(s[0]) || s[0] == '-') then None
    else
      var v := IntCast(s);
      if IntToDecimal(v) == s && InInt64(v) then Some(v) else None
  }

  /** The key PHP stores for the string `s` (`$a[$s] = ...`). */
  function NormKey(s: string): Key {
    match CanonicalInt(s)
    case Some(v) => IntKey(v)
    case None => StrKey(s)
  }

  /** A key as text: JSON object member names, string interpolation. */
  function KeyName(k: Key): string {
    match k
    case IntKey(i) => IntToDecimal(i)
    case StrKey(s) => s
  }

  /** A key as a value (`foreach ($a as $k => $v)` binds `$k` to this). */
  function KeyValue(k: Key): Value {
    match k
    case IntKey(i) => Int(i)
    case StrKey(s) => Str(s)
  }

  /** Keys PHP can actually hold: 64-bit integers and non-canonical strings. */
  predicate ValidKey(k: Key) {
    match k
    case IntKey(i) => InInt64(i)
    case StrKey(s) => CanonicalInt(s).None?
  }

  /** Distinct strings give distinct keys. */
  lemma NormKeyInjective(a: string, b: string)
    ensures NormKey(a) == NormKey(b) ==> a == b
  {
    assert KeyName(NormKey(a)) == a;
    assert KeyName(NormKey(b)) == b;
  }

  lemma NormKeyIsValid(s: string)
    ensures ValidKey(NormKey(s))
  {
  }

  /** Writing a key out and reading it back as a key is the identity. */
  lemma NormKeyName(k: Key)
    requires ValidKey(k)
    ensures NormKey(KeyName(k)) == k
  {
    if k.IntKey? {
      IntCastOfDecimal(k.i);
    }
  }

  /** Distinct valid keys have distinct names. */
  lemma KeyNameInjective(k1: Key, k2: Key)
    requires ValidKey(k1) && ValidKey(k2) && KeyName(k1) == KeyName(k2)
    ensures k1 == k2
  {
    NormKeyName(k1);
    NormKeyName(k2);
  }

  // ------------------------------------------------------------- entries

  function Keys(es: Entries): (ks: seq<Key>)
    ensures |ks| == |es|
    ensures forall i :: 0 <= i < |es| ==> ks[i] == es[i].0
  {
    seq(|es|, i requires 0 <= i < |es| => es[i].0)
  }

  function Values(es: Entries): (vs: seq<Value>)
    ensures |vs| == |es|
    ensures forall i :: 0 <= i < |es| ==> vs[i] == es[i].1
  {
    seq(|es|, i requires 0 <= i < |es| => es[i].1)
  }

  predicate DistinctKeys(es: Entries) {
    forall i, j :: 0 <= i < j < |es| ==> es[i].0 != es[j].0
  }

  /** Position of the entry with key `k`, or -1. */
  function Find(es: Entries, k: Key): (r: int)
    ensures -1 <= r < |es|
    ensures r >= 0 ==> es[r].0 == k
    ensures r >= 0 ==> forall j :: 0 <= j < r ==> es[j].0 != k
    ensures r < 0 <==> forall j :: 0 <= j < |es| ==> es[j].0 != k
  {
    if |es| == 0 then -1
    else if es[0].0 == k then 0
    else
      var r := Find(es[1..], k);
      if r < 0 then -1 else r + 1
  }

  function Lookup(es: Entries, k: Key): Option<Value> {
    var i := Find(es, k);
    if i < 0 then None else Some(es[i].1)
  }

  /** `$a[$k] = $v`: overwrite in place, or append a new entry. */
  function Set(es: Entries, k: Key, v: Value): (r: Entries)
    ensures Lookup(r, k) == Some(v)
    ensures forall k' :: k' != k ==> Find(r, k') == Find(es, k')
    ensures forall k' :: k' != k ==> Lookup(r, k') == Lookup(es, k')
    ensures Find(es, k) < 0 ==> r == es + [(k, v)]
    ensures Find(es, k) >= 0 ==> r == es[Find(es, k) := (k, v)]
    ensures DistinctKeys(es) ==> DistinctKeys(r)
  {
    var i := Find(es, k);
    if i < 0 then
      var r := es + [(k, v)];
      FindFirst(r, k, |es|);
      FindAppend(es, k, v);
      r
    else
      var r := es[i := (k, v)];
      FindFirst(r, k, i);
      FindUpdate(es, i, k, v);
      r
  }

  lemma FindFirst(es: Entries, k: Key, i: int)
    requires 0 <= i < |es| && es[i].0 == k
    requires forall j :: 0 <= j < i ==> es[j].0 != k
    ensures Find(es, k) == i
  {
    if i > 0 {
      FindFirst(es[1..], k, i - 1);
    }
  }

  lemma FindAppend(es: Entries, k: Key, v: Value)
    ensures forall k' :: k' != k ==> Find(es + [(k, v)], k') == Find(es, k')
  {
    forall k' | k' != k ensures Find(es + [(k, v)], k') == Find(es, k') {
      if |es| > 0 {
        assert (es + [(k, v)])[1..] == es[1..] + [(k, v)];
        FindAppend(es[1..], k, v);
      }
    }
  }

  lemma FindUpdate(es: Entries, i: int, k: Key, v: Value)
    requires 0 <= i < |es| && es[i].0 == k
    ensures forall k' :: k' != k ==> Find(es[i := (k, v)], k') == Find(es, k')
  {
    forall k' | k' != k ensures Find(es[i := (k, v)], k') == Find(es, k') {
      if i > 0 {
        assert es[i := (k, v)][1..] == es[1..][i - 1 := (k, v)];
        FindUpdate(es[1..], i - 1, k, v);
      }
    }
  }

  /** `foreach ($pairs as $k => $v) { $acc[$k] = $v; }` */
  function SetAll(acc: Entries, pairs: Entries): (r: Entries)
    ensures |r| >= |acc|
    ensures |pairs| > 0 ==> |r| > 0
    ensures DistinctKeys(acc) ==> DistinctKeys(r)
    decreases |pairs|
  {
    if |pairs| == 0 then acc else SetAll(Set(acc, pairs[0].0, pairs[0].1), pairs[1..])
  }

  /** The value of the last pair with key `k`: the one a run of assignments leaves behind. */
  function LastValue(pairs: Entries, k: Key): (r: Option<Value>)
    ensures r.None? <==> forall j :: 0 <= j < |pairs| ==> pairs[j].0 != k
    decreases |pairs|
  {
    if |pairs| == 0 then None
    else
      match LastValue(pairs[1..], k)
      case Some(v) => Some(v)
      case None =>
        assert forall j :: 1 <= j < |pairs| ==> pairs[j] == pairs[1..][j - 1];
        if pairs[0].0 == k then Some(pairs[0].1) else None
  }

  /** With distinct keys, the last value written under a key is the only one. */
  lemma {:induction false} LastValueDistinct(pairs: Entries, i: int)
    requires DistinctKeys(pairs) && 0 <= i < |pairs|
    ensures LastValue(pairs, pairs[i].0) == Some(pairs[i].1)
    decreases |pairs|
  {
    var k := pairs[i].0;
    if i == 0 {
      assert forall j :: 0 <= j < |pairs[1..]| ==> pairs[1..][j].0 == pairs[j + 1].0 != k;
    } else {
      assert pairs[1..][i - 1] == pairs[i];
      LastValueDistinct(pairs[1..], i - 1);
    }
  }

  /** Last write wins; keys the pairs do not mention keep their old value. */
  lemma {:induction false} SetAllLookup(acc: Entries, pairs: Entries, k: Key)
    ensures LastValue(pairs, k).Some? ==> Lookup(SetAll(acc, pairs), k) == LastValue(pairs, k)
    ensures LastValue(pairs, k).None? ==> Lookup(SetAll(acc, pairs), k) == Lookup(acc, k)
    decreases |pairs|
  {
    if |pairs| > 0 {
      SetAllLookup(Set(acc, pairs[0].0, pairs[0].1), pairs[1..], k);
    }
  }

  /** One more pair is one more assignment. */
  lemma {:induction false} SetAllSnoc(acc: Entries, pairs: Entries, p: (Key, Value))
    ensures SetAll(acc, pairs + [p]) == Set(SetAll(acc, pairs), p.0, p.1)
    decreases |pairs|
  {
    if |pairs| == 0 {
      assert SetAll(acc, [p]) == SetAll(Set(acc, p.0, p.1), []);
    } else {
      assert (pairs + [p])[1..] == pairs[1..] + [p];
      SetAllSnoc(Set(acc, pairs[0].0, pairs[0].1), pairs[1..], p);
    }
  }

  /** Assigning pairs with fresh, distinct keys simply appends them. */
  lemma {:induction false} SetAllFresh(acc: Entries, pairs: Entries)
    requires DistinctKeys(acc + pairs)
    ensures SetAll(acc, pairs) == acc + pairs
    decreases |pairs|
  {
    if |pairs| > 0 {
      var both := acc + pairs;
      assert forall j :: 0 <= j < |acc| ==> acc[j].0 == both[j].0 != both[|acc|].0;
      assert Find(acc, pairs[0].0) < 0;
      var acc' := acc + [pairs[0]];
      assert acc' + pairs[1..] == both;
      SetAllFresh(acc', pairs[1..]);
    }
  }

  /** The integer key `$a[] = $v` uses: one past the largest integer key, or 0. */
  function NextIndex(es: Entries): (n: int)
    ensures forall j :: 0 <= j < |es| && es[j].0.IntKey? ==> es[j].0.i < n
    ensures (forall j :: 0 <= j < |es| ==> es[j].0.StrKey?) ==> n == 0
  {
    if |es| == 0 then 0
    else
      var rest := NextIndex(es[..|es| - 1]);
      var last := es[|es| - 1].0;
      if last.IntKey? && (last.i + 1 > rest || forall j :: 0 <= j < |es| - 1 ==> es[j].0.StrKey?)
      then last.i + 1
      else rest
  }

  /** `$a[] = $v`. */
  function Push(es: Entries, v: Value): (r: Entries)
    ensures r == es + [(IntKey(NextIndex(es)), v)]
    ensures DistinctKeys(es) ==> DistinctKeys(r)
  {
    es + [(IntKey(NextIndex(es)), v)]
  }

  /** `$v[$name]` read: null when `$v` is not an array or has no such entry. */
  function Field(v: Value, name: string): Value {
    match v
    case Arr(es) => Lookup(es, NormKey(name)).GetOr(Null)
    case _ => Null
  }

  /** `isset($v[$name])`: the entry exists and is not null. */
  predicate Isset(v: Value, name: string) {
    Field(v, name) != Null
  }

  /** `$v[$name] ?? $default`. */
  function Coalesce(v: Value, name: string, default: Value): (r: Value)
    ensures Isset(v, name) ==> r == Field(v, name)
    ensures !Isset(v, name) ==> r == default
  {
    if Isset(v, name) then Field(v, name) else default
  }

  /** PHP truthiness (`if ($v)`, `!$v`, `empty`). */
  predicate Truthy(v: Value) {
    match v
    case Null => false
    case Bool(b) => b
    case Int(i) => i != 0
    case Str(s) => s != "" && s != "0"
    case Arr(es) => es != []
  }

  /** String conversion (`(string)$v`, interpolation, string arguments). */
  function AsString(v: Value): string {
    match v
    case Null => ""
    case Bool(b) => if b then "1" else ""
    case Int(i) => IntToDecimal(i)
    case Str(s) => s
    case Arr(_) => "Array"
  }

  /** `$a['id'] = $id` on a value read back from the store; null auto-vivifies to an array. */
  function WithField(v: Value, name: string, x: Value): (r: Value)
    ensures r.Arr?
    ensures Field(r, name) == x
  {
    match v
    case Arr(es) => Arr(Set(es, NormKey(name), x))
    case _ => Arr(Set([], NormKey(name), x))
  }

  /** Setting one field leaves every other field as it was. */
  lemma WithFieldOthers(v: Value, name: string, x: Value, n: string)
    requires n != name
    ensures Field(WithField(v, name, x), n) == Field(v, n)
  {
    NormKeyInjective(n, name);
  }

  // ------------------------------------------------------ numeric strings

  /** A PHP 8 numeric string taken apart: sign, integer digits, fraction digits, exponent. */
  datatype Numeral = Numeral(negative: bool, whole: string, fraction: string, exponent: int)

  predicate AllDigits(s: string) {
    forall i :: 0 <= i < |s| ==> IsDigit(s[i])
  }

  predicate AllBlank(s: string) {
    forall i :: 0 <= i < |s| ==> IsPhpBlank(s[i])
  }

  /** An exponent at the start of `s` (`e` or `E`, an optional sign, at least one digit) and what follows it; without one, 0 and `s`. */
  function Exponent(s: string): (r: (int, string))
    ensures |r.1| <= |s|
    ensures r.1 == s ==> r.0 == 0
  {
    if |s| == 0 || (s[0] != 'e' && s[0] != 'E') then (0, s)
    else
      var t := s[1..];
      var signed := |t| > 0 && (t[0] == '-' || t[0] == '+');
      var u := if signed then t[1..] else t;
      var ds := LeadingDigits(u);
      if |ds| == 0 then (0, s)
      else
        var m := DigitsValue(ds) as int;
        ((if signed && t[0] == '-' then 0 - m else m), u[|ds|..])
  }

  /**
   * PHP 8's numeric-string grammar: optional blanks, an optional sign,
   * digits with an optional fraction (or a fraction alone), an optional
   * exponent, optional trailing blanks. `None` for every other string.
   */
  function ParseNumeral(s: string): (r: Option<Numeral>)
    ensures r.Some? ==> AllDigits(r.value.whole) && AllDigits(r.value.fraction)
    ensures r.Some? ==> |r.value.whole| + |r.value.fraction| > 0
  {
    var t := DropBlanks(s);
    if |t| > 0 && t[0] == '-' then Negated(Unsigned(t[1..]))
    else if |t| > 0 && t[0] == '+' then Unsigned(t[1..])
    else Unsigned(t)
  }

  function Negated(r: Option<Numeral>): (r': Option<Numeral>)
    ensures r'.Some? <==> r.Some?
    ensures r.Some? ==> r'.value == r.value.(negative := true)
  {
    match r
    case None => None
    case Some(n) => Some(n.(negative := true))
  }

  /** The grammar after the sign: integer digits, then the rest. */
  function Unsigned(body: string): (r: Option<Numeral>)
    ensures r.Some? ==> !r.value.negative && AllDigits(r.value.whole) && AllDigits(r.value.fraction)
    ensures r.Some? ==> |r.value.whole| + |r.value.fraction| > 0
  {
    var whole := LeadingDigits(body);
    AfterWhole(whole, body[|whole|..])
  }

  /** An optional `.` and fraction digits after the integer digits, then the rest. */
  function AfterWhole(whole: string, rest: string): (r: Option<Numeral>)
    requires AllDigits(whole)
    ensures r.Some? ==> !r.value.negative && r.value.whole == whole && AllDigits(r.value.fraction)
    ensures r.Some? ==> |r.value.whole| + |r.value.fraction| > 0
  {
    if |rest| > 0 && rest[0] == '.' then
      var fraction := LeadingDigits(rest[1..]);
      AfterFraction(whole, fraction, rest[1 + |fraction|..])
    else AfterFraction(whole, "", rest)
  }

  /** An optional exponent, then nothing but blanks, and at least one digit overall. */
  function AfterFraction(whole: string, fraction: string, after: string): (r: Option<Numeral>)
    requires AllDigits(whole) && AllDigits(fraction)
    ensures r.Some? ==> r == Some(Numeral(false, whole, fraction, r.value.exponent))
    ensures r.Some? ==> |whole| + |fraction| > 0
  {
    var (exponent, tail) := Exponent(after);
    if |whole| + |fraction| > 0 && AllBlank(tail) then Some(Numeral(false, whole, fraction, exponent))
    else None
  }

  /** `is_numeric($s)`, and the strings `==` and `sort()` compare by value. */
  predicate IsNumeric(s: string) {
    ParseNumeral(s).Some?
  }

  function Pow10(n: nat): (r: nat)
    ensures r >= 1
  {
    if n == 0 then 1 else 10 * Pow10(n - 1)
  }

  /** `x` times ten to the power `e`. */
  function Scale(x: real, e: int): real {
    if e >= 0 then x * Pow10(e) as real else x / Pow10(-e) as real
  }

  /** The exact value of a numeral. */
  function NumeralValue(n: Numeral): real
    requires AllDigits(n.whole) && AllDigits(n.fraction)
  {
    var magnitude := DigitsValue(n.whole) as real + DigitsValue(n.fraction) as real / Pow10(|n.fraction|) as real;
    var v := Scale(magnitude, n.exponent);
    if n.negative then 0.0 - v else v
  }

  /** The value PHP reads from a numeric string (as an exact rational; see README on doubles). */
  function NumValue(s: string): real
    requires IsNumeric(s)
  {
    NumeralValue(ParseNumeral(s).value)
  }

  /** Nothing after the digits: a numeral without exponent. */
  lemma NothingAfter(whole: string, fraction: string)
    requires AllDigits(whole) && AllDigits(fraction) && |whole| + |fraction| > 0
    ensures AfterFraction(whole, fraction, "") == Some(Numeral(false, whole, fraction, 0))
  {
    assert Exponent("") == (0, "");
  }

  /** A string of digits is numeric, and it stands for the value of its digits. */
  lemma DigitStringIsNumeric(ds: string)
    requires |ds| > 0 && AllDigits(ds)
    ensures IsNumeric(ds) && NumValue(ds) == DigitsValue(ds) as real
  {
    DigitStringParses(ds);
    WholeValue(ds);
  }

  lemma DigitStringParses(ds: string)
    requires |ds| > 0 && AllDigits(ds)
    ensures ParseNumeral(ds) == Some(Numeral(false, ds, "", 0))
  {
    LeadingDigitsOfDigits(ds);
    assert IsDigit(ds[0]);
    assert DropBlanks(ds) == ds;
    assert ds[|ds|..] == "";
    NothingAfter(ds, "");
  }

  lemma WholeValue(ds: string)
    requires AllDigits(ds)
    ensures NumeralValue(Numeral(false, ds, "", 0)) == DigitsValue(ds) as real
  {
    assert DigitsValue("") == 0;
    assert Pow10(0) == 1;
  }

  lemma FractionValue(whole: string, ds: string)
    requires AllDigits(ds) && (whole == "" || whole == "0")
    ensures NumeralValue(Numeral(false, whole, ds, 0)) == DigitsValue(ds) as real / Pow10(|ds|) as real
  {
    assert DigitsValue("0") == 0 by { assert "0"[..0] == ""; }
  }

  /** `.` followed by digits is numeric, and it stands for those digits as a fraction. */
  lemma PointDigitsIsNumeric(ds: string)
    requires |ds| > 0 && AllDigits(ds)
    ensures IsNumeric("." + ds) && NumValue("." + ds) == DigitsValue(ds) as real / Pow10(|ds|) as real
  {
    PointDigitsParse(ds);
    FractionValue("", ds);
  }

  lemma PointDigitsParse(ds: string)
    requires |ds| > 0 && AllDigits(ds)
    ensures ParseNumeral("." + ds) == Some(Numeral(false, "", ds, 0))
  {
    var s := "." + ds;
    assert DropBlanks(s) == s;
    assert LeadingDigits(s) == "";
    assert s[0..] == s;
    PointFraction("", ds);
  }

  /** `0.` followed by digits has the same value as `.` followed by them. */
  lemma ZeroPointDigitsIsNumeric(ds: string)
    requires |ds| > 0 && AllDigits(ds)
    ensures IsNumeric("0." + ds) && NumValue("0." + ds) == DigitsValue(ds) as real / Pow10(|ds|) as real
  {
    ZeroPointDigitsParse(ds);
    FractionValue("0", ds);
  }

  lemma ZeroPointDigitsParse(ds: string)
    requires |ds| > 0 && AllDigits(ds)
    ensures ParseNumeral("0." + ds) == Some(Numeral(false, "0", ds, 0))
  {
    var s := "0." + ds;
    assert DropBlanks(s) == s;
    assert s[1..] == "." + ds;
    assert LeadingDigits(s[1..]) == "";
    assert LeadingDigits(s) == "0";
    PointFraction("0", ds);
  }

  /** Integer digits, a point and fraction digits, and nothing after. */
  lemma PointFraction(whole: string, ds: string)
    requires AllDigits(whole) && |ds| > 0 && AllDigits(ds)
    ensures AfterWhole(whole, "." + ds) == Some(Numeral(false, whole, ds, 0))
  {
    var rest := "." + ds;
    assert rest[1..] == ds;
    LeadingDigitsOfDigits(ds);
    assert rest[1 + |ds|..] == "";
    NothingAfter(whole, ds);
  }

  /** The decimal numeral of an integer is numeric and stands for that integer. */
  lemma DecimalIsNumeric(i: int)
    ensures IsNumeric(IntToDecimal(i)) && NumValue(IntToDecimal(i)) == i as real
  {
    if i >= 0 {
      DigitsValueOfDecimal(i);
      DigitStringIsNumeric(NatToDecimal(i));
    } else {
      var ds := NatToDecimal(-i);
      DigitsValueOfDecimal(-i);
      NegatedDigitsAreNumeric(ds);
    }
  }

  lemma NegatedDigitsAreNumeric(ds: string)
    requires |ds| > 0 && AllDigits(ds)
    ensures IsNumeric("-" + ds) && NumValue("-" + ds) == 0.0 - DigitsValue(ds) as real
  {
    NegatedDigitsParse(ds);
    WholeValue(ds);
    NegativeValue(Numeral(false, ds, "", 0));
  }

  lemma NegatedDigitsParse(ds: string)
    requires |ds| > 0 && AllDigits(ds)
    ensures ParseNumeral("-" + ds) == Some(Numeral(true, ds, "", 0))
  {
    var s := "-" + ds;
    assert DropBlanks(s) == s;
    assert s[1..] == ds;
    UnsignedDigits(ds);
  }

  lemma UnsignedDigits(ds: string)
    requires |ds| > 0 && AllDigits(ds)
    ensures Unsigned(ds) == Some(Numeral(false, ds, "", 0))
  {
    DigitStringParses(ds);
    assert IsDigit(ds[0]);
    assert DropBlanks(ds) == ds;
  }

  /** A minus sign negates the value. */
  lemma NegativeValue(n: Numeral)
    requires AllDigits(n.whole) && AllDigits(n.fraction) && !n.negative
    ensures NumeralValue(n.(negative := true)) == 0.0 - NumeralValue(n)
  {
  }

  /** Text that does not start like a number is not numeric. */
  lemma NotNumeric(s: string)
    requires |s| > 0 && !IsPhpBlank(s[0]) && !IsDigit(s[0]) && s[0] != '-' && s[0] != '+' && s[0] != '.'
    ensures !IsNumeric(s)
  {
    assert DropBlanks(s) == s;
    assert LeadingDigits(s) == "";
  }

  // ------------------------------------------------------ loose equality

  /**
   * PHP 8 `==` (the comparison `in_array` uses): numeric strings compare by
   * value, and two arrays are equal when they have the same number of entries
   * and every key of one is a key of the other with a `==` value, whatever
   * the order of the entries.
   */
  predicate LooseEq(a: Value, b: Value)
    decreases a, 2
  {
    if a.Arr? && b.Arr? then
      && |a.entries| == |b.entries|
      && (forall i :: 0 <= i < |a.entries| ==> MatchedIn(a.entries[i].0, a.entries[i].1, b.entries))
      && (forall j :: 0 <= j < |b.entries| ==> MatchedFrom(a, b.entries[j].0, b.entries[j].1))
    else
      ScalarEq(a, b)
  }

  /** `y` has key `k`, and `v` is `==` to its value there. */
  predicate MatchedIn(k: Key, v: Value, y: Entries)
    decreases v, 3
  {
    exists j :: 0 <= j < |y| && y[j].0 == k && LooseEq(v, y[j].1)
  }

  /** The array `a` has key `k`, and its value there is `==` to `w`. */
  predicate MatchedFrom(a: Value, k: Key, w: Value)
    requires a.Arr?
    decreases a, 1
  {
    exists i :: 0 <= i < |a.entries| && a.entries[i].0 == k && LooseEq(a.entries[i].1, w)
  }

  /** `==` when at most one side is an array. */
  predicate ScalarEq(a: Value, b: Value)
    requires !(a.Arr? && b.Arr?)
  {
    match (a, b)
    case (Null, Null) => true
    case (Bool(x), _) => x == Truthy(b)
    case (_, Bool(y)) => Truthy(a) == y
    case (Null, Str(t)) => t == ""
    case (Str(s), Null) => s == ""
    case (Null, _) => !Truthy(b)
    case (_, Null) => !Truthy(a)
    case (Int(x), Int(y)) => x == y
    case (Int(x), Str(t)) => IsNumeric(t) && NumValue(t) == x as real
    case (Str(s), Int(y)) => IsNumeric(s) && NumValue(s) == y as real
    case (Str(s), Str(t)) =>
      if IsNumeric(s) && IsNumeric(t) then NumValue(s) == NumValue(t) else s == t
    case _ => false
  }

  /** `in_array($needle, $haystack)` with loose comparison. */
  predicate InArray(needle: Value, haystack: Entries) {
    exists i :: 0 <= i < |haystack| && LooseEq(needle, haystack[i].1)
  }

  /** `==` does not depend on the order of its operands. */
  lemma LooseEqSymmetric(a: Value, b: Value)
    ensures LooseEq(a, b) <==> LooseEq(b, a)
  {
    if LooseEq(a, b) {
      LooseEqFlip(a, b);
    }
    if LooseEq(b, a) {
      LooseEqFlip(b, a);
    }
  }

  lemma {:induction false} LooseEqFlip(a: Value, b: Value)
    requires LooseEq(a, b)
    ensures LooseEq(b, a)
    decreases a, 1
  {
    if a.Arr? && b.Arr? {
      var x, y := a.entries, b.entries;
      forall j | 0 <= j < |y| ensures MatchedIn(y[j].0, y[j].1, x) {
        assert MatchedFrom(a, y[j].0, y[j].1);
        FlipFrom(a, y[j].0, y[j].1);
      }
      forall i | 0 <= i < |x| ensures MatchedFrom(b, x[i].0, x[i].1) {
        assert MatchedIn(x[i].0, x[i].1, y);
        FlipIn(x[i].0, x[i].1, b);
      }
    } else {
      ScalarEqSymmetric(a, b);
    }
  }

  lemma {:induction false} FlipFrom(a: Value, k: Key, w: Value)
    requires a.Arr? && MatchedFrom(a, k, w)
    ensures MatchedIn(k, w, a.entries)
    decreases a, 0
  {
    var x := a.entries;
    var i :| 0 <= i < |x| && x[i].0 == k && LooseEq(x[i].1, w);
    LooseEqFlip(x[i].1, w);
    assert x[i].0 == k && LooseEq(w, x[i].1);
  }

  lemma {:induction false} FlipIn(k: Key, v: Value, b: Value)
    requires b.Arr? && MatchedIn(k, v, b.entries)
    ensures MatchedFrom(b, k, v)
    decreases v, 2
  {
    var y := b.entries;
    var j :| 0 <= j < |y| && y[j].0 == k && LooseEq(v, y[j].1);
    LooseEqFlip(v, y[j].1);
    assert y[j].0 == k && LooseEq(y[j].1, v);
  }

  lemma ScalarEqSymmetric(a: Value, b: Value)
    requires !(a.Arr? && b.Arr?)
    ensures ScalarEq(a, b) <==> ScalarEq(b, a)
  {
  }

  /** Every value is `==` to itself. */
  lemma {:induction false} LooseEqReflexive(a: Value)
    ensures LooseEq(a, a)
  {
    if a.Arr? {
      var x := a.entries;
      forall i | 0 <= i < |x| ensures MatchedIn(x[i].0, x[i].1, x) && MatchedFrom(a, x[i].0, x[i].1) {
        LooseEqReflexive(x[i].1);
        assert x[i].0 == x[i].0;
      }
    }
  }

  /** An array holding a number is `==` to the array holding its numeral, as `[1] == ["1"]`. */
  lemma LooseEqListOfNumeral(i: int)
    ensures LooseEq(Arr([(IntKey(0), Int(i))]), Arr([(IntKey(0), Str(IntToDecimal(i)))]))
  {
    LooseEqIntString(i, IntToDecimal(i));
    var x := [(IntKey(0), Int(i))];
    var y := [(IntKey(0), Str(IntToDecimal(i)))];
    assert y[0].0 == x[0].0 && LooseEq(x[0].1, y[0].1);
  }

  /** The order of an array's entries does not matter to `==`. */
  lemma LooseEqSwapped(k1: Key, v1: Value, k2: Key, v2: Value)
    ensures LooseEq(Arr([(k1, v1), (k2, v2)]), Arr([(k2, v2), (k1, v1)]))
  {
    LooseEqReflexive(v1);
    LooseEqReflexive(v2);
    var x := [(k1, v1), (k2, v2)];
    var y := [(k2, v2), (k1, v1)];
    assert x[0] == y[1] && x[1] == y[0];
  }

  /** Arrays whose keys differ are never `==`, whatever their values. */
  lemma LooseEqNeedsSameKeys(k1: Key, k2: Key, v: Value)
    requires k1 != k2
    ensures !LooseEq(Arr([(k1, v)]), Arr([(k2, v)]))
  {
    var x := [(k1, v)];
    assert x[0].0 == k1;
  }

  /** Loose equality on two strings is plain equality unless both are numeric. */
  lemma LooseEqStrings(s: string, t: string)
    requires !IsNumeric(s) || !IsNumeric(t)
    ensures LooseEq(Str(s), Str(t)) <==> s == t
  {
  }

  /** An integer and a string are `==` exactly when the string is numeric with that value; its own numeral always is. */
  lemma LooseEqIntString(i: int, t: string)
    ensures LooseEq(Int(i), Str(t)) <==> IsNumeric(t) && NumValue(t) == i as real
    ensures LooseEq(Int(i), Str(IntToDecimal(i)))
  {
    DecimalIsNumeric(i);
  }

  /** Different strings that `==` nevertheless equates: "01" and "1", ".5" and "0.5". */
  lemma LooseEqNumericStrings()
    ensures LooseEq(Str("01"), Str("1")) && "01" != "1"
    ensures LooseEq(Str(".5"), Str("0.5")) && ".5" != "0.5"
  {
    OneAndZeroOne();
    HalfTwoWays();
    assert "01"[0] != "1"[0];
    assert ".5"[0] != "0.5"[0];
  }

  lemma OneAndZeroOne()
    ensures IsNumeric("01") && IsNumeric("1")
    ensures NumValue("01") == 1.0 && NumValue("1") == 1.0
  {
    ZeroOne();
    One();
  }

  lemma HalfTwoWays()
    ensures IsNumeric(".5") && IsNumeric("0.5")
    ensures NumValue(".5") == 0.5 && NumValue("0.5") == 0.5
  {
    PointFive();
    ZeroPointFive();
  }

  lemma PointFive()
    ensures IsNumeric(".5") && NumValue(".5") == 0.5
  {
    var ds := "5";
    var s := "." + ds;
    assert s == ".5";
    Five();
    PointDigitsIsNumeric(ds);
  }

  lemma ZeroPointFive()
    ensures IsNumeric("0.5") && NumValue("0.5") == 0.5
  {
    var ds := "5";
    var s := "0." + ds;
    assert s == "0.5";
    Five();
    ZeroPointDigitsIsNumeric(ds);
  }

  lemma Five()
    ensures AllDigits("5") && DigitsValue("5") as real / Pow10(|"5"|) as real == 0.5
  {
    assert "5"[..0] == "";
    assert DigitsValue("5") == 5;
    assert Pow10(1) == 10;
  }

  lemma ZeroOne()
    ensures IsNumeric("01") && NumValue("01") == 1.0
  {
    var ds := ['0', '1'];
    TwoDigits('0', '1');
    DigitStringIsNumeric(ds);
  }

  lemma TwoDigits(a: char, b: char)
    requires IsDigit(a) && IsDigit(b)
    ensures DigitsValue([a, b]) == (a as int - '0' as int) * 10 + (b as int - '0' as int)
  {
    var s := [a, b];
    assert s[..|s| - 1] == [a];
    assert [a][..0] == [];
    assert DigitsValue([a]) == a as int - '0' as int;
    assert DigitsValue(s) == DigitsValue([a]) * 10 + (b as int - '0' as int);
  }

  lemma One()
    ensures IsNumeric("1") && NumValue("1") == 1.0
  {
    var ds := "1";
    assert ds[..0] == "";
    DigitStringIsNumeric(ds);
  }

  // ---------------------------------------------------------- well-formed

  /** Values PHP can hold: 64-bit integers, valid keys, each key once. */
  predicate WellFormed(v: Value)
    decreases v
  {
    match v
    case Int(i) => InInt64(i)
    case Arr(es) =>
      && DistinctKeys(es)
      && (forall i :: 0 <= i < |es| ==> ValidKey(es[i].0))
      && (forall i :: 0 <= i < |es| ==> WellFormed(es[i].1))
    case _ => true
  }

  // --------------------------------------------------------- list shape

  /** PHP `range($lo, $hi)` on integers with step 1: counts down when `$lo > $hi`. */
  function Range(lo: int, hi: int): (r: seq<int>)
    ensures lo <= hi ==> |r| == hi - lo + 1 && forall i :: 0 <= i < |r| ==> r[i] == lo + i
    ensures lo > hi ==> |r| == lo - hi + 1 && forall i :: 0 <= i < |r| ==> r[i] == lo - i
    decreases if lo <= hi then hi - lo else lo - hi
  {
    if lo == hi then [lo]
    else if lo < hi then [lo] + Range(lo + 1, hi)
    else [lo] + Range(lo - 1, hi)
  }

  function IntKeys(ns: seq<int>): (ks: seq<Key>)
    ensures |ks| == |ns| && forall i :: 0 <= i < |ns| ==> ks[i] == IntKey(ns[i])
  {
    seq(|ns|, i requires 0 <= i < |ns| => IntKey(ns[i]))
  }

  /**
   * The array/map test of the encoder: `array_keys($a) === range(0, count($a) - 1)`.
   * (The source writes `!==` for the map branch.)
   */
  predicate KeysAreRange(es: Entries) {
    Keys(es) == IntKeys(Range(0, |es| - 1))
  }

  /** Keys 0, 1, ..., n-1 in order, and at least one entry. */
  predicate IsList(es: Entries) {
    |es| >= 1 && forall i :: 0 <= i < |es| ==> es[i].0 == IntKey(i)
  }

  /** The range test accepts exactly the non-empty arrays keyed 0..n-1 in order. */
  lemma KeysAreRangeIsList(es: Entries)
    ensures KeysAreRange(es) <==> IsList(es)
  {
    if |es| == 0 {
      assert |Range(0, -1)| == 2;
    } else {
      if IsList(es) {
        assert Keys(es) == IntKeys(Range(0, |es| - 1));
      }
      if KeysAreRange(es) {
        forall i | 0 <= i < |es| ensures es[i].0 == IntKey(i) {
          assert Keys(es)[i] == IntKeys(Range(0, |es| - 1))[i];
        }
      }
    }
  }

  /** A list: entries keyed 0..n-1 holding the given values (`array_values`). */
  function ListOf(vs: seq<Value>): (es: Entries)
    ensures |es| == |vs|
    ensures forall i :: 0 <= i < |vs| ==> es[i] == (IntKey(i), vs[i])
    ensures Values(es) == vs
  {
    seq(|vs|, i requires 0 <= i < |vs| => (IntKey(i), vs[i]))
  }
}
