/**
 * String helpers shared by the PHP and the JavaScript parts of the model:
 * ASCII case mapping, splitting and joining on a separator (PHP `explode`
 * and `implode`), decimal conversion (PHP `(string)$int` and `(int)$str`),
 * substring search and JavaScript's `trim`.
 *
 * Strings are sequences of Unicode scalar values. PHP strings are byte
 * strings holding UTF-8; every operation modelled here either looks only at
 * ASCII characters or compares code points in order, and UTF-8 preserves
 * the order of code points, so the two views agree.
 */
module Strings {

  // ---------------------------------------------------------------- case

  /** ASCII lower-casing (PHP 8 `strtolower`, `lcfirst`). */
  function LowerChar(c: char): char {
    if 'A' <= c <= 'Z' then (c as int + 32) as char else c
  }

  /** ASCII upper-casing (PHP 8 `strtoupper`, `ucfirst`). */
  function UpperChar(c: char): char {
    if 'a' <= c <= 'z' then (c as int - 32) as char else c
  }

  function Lower(s: string): (r: string)
    ensures |r| == |s|
    ensures forall i :: 0 <= i < |s| ==> r[i] == LowerChar(s[i])
  {
    seq(|s|, i requires 0 <= i < |s| => LowerChar(s[i]))
  }

  function Upper(s: string): (r: string)
    ensures |r| == |s|
    ensures forall i :: 0 <= i < |s| ==> r[i] == UpperChar(s[i])
  {
    seq(|s|, i requires 0 <= i < |s| => UpperChar(s[i]))
  }

  /** Upper-casing leaves no ASCII lower-case letter and is idempotent. */
  lemma UpperIsNormal(s: string)
    ensures forall i :: 0 <= i < |Upper(s)| ==> !('a' <= Upper(s)[i] <= 'z')
    ensures Upper(Upper(s)) == Upper(s)
  {
  }

  /** PHP `ucfirst`: the first character upper-cased. */
  function UcFirst(s: string): string {
    if |s| == 0 then s else [UpperChar(s[0])] + s[1..]
  }

  /** PHP `lcfirst`: the first character lower-cased. */
  function LcFirst(s: string): string {
    if |s| == 0 then s else [LowerChar(s[0])] + s[1..]
  }

  /** Code points of the ASCII-lower-cased string, the key PHP's `strcasecmp` compares. */
  function FoldedCodes(s: string): (r: seq<int>)
    ensures |r| == |s|
  {
    seq(|s|, i requires 0 <= i < |s| => LowerChar(s[i]) as int)
  }

  // ------------------------------------------------------ split and join

  /** Index of the last occurrence of `c` in `s`, or -1. */
  function LastIndexOf(s: string, c: char): (r: int)
    ensures -1 <= r < |s|
    ensures r >= 0 ==> s[r] == c && c !in s[r + 1..]
    ensures r < 0 ==> c !in s
  {
    if |s| == 0 then -1
    else if s[|s| - 1] == c then |s| - 1
    else
      assert s == s[..|s| - 1] + [s[|s| - 1]];
      LastIndexOf(s[..|s| - 1], c)
  }

  /** PHP `explode(c, s)` (and JavaScript `s.split(c)`): never empty, no part holds `c`. */
  function Split(s: string, c: char): (parts: seq<string>)
    ensures |parts| >= 1
    ensures forall i :: 0 <= i < |parts| ==> c !in parts[i]
    decreases |s|
  {
    var k := LastIndexOf(s, c);
    if k < 0 then [s]
    else
      var init := Split(s[..k], c);
      var last := s[k + 1..];
      NoneHolds(init, last, c);
      init + [last]
  }

  lemma NoneHolds(init: seq<string>, last: string, c: char)
    requires forall i :: 0 <= i < |init| ==> c !in init[i]
    requires c !in last
    ensures forall i :: 0 <= i < |init + [last]| ==> c !in (init + [last])[i]
  {
    forall i | 0 <= i < |init + [last]| ensures c !in (init + [last])[i] {
      if i < |init| {
        assert (init + [last])[i] == init[i];
      }
    }
  }

  /** PHP `implode(c, parts)` for a non-empty list of parts. */
  function Join(parts: seq<string>, c: char): string
    requires |parts| >= 1
  {
    if |parts| == 1 then parts[0]
    else Join(parts[..|parts| - 1], c) + [c] + parts[|parts| - 1]
  }

  /** Concatenation is associative. */
  lemma AppendAssoc<T>(a: seq<T>, b: seq<T>, c: seq<T>)
    ensures (a + b) + c == a + (b + c)
  {
  }

  /** A join is at least as long as its first part. */
  lemma {:induction false} JoinHasFirst(parts: seq<string>, c: char)
    requires |parts| >= 1
    ensures |Join(parts, c)| >= |parts[0]|
    decreases |parts|
  {
    if |parts| > 1 {
      JoinHasFirst(parts[..|parts| - 1], c);
    }
  }

  /** Joining the parts of a split gives back the string. */
  lemma {:induction false} JoinSplit(s: string, c: char)
    ensures Join(Split(s, c), c) == s
    decreases |s|
  {
    var k := LastIndexOf(s, c);
    if k >= 0 {
      var ps := Split(s[..k], c);
      JoinSplit(s[..k], c);
      assert Split(s, c) == ps + [s[k + 1..]];
      assert (ps + [s[k + 1..]])[..|ps|] == ps;
      assert s == s[..k] + [c] + s[k + 1..];
    }
  }

  /** Splitting a join of separator-free parts gives back the parts. */
  lemma {:induction false} SplitJoin(parts: seq<string>, c: char)
    requires |parts| >= 1
    requires forall i :: 0 <= i < |parts| ==> c !in parts[i]
    ensures Split(Join(parts, c), c) == parts
  {
    if |parts| > 1 {
      var init := parts[..|parts| - 1];
      var last := parts[|parts| - 1];
      SplitJoin(init, c);
      SplitSnoc(Join(init, c), c, last);
      assert init + [last] == parts;
    }
  }

  lemma SplitSnoc(s: string, c: char, last: string)
    requires c !in last
    ensures Split(s + [c] + last, c) == Split(s, c) + [last]
  {
    var t := s + [c] + last;
    assert t[|s|] == c;
    assert t[|s| + 1..] == last;
    LastIndexIsLast(t, c, |s|);
    assert t[..|s|] == s;
  }

  lemma LastIndexIsLast(s: string, c: char, k: int)
    requires 0 <= k < |s| && s[k] == c && c !in s[k + 1..]
    ensures LastIndexOf(s, c) == k
    decreases |s|
  {
    if s[|s| - 1] != c {
      assert s[..|s| - 1][k + 1..] == s[k + 1..|s| - 1];
      LastIndexIsLast(s[..|s| - 1], c, k);
    }
  }

  /** The text after the last '/' (PHP `end(explode('/', s))`). */
  function LastSegment(s: string): (r: string)
    ensures '/' !in r
  {
    var parts := Split(s, '/');
    parts[|parts| - 1]
  }

  /** A resource name `prefix/id` with a slash-free id yields exactly that id. */
  lemma LastSegmentOfName(prefix: string, id: string)
    requires '/' !in id
    ensures LastSegment(prefix + "/" + id) == id
  {
    var s := prefix + "/" + id;
    LastIndexIsLast(s, '/', |prefix|);
    assert s[|prefix| + 1..] == id;
  }

  // ------------------------------------------------------------ decimals

  predicate IsDigit(c: char) {
    '0' <= c <= '9'
  }

  function DigitChar(d: nat): (c: char)
    requires d < 10
    ensures IsDigit(c) && c as int - '0' as int == d
  {
    (d + '0' as int) as char
  }

  /** Decimal numeral of a natural number, without leading zeros. */
  function NatToDecimal(n: nat): (r: string)
    ensures |r| >= 1
    ensures forall i :: 0 <= i < |r| ==> IsDigit(r[i])
    decreases n
  {
    if n < 10 then [DigitChar(n)] else NatToDecimal(n / 10) + [DigitChar(n % 10)]
  }

  /** PHP `(string)$i` for an integer. */
  function IntToDecimal(i: int): (r: string)
    ensures |r| >= 1
  {
    if i < 0 then "-" + NatToDecimal(-i) else NatToDecimal(i)
  }

  /** Value of a string of digits. */
  function DigitsValue(ds: string): nat
    requires forall i :: 0 <= i < |ds| ==> IsDigit(ds[i])
  {
    if |ds| == 0 then 0
    else
      assert IsDigit(ds[|ds| - 1]);
      var d := ds[|ds| - 1] as int - '0' as int;
      DigitsValue(ds[..|ds| - 1]) * 10 + d
  }

  /** The longest prefix of `s` made of digits. */
  function LeadingDigits(s: string): (r: string)
    ensures |r| <= |s| && r == s[..|r|]
    ensures forall i :: 0 <= i < |r| ==> IsDigit(r[i])
    ensures |r| < |s| ==> !IsDigit(s[|r|])
  {
    if |s| == 0 || !IsDigit(s[0]) then "" else [s[0]] + LeadingDigits(s[1..])
  }

  /** PHP's blank characters skipped before a number: space, \t, \n, \r, \v, \f. */
  predicate IsPhpBlank(c: char) {
    c == ' ' || c == '\t' || c == '\n' || c == '\r' || c == 11 as char || c == 12 as char
  }

  function DropBlanks(s: string): (r: string)
    ensures |r| <= |s| && r == s[|s| - |r|..]
    ensures |r| > 0 ==> !IsPhpBlank(r[0])
  {
    if |s| > 0 && IsPhpBlank(s[0]) then DropBlanks(s[1..]) else s
  }

  /**
   * PHP `(int)$s`: leading blanks, an optional sign, then the longest run of
   * digits; a string without such a run reads as 0.
   */
  function IntCast(s: string): int {
    var t := DropBlanks(s);
    if |t| > 0 && t[0] == '-' then 0 - DigitsValue(LeadingDigits(t[1..])) as int
    else if |t| > 0 && t[0] == '+' then DigitsValue(LeadingDigits(t[1..]))
    else DigitsValue(LeadingDigits(t))
  }

  lemma {:induction false} DigitsValueOfDecimal(n: nat)
    ensures DigitsValue(NatToDecimal(n)) == n
    decreases n
  {
    if n >= 10 {
      var r := NatToDecimal(n);
      DigitsValueOfDecimal(n / 10);
      assert r[..|r| - 1] == NatToDecimal(n / 10);
    }
  }

  lemma LeadingDigitsOfDigits(ds: string)
    requires forall i :: 0 <= i < |ds| ==> IsDigit(ds[i])
    ensures LeadingDigits(ds) == ds
  {
    if |ds| > 0 {
      LeadingDigitsOfDigits(ds[1..]);
    }
  }

  /** Reading back the decimal numeral of an integer gives the integer. */
  lemma IntCastOfDecimal(i: int)
    ensures IntCast(IntToDecimal(i)) == i
  {
    if i < 0 {
      NegativeCast(-i);
    } else {
      NaturalCast(i);
    }
  }

  lemma NaturalCast(n: nat)
    ensures IntCast(NatToDecimal(n)) == n
  {
    var ds := NatToDecimal(n);
    DigitsValueOfDecimal(n);
    LeadingDigitsOfDigits(ds);
    assert IsDigit(ds[0]);
    assert !IsPhpBlank(ds[0]) && ds[0] != '-' && ds[0] != '+';
    assert DropBlanks(ds) == ds;
  }

  lemma NegativeCast(n: nat)
    requires n > 0
    ensures IntCast("-" + NatToDecimal(n)) == 0 - n
  {
    DigitsValueOfDecimal(n);
    SignedCast(NatToDecimal(n));
  }

  /** A minus sign followed by digits reads as the negated value of the digits. */
  lemma SignedCast(ds: string)
    requires forall i :: 0 <= i < |ds| ==> IsDigit(ds[i])
    ensures IntCast("-" + ds) == 0 - DigitsValue(ds)
  {
    LeadingDigitsOfDigits(ds);
    var t := "-" + ds;
    assert !IsPhpBlank(t[0]);
    assert DropBlanks(t) == t;
    assert t[1..] == ds;
  }

  /** Decimal numerals are injective. */
  lemma IntToDecimalInjective(i: int, j: int)
    requires IntToDecimal(i) == IntToDecimal(j)
    ensures i == j
  {
    IntCastOfDecimal(i);
    IntCastOfDecimal(j);
  }

  // ----------------------------------------------------------- searching

  predicate MatchAt(s: string, sub: string, i: int) {
    0 <= i && i + |sub| <= |s| && s[i..i + |sub|] == sub
  }

  /** `sub` occurs in `s` (JavaScript `includes`, PHP `str_contains`). */
  predicate Contains(s: string, sub: string) {
    exists i :: 0 <= i <= |s| && MatchAt(s, sub, i)
  }

  lemma EmptyIsContained(s: string)
    ensures Contains(s, "")
  {
    assert MatchAt(s, "", 0);
  }

  /** PHP 8 `stripos($h, $n) !== false`: ASCII-case-insensitive containment. */
  predicate ContainsIgnoreCase(haystack: string, needle: string) {
    Contains(Lower(haystack), Lower(needle))
  }

  // ------------------------------------------------------ JavaScript text

  /** JavaScript white space and line terminators (`\s`, and what `trim` removes). */
  predicate IsJsSpace(c: char) {
    var n := c as int;
    (9 <= n <= 13) || n == 0x20 || n == 0xA0 || n == 0x1680 || (0x2000 <= n <= 0x200A)
    || n == 0x2028 || n == 0x2029 || n == 0x202F || n == 0x205F || n == 0x3000 || n == 0xFEFF
  }

  function TrimStart(s: string): (r: string)
    ensures |r| <= |s| && r == s[|s| - |r|..]
    ensures |r| > 0 ==> !IsJsSpace(r[0])
    ensures forall i :: 0 <= i < |s| - |r| ==> IsJsSpace(s[i])
  {
    if |s| > 0 && IsJsSpace(s[0]) then TrimStart(s[1..]) else s
  }

  function TrimEnd(s: string): (r: string)
    ensures |r| <= |s| && r == s[..|r|]
    ensures |r| > 0 ==> !IsJsSpace(r[|r| - 1])
    ensures forall i :: |r| <= i < |s| ==> IsJsSpace(s[i])
  {
    if |s| > 0 && IsJsSpace(s[|s| - 1]) then TrimEnd(s[..|s| - 1]) else s
  }

  /** JavaScript `String.prototype.trim`. */
  function Trim(s: string): (r: string)
    ensures |r| > 0 ==> !IsJsSpace(r[0]) && !IsJsSpace(r[|r| - 1])
    ensures Contains(s, r)
    ensures (forall i :: 0 <= i < |s| ==> IsJsSpace(s[i])) <==> r == ""
  {
    var t := TrimStart(s);
    var r := TrimEnd(t);
    assert MatchAt(s, r, |s| - |t|);
    TrimmedAway(s, t, r);
    r
  }

  lemma TrimmedAway(s: string, t: string, r: string)
    requires t == TrimStart(s) && r == TrimEnd(t)
    ensures (forall i :: 0 <= i < |s| ==> IsJsSpace(s[i])) <==> r == ""
  {
    if r == "" {
      assert t == "";
    }
  }

  /** Length of a string in UTF-16 code units (JavaScript `length`). */
  function Utf16Length(s: string): (n: nat)
    ensures n >= |s|
  {
    if |s| == 0 then 0
    else (if s[0] as int >= 0x10000 then 2 else 1) + Utf16Length(s[1..])
  }
}
