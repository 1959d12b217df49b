/**
 * What the four models share: PHP array literals with string keys, the
 * eight-character random codes of users and groups, lookup of a record by
 * its code, and the case-insensitive name key the lists are sorted by.
 */
module Records {
  import opened Optional
  import opened Strings
  import opened Php

  // ------------------------------------------------------------- literals

  /** The names of a literal are pairwise different. */
  predicate DistinctNames(fs: seq<(string, Value)>) {
    forall i, j :: 0 <= i < j < |fs| ==> fs[i].0 != fs[j].0
  }

  predicate Distinct(ns: seq<string>) {
    forall i, j :: 0 <= i < j < |ns| ==> ns[i] != ns[j]
  }

  /** A literal whose name list is free of repeats has distinct names. */
  lemma DistinctByNames(fs: seq<(string, Value)>, ns: seq<string>)
    requires |fs| == |ns| && Distinct(ns)
    requires forall i :: 0 <= i < |fs| ==> fs[i].0 == ns[i]
    ensures DistinctNames(fs)
  {
    forall i, j | 0 <= i < j < |fs| ensures fs[i].0 != fs[j].0 {
      assert ns[i] == fs[i].0 && ns[j] == fs[j].0;
    }
  }

  /** The field list of a literal whose names are `ns` and whose values are `vs`, in that order. */
  function Named(ns: seq<string>, vs: seq<Value>): (fs: seq<(string, Value)>)
    requires |ns| == |vs|
    ensures |fs| == |ns|
    ensures forall i :: 0 <= i < |ns| ==> fs[i] == (ns[i], vs[i])
  {
    seq(|ns|, i requires 0 <= i < |ns| => (ns[i], vs[i]))
  }

  /** A PHP array literal `['name' => value, ...]`: each name goes through key normalisation, a later duplicate overwrites. */
  function Record(fs: seq<(string, Value)>): Entries {
    SetAll([], Pairs(fs))
  }

  function Pairs(fs: seq<(string, Value)>): (ps: Entries)
    ensures |ps| == |fs|
    ensures forall i :: 0 <= i < |fs| ==> ps[i] == (NormKey(fs[i].0), fs[i].1)
  {
    seq(|fs|, i requires 0 <= i < |fs| => (NormKey(fs[i].0), fs[i].1))
  }

  /** A literal with distinct names holds exactly its entries, in order. */
  lemma RecordIsPairs(fs: seq<(string, Value)>)
    requires DistinctNames(fs)
    ensures Record(fs) == Pairs(fs)
    ensures DistinctKeys(Record(fs))
  {
    var ps := Pairs(fs);
    forall i, j | 0 <= i < j < |ps| ensures ps[i].0 != ps[j].0 {
      NormKeyInjective(fs[i].0, fs[j].0);
    }
    assert [] + ps == ps;
    SetAllFresh([], ps);
  }

  /** Reading a field of a literal gives the value written for that name. */
  lemma RecordField(fs: seq<(string, Value)>, i: int)
    requires DistinctNames(fs) && 0 <= i < |fs|
    ensures Field(Arr(Record(fs)), fs[i].0) == fs[i].1
    ensures Lookup(Record(fs), NormKey(fs[i].0)) == Some(fs[i].1)
  {
    RecordIsPairs(fs);
    var ps := Pairs(fs);
    forall j | 0 <= j < i ensures ps[j].0 != NormKey(fs[i].0) {
      NormKeyInjective(fs[j].0, fs[i].0);
    }
    FindFirst(ps, NormKey(fs[i].0), i);
  }

  /** A name the literal does not mention reads as absent. */
  lemma RecordMissing(fs: seq<(string, Value)>, name: string)
    requires forall i :: 0 <= i < |fs| ==> fs[i].0 != name
    ensures Lookup(Record(fs), NormKey(name)) == None
    ensures Field(Arr(Record(fs)), name) == Null
  {
    var ps := Pairs(fs);
    forall i | 0 <= i < |ps| ensures ps[i].0 != NormKey(name) {
      NormKeyInjective(fs[i].0, name);
    }
    SetAllLookup([], ps, NormKey(name));
  }

  /** Merging a literal into stored fields: each named field takes the literal's value. */
  lemma MergeRecord(stored: Entries, fs: seq<(string, Value)>, i: int)
    requires DistinctNames(fs) && 0 <= i < |fs|
    ensures Lookup(SetAll(stored, Record(fs)), NormKey(fs[i].0)) == Some(fs[i].1)
    ensures Field(Arr(SetAll(stored, Record(fs))), fs[i].0) == fs[i].1
  {
    var k := NormKey(fs[i].0);
    RecordLastValue(fs, i);
    SetAllLookup(stored, Record(fs), k);
  }

  /** The value a literal leaves under one of its names is the one written for it. */
  lemma RecordLastValue(fs: seq<(string, Value)>, i: int)
    requires DistinctNames(fs) && 0 <= i < |fs|
    ensures LastValue(Record(fs), NormKey(fs[i].0)) == Some(fs[i].1)
  {
    RecordIsPairs(fs);
    var ps := Record(fs);
    assert ps[i] == (NormKey(fs[i].0), fs[i].1);
    LastValueDistinct(ps, i);
  }

  /** Merging a literal into stored fields leaves every field it does not name as it was. */
  lemma MergeKeeps(stored: Entries, fs: seq<(string, Value)>, name: string)
    requires forall i :: 0 <= i < |fs| ==> fs[i].0 != name
    ensures Lookup(SetAll(stored, Record(fs)), NormKey(name)) == Lookup(stored, NormKey(name))
    ensures Field(Arr(SetAll(stored, Record(fs))), name) == Field(Arr(stored), name)
  {
    var k := NormKey(name);
    RecordMissing(fs, name);
    var r := Record(fs);
    assert Find(r, k) < 0;
    assert LastValue(r, k).None?;
    SetAllLookup(stored, r, k);
  }

  /** Merging a one-entry literal leaves every other field as it was. */
  lemma MergeKeepsOne(stored: Entries, n: string, v: Value, name: string)
    requires n != name
    ensures Field(Arr(SetAll(stored, Record([(n, v)]))), name) == Field(Arr(stored), name)
  {
    MergeKeeps(stored, [(n, v)], name);
  }

  /** The `['success' => ..., 'message' => ...]` arrays the models answer with; `data` is the extra entry a success carries. */
  datatype Reply = Reply(success: bool, message: string, data: Option<Value>)

  // ---------------------------------------------------------------- codes

  /**
   * `strtoupper(substr($hash, 0, 8))`, the code generators of UserModel and
   * GroupModel; the hash (an md5 of a random id) is a parameter.
   */
  function CodeFrom(hash: string): (code: string)
    ensures |code| == if |hash| < 8 then |hash| else 8
    ensures forall i :: 0 <= i < |code| ==> code[i] == UpperChar(hash[i])
    ensures Upper(code) == code
  {
    var k := if |hash| < 8 then |hash| else 8;
    UpperIsNormal(hash[..k]);
    Upper(hash[..k])
  }

  /** `isset($r[field]) && $r[field] === $want`. */
  predicate CodeMatches(r: Value, field: string, want: string) {
    Isset(r, field) && Field(r, field) == Str(want)
  }

  /** Position of the first listed record whose `field` is `want`, or -1. */
  function FirstMatch(es: Entries, field: string, want: string): (i: int)
    ensures -1 <= i < |es|
    ensures i >= 0 ==> CodeMatches(es[i].1, field, want)
    ensures i >= 0 ==> forall j :: 0 <= j < i ==> !CodeMatches(es[j].1, field, want)
    ensures i < 0 <==> forall j :: 0 <= j < |es| ==> !CodeMatches(es[j].1, field, want)
  {
    if |es| == 0 then -1
    else if CodeMatches(es[0].1, field, want) then 0
    else
      var i := FirstMatch(es[1..], field, want);
      assert forall j :: 1 <= j < |es| ==> es[j] == es[1..][j - 1];
      if i < 0 then -1 else i + 1
  }

  /**
   * `getUserByCode` / `getGroupByCode` on the listing the store returned:
   * the first record whose code is identical to the upper-cased input, with
   * its id (the listing key) attached; null on a failed read or no match.
   */
  function FindByCode(listing: Option<Entries>, field: string, code: string): (r: Option<Value>)
    ensures listing.None? ==> r.None?
  {
    match listing
    case None => None
    case Some(es) =>
      var i := FirstMatch(es, field, Upper(code));
      if i < 0 then None else Some(WithField(es[i].1, "id", KeyValue(es[i].0)))
  }

  /** Lookup by code finds a record exactly when one matches, and returns the first match with its id. */
  lemma FindByCodeSpec(es: Entries, field: string, code: string)
    ensures FindByCode(Some(es), field, code).Some?
        <==> exists i :: 0 <= i < |es| && CodeMatches(es[i].1, field, Upper(code))
    ensures forall i ::
      (0 <= i < |es| && CodeMatches(es[i].1, field, Upper(code))
       && (forall j :: 0 <= j < i ==> !CodeMatches(es[j].1, field, Upper(code))))
      ==> FindByCode(Some(es), field, code) == Some(WithField(es[i].1, "id", KeyValue(es[i].0)))
  {
  }

  /** The record found carries the code asked for (upper-cased) and its id. */
  lemma FoundHasCode(listing: Option<Entries>, field: string, code: string)
    requires FindByCode(listing, field, code).Some? && field != "id"
    ensures var r := FindByCode(listing, field, code).value;
      r.Arr? && Field(r, field) == Str(Upper(code)) && Isset(r, "id")
  {
    var es := listing.value;
    var i := FirstMatch(es, field, Upper(code));
    var r := WithField(es[i].1, "id", KeyValue(es[i].0));
    NormKeyInjective(field, "id");
    assert Field(r, field) == Field(es[i].1, field);
  }

  // -------------------------------------------------------------- sorting

  /** The key of `strcasecmp($a['name'] ?? '', $b['name'] ?? '')`. */
  function NameKey(r: Value): seq<int> {
    FoldedCodes(AsString(Coalesce(r, "name", Str(""))))
  }
}
