/**
 * The Firestore REST client of config/database.php, apart from transport:
 * the tagged wire value and its two conversions (`toFirestoreValue`,
 * `fromFirestoreValue`), document decoding, the interpretation of `get` and
 * `push` responses, and the requests `set`, `update` and `push` build.
 */
module Codec {
  import opened Optional
  import opened Strings
  import opened Php
  import UrlEncoding

  /**
   * A Firestore value on the wire. `Untagged` stands for a value object
   * that carries none of the tags the client reads (an empty object, or a
   * `doubleValue`, which is outside the model). A `mapValue` without
   * `fields` or an `arrayValue` without `values` reads exactly as an empty
   * one, so both are represented by the empty sequence.
   */
  datatype Tagged =
    | NullValue
    | BooleanValue(b: bool)
    | IntegerValue(digits: string)
    | StringValue(s: string)
    | TimestampValue(t: string)
    | MapValue(fields: seq<(string, Tagged)>)
    | ArrayValue(values: seq<Tagged>)
    | Untagged

  /** The `fields` object of a document or a map value. */
  type Fields = seq<(string, Tagged)>

  /** `toFirestoreValue`. */
  function Encode(v: Value): Tagged
    decreases v
  {
    match v
    case Null => NullValue
    case Bool(b) => BooleanValue(b)
    case Int(i) => IntegerValue(IntToDecimal(i))
    case Str(s) => StringValue(s)
    case Arr(es) =>
      if KeysAreRange(es) then
        ArrayValue(seq(|es|, i requires 0 <= i < |es| => Encode(es[i].1)))
      else
        MapValue(seq(|es|, i requires 0 <= i < |es| => (KeyName(es[i].0), Encode(es[i].1))))
  }

  /**
   * `fromFirestoreValue`. A `nullValue` reads as null (PHP's `isset` is
   * false for it, so it falls through to the final `return null`); map
   * member names go through PHP's key normalisation.
   */
  function Decode(t: Tagged): (v: Value)
    ensures t.MapValue? || t.ArrayValue? ==> v.Arr?
    decreases t
  {
    match t
    case NullValue => Null
    case BooleanValue(b) => Bool(b)
    case IntegerValue(ds) => Int(IntCast(ds))
    case StringValue(s) => Str(s)
    case TimestampValue(ts) => Str(ts)
    case MapValue(fs) =>
      Arr(SetAll([], seq(|fs|, i requires 0 <= i < |fs| => (NormKey(fs[i].0), Decode(fs[i].1)))))
    case ArrayValue(ts) => Arr(ListOf(seq(|ts|, i requires 0 <= i < |ts| => Decode(ts[i]))))
    case Untagged => Null
  }

  /** How a PHP array is sent: a list as `arrayValue`, anything else (the empty array included) as `mapValue`. */
  lemma EncodeArrayShape(es: Entries)
    ensures Encode(Arr(es)).ArrayValue? <==> IsList(es)
    ensures Encode(Arr(es)).MapValue? <==> !IsList(es)
    ensures IsList(es) ==> Encode(Arr(es)) == ArrayValue(EncodeValues(Values(es)))
    ensures !IsList(es) ==> Encode(Arr(es)) == MapValue(EncodeEntries(es))
    ensures Encode(Arr([])) == MapValue([])
  {
    KeysAreRangeIsList(es);
    KeysAreRangeIsList([]);
    assert Encode(Arr([])).fields == EncodeEntries([]);
    if IsList(es) {
      assert Encode(Arr(es)).values == EncodeValues(Values(es));
    } else {
      assert Encode(Arr(es)).fields == EncodeEntries(es);
    }
  }

  /** The encoded elements of a list, in order. */
  function EncodeValues(vs: seq<Value>): (ts: seq<Tagged>)
    ensures |ts| == |vs| && forall i :: 0 <= i < |vs| ==> ts[i] == Encode(vs[i])
  {
    seq(|vs|, i requires 0 <= i < |vs| => Encode(vs[i]))
  }

  /** The encoded members of a map (also the `fields` of a write request). */
  function EncodeEntries(es: Entries): (fs: Fields)
    ensures |fs| == |es|
    ensures forall i :: 0 <= i < |es| ==> fs[i] == (KeyName(es[i].0), Encode(es[i].1))
  {
    seq(|es|, i requires 0 <= i < |es| => (KeyName(es[i].0), Encode(es[i].1)))
  }

  /** Decoding the members of a `fields` object into a PHP array. */
  function DecodeFields(fs: Fields): Entries {
    Decode(MapValue(fs)).entries
  }

  /** Every well-formed PHP value survives the trip to the wire and back. */
  lemma {:induction false} RoundTrip(v: Value)
    requires WellFormed(v)
    ensures Decode(Encode(v)) == v
    decreases v
  {
    match v
    case Int(i) =>
      IntCastOfDecimal(i);
    case Arr(es) =>
      forall i | 0 <= i < |es| ensures Decode(Encode(es[i].1)) == es[i].1 {
        RoundTrip(es[i].1);
      }
      KeysAreRangeIsList(es);
      if IsList(es) {
        var ts := seq(|es|, i requires 0 <= i < |es| => Encode(es[i].1));
        var ds := seq(|ts|, i requires 0 <= i < |ts| => Decode(ts[i]));
        assert ListOf(ds) == es;
      } else {
        FieldsRoundTrip(es);
      }
    case _ =>
  }

  /** A map's members decode back to the same entries, in the same order. */
  lemma FieldsRoundTrip(es: Entries)
    requires DistinctKeys(es)
    requires forall i :: 0 <= i < |es| ==> ValidKey(es[i].0)
    requires forall i :: 0 <= i < |es| ==> Decode(Encode(es[i].1)) == es[i].1
    ensures DecodeFields(EncodeEntries(es)) == es
  {
    var fs := EncodeEntries(es);
    var pairs := seq(|fs|, i requires 0 <= i < |fs| => (NormKey(fs[i].0), Decode(fs[i].1)));
    assert DecodeFields(fs) == SetAll([], pairs);
    DecodedPairs(es, fs, pairs);
    assert [] + es == es;
    SetAllFresh([], es);
  }

  /** Each member decodes to the entry it was encoded from. */
  lemma DecodedPairs(es: Entries, fs: Fields, pairs: Entries)
    requires forall i :: 0 <= i < |es| ==> ValidKey(es[i].0)
    requires forall i :: 0 <= i < |es| ==> Decode(Encode(es[i].1)) == es[i].1
    requires fs == EncodeEntries(es) && |pairs| == |fs|
    requires forall i :: 0 <= i < |fs| ==> pairs[i] == (NormKey(fs[i].0), Decode(fs[i].1))
    ensures pairs == es
  {
    forall i | 0 <= i < |es| ensures pairs[i] == es[i] {
      NormKeyName(es[i].0);
    }
  }

  // ------------------------------------------------------------ responses

  /** A document object in a response: its resource `name` and its `fields`, each possibly absent. */
  datatype Document = Document(name: Option<string>, fields: Option<Fields>)

  /** The parts of a decoded response body the client reads. */
  datatype Body = Body(documents: Option<seq<Document>>, name: Option<string>, fields: Option<Fields>)

  datatype Response = Response(status: int, body: Body)

  /** `fromFirestoreDocument`: null without a `fields` member. */
  function FromDocument(d: Document): (r: Option<Entries>)
    ensures r.Some? <==> d.fields.Some?
  {
    match d.fields
    case None => None
    case Some(fs) => Some(DecodeFields(fs))
  }

  /** A listed document as a value: its decoded fields, or null. */
  function DocumentValue(d: Document): Value {
    match FromDocument(d)
    case Some(es) => Arr(es)
    case None => Null
  }

  /** The key a listed document is filed under: the last '/'-segment of its name. */
  function DocumentKey(d: Document): Key {
    NormKey(LastSegment(d.name.GetOr("")))
  }

  /** `get`: null on a failed request; a `documents` list becomes id => document; otherwise one document. */
  function Get(r: Response): Option<Entries> {
    if r.status != 200 then None
    else
      match r.body.documents
      case Some(ds) =>
        Some(SetAll([], seq(|ds|, i requires 0 <= i < |ds| => (DocumentKey(ds[i]), DocumentValue(ds[i])))))
      case None => FromDocument(Document(r.body.name, r.body.fields))
  }

  /** What `get` returns, for each shape of response. */
  lemma GetCases(r: Response)
    ensures r.status != 200 ==> Get(r) == None
    ensures r.status == 200 && r.body.documents.None? ==>
      Get(r) == FromDocument(Document(r.body.name, r.body.fields))
    ensures r.status == 200 && r.body.documents.None? && r.body.fields.None? ==> Get(r) == None
    ensures r.status == 200 && r.body.documents.Some? ==> Get(r).Some?
  {
  }

  /**
   * A listing whose documents have distinct ids comes back keyed by those
   * ids, in listing order, each holding its decoded fields.
   */
  lemma GetCollection(r: Response)
    requires r.status == 200 && r.body.documents.Some?
    requires DistinctKeys(Listing(r.body.documents.value))
    ensures Get(r) == Some(Listing(r.body.documents.value))
  {
    var ds := r.body.documents.value;
    assert [] + Listing(ds) == Listing(ds);
    SetAllFresh([], Listing(ds));
  }

  function Listing(ds: seq<Document>): (es: Entries)
    ensures |es| == |ds|
    ensures forall i :: 0 <= i < |ds| ==> es[i] == (DocumentKey(ds[i]), DocumentValue(ds[i]))
  {
    seq(|ds|, i requires 0 <= i < |ds| => (DocumentKey(ds[i]), DocumentValue(ds[i])))
  }

  /** A document named `.../collection/id` is filed under `id`. */
  lemma DocumentKeyOfName(prefix: string, id: string, fields: Option<Fields>)
    requires '/' !in id
    ensures DocumentKey(Document(Some(prefix + "/" + id), fields)) == NormKey(id)
  {
    LastSegmentOfName(prefix, id);
  }

  /** `push`: on status 200 the last segment of the created document's name, else null. */
  function PushResult(r: Response): Option<string> {
    if r.status == 200 then Some(LastSegment(r.body.name.GetOr(""))) else None
  }

  /** A push answered with `.../collection/id` returns `id`; any other status returns null. */
  lemma PushReturnsId(r: Response, prefix: string, id: string)
    requires r.body.name == Some(prefix + "/" + id) && '/' !in id
    ensures r.status == 200 ==> PushResult(r) == Some(id)
    ensures r.status != 200 ==> PushResult(r) == None
  {
    LastSegmentOfName(prefix, id);
  }

  /** `set`, `update` and `delete` report success exactly when the status is 200. */
  function WriteSucceeded(status: int): bool {
    status == 200
  }

  // -------------------------------------------------------------- requests

  const DocumentsUrl: string :=
    "https://firestore.googleapis.com/v1/projects/sendly-2702c/databases/(default)/documents"

  const MaskParam: string := "updateMask.fieldPaths="

  /** One `updateMask.fieldPaths=<key>` parameter. */
  function MaskPart(k: Key): string {
    MaskParam + UrlEncoding.UrlEncode(KeyName(k))
  }

  /** The mask parameters of `update`, one per key of the data, in order. */
  function MaskParts(data: Entries): (ps: seq<string>)
    ensures |ps| == |data|
    ensures forall i :: 0 <= i < |data| ==> ps[i] == MaskPart(data[i].0)
  {
    seq(|data|, i requires 0 <= i < |data| => MaskPart(data[i].0))
  }

  /** The query string of `update`: its mask parameters joined by '&'. */
  function UpdateMask(data: Entries): string {
    if |data| == 0 then "" else Join(MaskParts(data), '&')
  }

  /** The URL `update` sends its PATCH to. */
  function UpdateUrl(path: string, data: Entries): string {
    DocumentsUrl + "/" + path + "?" + UpdateMask(data)
  }

  /** The UTF-8 bytes of each key name of the data, in order. */
  function KeyBytes(data: Entries): (bs: seq<seq<UrlEncoding.Byte>>)
    ensures |bs| == |data|
    ensures forall i :: 0 <= i < |data| ==> bs[i] == UrlEncoding.Utf8(KeyName(data[i].0))
  {
    seq(|data|, i requires 0 <= i < |data| => UrlEncoding.Utf8(KeyName(data[i].0)))
  }

  /** Reading a mask query back: the field paths it names, as bytes, in order. */
  function MaskedPaths(query: string): Option<seq<seq<UrlEncoding.Byte>>> {
    if query == "" then Some([]) else MaskedParts(Split(query, '&'))
  }

  function MaskedParts(parts: seq<string>): Option<seq<seq<UrlEncoding.Byte>>> {
    if |parts| == 0 then Some([])
    else
      var p := parts[0];
      if |p| >= |MaskParam| && p[..|MaskParam|] == MaskParam then
        match (UrlEncoding.UrlDecode(p[|MaskParam|..]), MaskedParts(parts[1..]))
        case (Some(bs), Some(rest)) => Some([bs] + rest)
        case _ => None
      else None
  }

  /** The field paths named by the mask are exactly the keys of the data, in order. */
  lemma UpdateMaskNamesKeys(data: Entries)
    ensures MaskedPaths(UpdateMask(data)) == Some(KeyBytes(data))
  {
    if |data| > 0 {
      var parts := MaskParts(data);
      forall i | 0 <= i < |parts| ensures '&' !in parts[i] {
        UrlEncoding.UrlEncodeHasNoDelimiter(KeyName(data[i].0));
        assert '&' !in MaskParam;
      }
      assert UpdateMask(data) != "" by { JoinHasFirst(parts, '&'); }
      SplitJoin(parts, '&');
      MaskedPartsOf(data);
    }
  }

  lemma {:induction false} MaskedPartsOf(data: Entries)
    ensures MaskedParts(MaskParts(data)) == Some(KeyBytes(data))
  {
    if |data| > 0 {
      var parts := MaskParts(data);
      MaskedPartsOf(data[1..]);
      PartsTail(data);
      MaskPartDecodes(data[0].0);
      MaskedPartsStep(parts, KeyBytes(data)[0], KeyBytes(data[1..]));
    }
  }

  lemma PartsTail(data: Entries)
    requires |data| > 0
    ensures MaskParts(data)[1..] == MaskParts(data[1..])
    ensures KeyBytes(data) == [KeyBytes(data)[0]] + KeyBytes(data[1..])
  {
  }

  /** One mask parameter reads back as the key's bytes. */
  lemma MaskPartDecodes(k: Key)
    ensures var p := MaskPart(k);
      |p| >= |MaskParam| && p[..|MaskParam|] == MaskParam
      && UrlEncoding.UrlDecode(p[|MaskParam|..]) == Some(UrlEncoding.Utf8(KeyName(k)))
  {
    var p := MaskPart(k);
    assert p[..|MaskParam|] == MaskParam;
    assert p[|MaskParam|..] == UrlEncoding.UrlEncode(KeyName(k));
    UrlEncoding.UrlDecodeEncode(KeyName(k));
  }

  lemma MaskedPartsStep(parts: seq<string>, bs: seq<UrlEncoding.Byte>, rest: seq<seq<UrlEncoding.Byte>>)
    requires |parts| > 0 && |parts[0]| >= |MaskParam| && parts[0][..|MaskParam|] == MaskParam
    requires UrlEncoding.UrlDecode(parts[0][|MaskParam|..]) == Some(bs)
    requires MaskedParts(parts[1..]) == Some(rest)
    ensures MaskedParts(parts) == Some([bs] + rest)
  {
  }

  /** The `fields` body of `set`, `update` and `push`: every key of the data, in order, with its encoded value. */
  function WriteFields(data: Entries): (fs: Fields)
    ensures |fs| == |data|
  {
    EncodeEntries(data)
  }

  /** The body names exactly the keys the mask names, and each value reads back as written. */
  lemma WriteFieldsMatchMask(data: Entries)
    requires WellFormed(Arr(data))
    ensures forall i :: 0 <= i < |data| ==> WriteFields(data)[i].0 == KeyName(data[i].0)
    ensures DecodeFields(WriteFields(data)) == data
  {
    forall i | 0 <= i < |data| ensures Decode(Encode(data[i].1)) == data[i].1 {
      RoundTrip(data[i].1);
    }
    FieldsRoundTrip(data);
  }
}
