/**
 * The Firestore database as the models see it through `FirebaseDatabase`
 * (config/database.php): documents addressed by slash-separated paths, each
 * holding the fields the client reads back. Encoding and decoding are left
 * to module Codec, whose round trip shows that well-formed values come back
 * as written; here a document simply holds PHP entries.
 */
module Store {
  import opened Optional
  import opened Strings
  import opened Php
  import Codec

  datatype Doc = Doc(path: string, fields: Entries)

  /** The database: its documents in listing order. */
  datatype Db = Db(docs: seq<Doc>)

  /** Position of the document stored under `path`, or -1. */
  function IndexOf(docs: seq<Doc>, path: string): (r: int)
    ensures -1 <= r < |docs|
    ensures r >= 0 ==> docs[r].path == path
    ensures r < 0 <==> forall j :: 0 <= j < |docs| ==> docs[j].path != path
  {
    if |docs| == 0 then -1
    else if docs[|docs| - 1].path == path then |docs| - 1
    else IndexOf(docs[..|docs| - 1], path)
  }

  /** No two documents share a path. */
  predicate UniquePaths(db: Db) {
    forall i, j :: 0 <= i < j < |db.docs| ==> db.docs[i].path != db.docs[j].path
  }

  /** The fields stored under `path`; a missing document has none. */
  function Stored(db: Db, path: string): Entries {
    var i := IndexOf(db.docs, path);
    if i < 0 then [] else db.docs[i].fields
  }

  // -------------------------------------------------------------- reading

  /**
   * A document path's `get`: Firestore omits `fields` for a document that
   * has none, and `fromFirestoreDocument` turns that into null, so an empty
   * document reads like a missing one.
   */
  function ReadDoc(db: Db, path: string): (r: Option<Entries>)
    ensures r.None? <==> Stored(db, path) == []
    ensures r.Some? ==> r.value == Stored(db, path)
  {
    var fs := Stored(db, path);
    if fs == [] then None else Some(fs)
  }

  /** The id of `path` inside collection `coll`: `path` is `coll/id` with a non-empty, slash-free id. */
  function ChildId(coll: string, path: string): (r: Option<string>)
    ensures r.Some? ==> path == coll + "/" + r.value && r.value != [] && '/' !in r.value
  {
    var pre := coll + "/";
    if |path| > |pre| && path[..|pre|] == pre && '/' !in path[|pre|..] then
      assert path == pre + path[|pre|..];
      Some(path[|pre|..])
    else None
  }

  lemma ChildIdOf(coll: string, id: string)
    requires id != [] && '/' !in id
    ensures ChildId(coll, coll + "/" + id) == Some(id)
  {
    var path := coll + "/" + id;
    assert path[..|coll + "/"|] == coll + "/";
    assert path[|coll + "/"|..] == id;
  }

  /** A listed document as a value: null when it has no fields. */
  function DocValue(fields: Entries): (v: Value)
    ensures v.Null? <==> fields == []
  {
    if fields == [] then Null else Arr(fields)
  }

  /** Positions of the documents directly inside `coll`, in listing order. */
  function ChildIndices(docs: seq<Doc>, coll: string): (ix: seq<int>)
    ensures forall j :: 0 <= j < |ix| ==> 0 <= ix[j] < |docs| && ChildId(coll, docs[ix[j]].path).Some?
    ensures forall j, k :: 0 <= j < k < |ix| ==> ix[j] < ix[k]
    ensures forall i :: 0 <= i < |docs| && ChildId(coll, docs[i].path).Some? ==> i in ix
    decreases |docs|
  {
    if |docs| == 0 then []
    else
      var rest := ChildIndices(docs[..|docs| - 1], coll);
      if ChildId(coll, docs[|docs| - 1].path).Some? then rest + [|docs| - 1] else rest
  }

  /** The listing entry of the document at position `i`. */
  function ChildEntry(docs: seq<Doc>, coll: string, i: int): (Key, Value)
    requires 0 <= i < |docs| && ChildId(coll, docs[i].path).Some?
  {
    (NormKey(ChildId(coll, docs[i].path).value), DocValue(docs[i].fields))
  }

  /** The documents directly inside `coll`, as id => value pairs in listing order. */
  function Children(docs: seq<Doc>, coll: string): (es: Entries)
    ensures |es| == |ChildIndices(docs, coll)|
    ensures forall j :: 0 <= j < |es| ==> es[j] == ChildEntry(docs, coll, ChildIndices(docs, coll)[j])
  {
    var ix := ChildIndices(docs, coll);
    seq(|ix|, j requires 0 <= j < |ix| => ChildEntry(docs, coll, ix[j]))
  }

  /** A collection's `get`: null when the collection is empty, else the listing keyed by id. */
  function List(db: Db, coll: string): (r: Option<Entries>)
    ensures r.None? <==> Children(db.docs, coll) == []
    ensures r.Some? ==> r.value != []
  {
    var cs := Children(db.docs, coll);
    if cs == [] then None else Some(SetAll([], cs))
  }

  /**
   * `FirebaseDatabase::get`: the document stored under `path`, or else the
   * documents directly below it. Whatever it returns is a non-empty array,
   * so PHP's `if ($x)` on the result is exactly "not null".
   */
  function Read(db: Db, path: string): (r: Option<Entries>)
    ensures r.Some? ==> r.value != []
  {
    if IndexOf(db.docs, path) >= 0 then ReadDoc(db, path) else List(db, path)
  }

  /** A path holding fields reads as exactly those fields. */
  lemma ReadStored(db: Db, path: string)
    requires Stored(db, path) != []
    ensures Read(db, path) == Some(Stored(db, path))
  {
  }

  /** A read as a PHP value: null or the array. */
  function ReadValue(db: Db, path: string): (v: Value)
    ensures v.Null? || (v.Arr? && v.entries != [])
  {
    match Read(db, path)
    case Some(es) => Arr(es)
    case None => Null
  }


  /** With unique paths, the listed ids are distinct. */
  lemma ChildrenDistinct(docs: seq<Doc>, coll: string)
    requires UniquePaths(Db(docs))
    ensures DistinctKeys(Children(docs, coll))
  {
    var ix := ChildIndices(docs, coll);
    var cs := Children(docs, coll);
    forall j, k | 0 <= j < k < |cs| ensures cs[j].0 != cs[k].0 {
      var a := ChildId(coll, docs[ix[j]].path).value;
      var b := ChildId(coll, docs[ix[k]].path).value;
      assert docs[ix[j]].path != docs[ix[k]].path;
      NormKeyInjective(a, b);
    }
  }

  /** With unique paths, a collection's `get` returns its listing exactly, one entry per document. */
  lemma ListIsChildren(db: Db, coll: string)
    requires UniquePaths(db)
    ensures Children(db.docs, coll) != [] ==> List(db, coll) == Some(Children(db.docs, coll))
  {
    ChildrenDistinct(db.docs, coll);
    var cs := Children(db.docs, coll);
    assert [] + cs == cs;
    SetAllFresh([], cs);
  }

  // -------------------------------------------------------------- writing

  /**
   * `update` (a PATCH with an update mask naming every key of `data`): true
   * exactly when the answer's status is 200, and then those fields are set
   * and the rest kept, a missing document being created; on any other
   * status nothing changes.
   */
  function Update(db: Db, path: string, data: Entries, status: int): (r: (bool, Db))
    requires data != []
    ensures r.0 == Codec.WriteSucceeded(status)
    ensures !r.0 ==> r.1 == db
    ensures r.0 ==> Stored(r.1, path) == SetAll(Stored(db, path), data)
    ensures forall p :: p != path ==> Stored(r.1, p) == Stored(db, p)
    ensures UniquePaths(db) ==> UniquePaths(r.1)
  {
    if Codec.WriteSucceeded(status) then (true, Patch(db, path, data)) else (false, db)
  }

  /** The effect of a successful PATCH: the fields of `data` set, the rest kept, a missing document created. */
  function Patch(db: Db, path: string, data: Entries): (r: Db)
    ensures Stored(r, path) == SetAll(Stored(db, path), data)
    ensures forall p :: p != path ==> Stored(r, p) == Stored(db, p)
    ensures UniquePaths(db) ==> UniquePaths(r)
  {
    var i := IndexOf(db.docs, path);
    if i < 0 then
      var r := Db(db.docs + [Doc(path, SetAll([], data))]);
      IndexOfSnoc(db.docs, Doc(path, SetAll([], data)));
      r
    else
      var r := Db(db.docs[i := Doc(path, SetAll(db.docs[i].fields, data))]);
      IndexOfUpdate(db.docs, i, SetAll(db.docs[i].fields, data));
      r
  }

  /** `push`: a new document `coll/id` under the generated id, or null when the request fails (`newId` absent) or the id is unusable. */
  function Push(db: Db, coll: string, data: Entries, newId: Option<string>): (r: (Option<string>, Db))
    ensures r.0.None? ==> r.1 == db
    ensures r.0.Some? ==> newId == r.0 && ChildId(coll, coll + "/" + r.0.value) == r.0
    ensures r.0.Some? ==> IndexOf(db.docs, coll + "/" + r.0.value) < 0
    ensures r.0.Some? ==> r.1.docs == db.docs + [Doc(coll + "/" + r.0.value, SetAll([], data))]
    ensures r.0.Some? ==> Stored(r.1, coll + "/" + r.0.value) == SetAll([], data)
    ensures r.0.Some? ==> forall p :: p != coll + "/" + r.0.value ==> Stored(r.1, p) == Stored(db, p)
    ensures UniquePaths(db) ==> UniquePaths(r.1)
  {
    match newId
    case None => (None, db)
    case Some(id) =>
      var path := coll + "/" + id;
      if id == [] || '/' in id || IndexOf(db.docs, path) >= 0 then (None, db)
      else
        ChildIdOf(coll, id);
        IndexOfSnoc(db.docs, Doc(path, SetAll([], data)));
        (Some(id), Db(db.docs + [Doc(path, SetAll([], data))]))
  }

  /** A successful push into an empty database leaves exactly the new document. */
  lemma PushIntoEmpty(coll: string, data: Entries, id: string)
    requires id != [] && '/' !in id
    ensures Push(Db([]), coll, data, Some(id)) == (Some(id), Db([Doc(coll + "/" + id, SetAll([], data))]))
  {
    var d := Doc(coll + "/" + id, SetAll([], data));
    assert [] + [d] == [d];
  }

  /** `delete`: true exactly when the answer's status is 200, and then the document under `path` is gone; nothing else changes, and on any other status nothing at all. */
  function Delete(db: Db, path: string, status: int): (r: (bool, Db))
    ensures r.0 == Codec.WriteSucceeded(status)
    ensures !r.0 ==> r.1 == db
    ensures r.0 ==> Stored(r.1, path) == []
    ensures forall p :: p != path ==> Stored(r.1, p) == Stored(db, p)
    ensures UniquePaths(db) ==> UniquePaths(r.1)
  {
    if Codec.WriteSucceeded(status) then (true, Remove(db, path)) else (false, db)
  }

  /** The effect of a successful DELETE. */
  function Remove(db: Db, path: string): (r: Db)
    ensures Stored(r, path) == []
    ensures forall p :: p != path ==> Stored(r, p) == Stored(db, p)
    ensures UniquePaths(db) ==> UniquePaths(r)
  {
    WithoutIndex(db.docs, path);
    if UniquePaths(db) then
      WithoutUnique(db.docs, path);
      Db(Without(db.docs, path))
    else Db(Without(db.docs, path))
  }

  /** The documents whose path is not `path`, in order. */
  function Without(docs: seq<Doc>, path: string): (r: seq<Doc>)
    ensures forall d :: d in r ==> d in docs && d.path != path
    decreases |docs|
  {
    if |docs| == 0 then []
    else
      var rest := Without(docs[..|docs| - 1], path);
      assert forall x :: x in docs[..|docs| - 1] ==> x in docs;
      if docs[|docs| - 1].path == path then rest else rest + [docs[|docs| - 1]]
  }

  /** Removing `path` leaves no document at it and every other document findable, at the same content. */
  ghost predicate KeepsIndexes(docs: seq<Doc>, path: string) {
    && IndexOf(Without(docs, path), path) < 0
    && forall p :: p != path ==>
      && (IndexOf(Without(docs, path), p) < 0 <==> IndexOf(docs, p) < 0)
      && (IndexOf(docs, p) >= 0 ==> Without(docs, path)[IndexOf(Without(docs, path), p)] == docs[IndexOf(docs, p)])
  }

  lemma {:induction false} WithoutIndex(docs: seq<Doc>, path: string)
    ensures KeepsIndexes(docs, path)
    decreases |docs|
  {
    if |docs| > 0 {
      var init := docs[..|docs| - 1];
      WithoutIndex(init, path);
      WithoutStep(init, docs[|docs| - 1], path);
      assert init + [docs[|docs| - 1]] == docs;
    }
  }

  lemma WithoutStep(init: seq<Doc>, d: Doc, path: string)
    requires KeepsIndexes(init, path)
    ensures KeepsIndexes(init + [d], path)
  {
    var docs := init + [d];
    assert docs[..|docs| - 1] == init;
    if d.path != path {
      assert Without(docs, path) == Without(init, path) + [d];
      KeptLast(init, d, path);
    } else {
      assert Without(docs, path) == Without(init, path);
      forall p | p != path ensures IndexOf(docs, p) == IndexOf(init, p) {
      }
    }
  }

  /** A last document at another path stays last, and everything before it keeps its place. */
  lemma KeptLast(init: seq<Doc>, d: Doc, path: string)
    requires KeepsIndexes(init, path) && d.path != path
    ensures var rest := Without(init, path);
      && IndexOf(rest + [d], path) < 0
      && forall p :: p != path ==>
        && (IndexOf(rest + [d], p) < 0 <==> IndexOf(init + [d], p) < 0)
        && (IndexOf(init + [d], p) >= 0 ==> (rest + [d])[IndexOf(rest + [d], p)] == (init + [d])[IndexOf(init + [d], p)])
  {
    var rest := Without(init, path);
    IndexOfSnoc(rest, d);
    IndexOfSnoc(init, d);
  }

  lemma {:induction false} WithoutUnique(docs: seq<Doc>, path: string)
    requires UniquePaths(Db(docs))
    ensures UniquePaths(Db(Without(docs, path)))
    decreases |docs|
  {
    if |docs| > 0 {
      var init := docs[..|docs| - 1];
      var d := docs[|docs| - 1];
      assert UniquePaths(Db(init));
      WithoutUnique(init, path);
      if d.path != path {
        var rest := Without(init, path);
        forall x | x in rest ensures x.path != d.path {
          var i :| 0 <= i < |init| && init[i] == x;
          assert docs[i] == x;
        }
        assert IndexOf(rest, d.path) < 0;
        IndexOfSnoc(rest, d);
      }
    }
  }

  lemma IndexOfSnoc(docs: seq<Doc>, d: Doc)
    ensures IndexOf(docs + [d], d.path) == |docs|
    ensures forall p :: p != d.path ==> IndexOf(docs + [d], p) == IndexOf(docs, p)
    ensures UniquePaths(Db(docs)) && IndexOf(docs, d.path) < 0 ==> UniquePaths(Db(docs + [d]))
  {
    assert (docs + [d])[..|docs|] == docs;
  }

  lemma {:induction false} IndexOfUpdate(docs: seq<Doc>, i: int, fs: Entries)
    requires 0 <= i < |docs|
    ensures forall p :: IndexOf(docs[i := Doc(docs[i].path, fs)], p) == IndexOf(docs, p)
    ensures UniquePaths(Db(docs)) ==> UniquePaths(Db(docs[i := Doc(docs[i].path, fs)]))
    decreases |docs|
  {
    var docs' := docs[i := Doc(docs[i].path, fs)];
    if i < |docs| - 1 {
      IndexOfUpdate(docs[..|docs| - 1], i, fs);
      assert docs'[..|docs| - 1] == docs[..|docs| - 1][i := Doc(docs[i].path, fs)];
    } else {
      assert docs'[..|docs| - 1] == docs[..|docs| - 1];
    }
  }

  // ---------------------------------------------------- reading back writes

  /** After a successful update, a document read of the path sees the merged fields; after a failed one, what it saw before. */
  lemma ReadAfterUpdate(db: Db, path: string, data: Entries, status: int)
    requires data != []
    ensures var (ok, r) := Update(db, path, data, status);
      && (ok ==> ReadDoc(r, path) == Some(SetAll(Stored(db, path), data)))
      && (ok ==> Read(r, path) == Some(SetAll(Stored(db, path), data)))
      && (!ok ==> Read(r, path) == Read(db, path))
  {
    var (ok, r) := Update(db, path, data, status);
    if ok {
      assert Stored(r, path) != [];
      assert IndexOf(r.docs, path) >= 0;
    }
  }

  /** One more document inside `coll` is one more listing entry, at the end. */
  lemma ChildrenSnoc(docs: seq<Doc>, d: Doc, coll: string)
    requires ChildId(coll, d.path).Some?
    ensures Children(docs + [d], coll)
         == Children(docs, coll) + [(NormKey(ChildId(coll, d.path).value), DocValue(d.fields))]
  {
    var docs' := docs + [d];
    assert docs'[..|docs'| - 1] == docs;
    var ix := ChildIndices(docs, coll);
    assert ChildIndices(docs', coll) == ix + [|docs|];
    forall j | 0 <= j < |ix| ensures ChildEntry(docs', coll, ix[j]) == ChildEntry(docs, coll, ix[j]) {
      assert docs'[ix[j]] == docs[ix[j]];
    }
  }

  /** A successful push adds exactly one entry, under the new id, at the end of its collection's listing. */
  lemma ChildrenAfterPush(db: Db, coll: string, data: Entries, newId: Option<string>)
    requires Push(db, coll, data, newId).0.Some?
    ensures var id := Push(db, coll, data, newId).0.value;
      Children(Push(db, coll, data, newId).1.docs, coll)
        == Children(db.docs, coll) + [(NormKey(id), DocValue(SetAll([], data)))]
  {
    var id := Push(db, coll, data, newId).0.value;
    ChildrenSnoc(db.docs, Doc(coll + "/" + id, SetAll([], data)), coll);
  }

  /** After a successful push, the collection's `get` holds the new document under its id. */
  lemma ListAfterPush(db: Db, coll: string, data: Entries, newId: Option<string>)
    requires Push(db, coll, data, newId).0.Some?
    requires IndexOf(db.docs, coll) < 0
    ensures var (id, r) := Push(db, coll, data, newId);
      Read(r, coll).Some?
      && Lookup(Read(r, coll).value, NormKey(id.value)) == Some(DocValue(SetAll([], data)))
  {
    var (id, r) := Push(db, coll, data, newId);
    ChildrenAfterPush(db, coll, data, newId);
    var cs := Children(db.docs, coll);
    var p := (NormKey(id.value), DocValue(SetAll([], data)));
    SetAllSnoc([], cs, p);
    assert IndexOf(r.docs, coll) < 0 by {
      assert coll != coll + "/" + id.value by { assert |coll| < |coll + "/" + id.value|; }
      IndexOfSnoc(db.docs, Doc(coll + "/" + id.value, SetAll([], data)));
    }
  }
}
