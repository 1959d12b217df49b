/**
 * ContactModel: a user's contacts at `users/{userId}/contacts/{id}`, listed
 * sorted by name, searched by name or phone, and added by the other user's
 * code behind a chain of guards.
 */
module Contacts {
  import opened Optional
  import opened Strings
  import opened Php
  import opened Sorting
  import opened Records
  import Store
  import Users

  function ContactsPath(userId: string): string {
    "users/" + userId + "/contacts"
  }

  function ContactPath(userId: string, contactId: string): string {
    ContactsPath(userId) + "/" + contactId
  }

  // -------------------------------------------------------------- listing

  /** The `foreach` of `getContacts`: each array entry with its id set, in listing order; other entries are skipped. */
  function Tagged(es: Entries): (cs: seq<Value>)
    ensures |cs| <= |es|
    ensures forall j :: 0 <= j < |cs| ==> cs[j].Arr? && Isset(cs[j], "id")
    decreases |es|
  {
    if |es| == 0 then []
    else
      var rest := Tagged(es[..|es| - 1]);
      var (k, v) := es[|es| - 1];
      if v.Arr? then rest + [WithField(v, "id", KeyValue(k))] else rest
  }

  /** Exactly the array entries are kept, each with its key as id. */
  lemma {:induction false} TaggedSpec(es: Entries)
    ensures forall i :: 0 <= i < |es| && es[i].1.Arr? ==> WithField(es[i].1, "id", KeyValue(es[i].0)) in Tagged(es)
    ensures forall c :: c in Tagged(es) ==>
      exists i :: 0 <= i < |es| && es[i].1.Arr? && c == WithField(es[i].1, "id", KeyValue(es[i].0))
    decreases |es|
  {
    if |es| > 0 {
      var init := es[..|es| - 1];
      TaggedSpec(init);
      forall c | c in Tagged(init)
        ensures exists i :: 0 <= i < |es| && es[i].1.Arr? && c == WithField(es[i].1, "id", KeyValue(es[i].0))
      {
        var i :| 0 <= i < |init| && init[i].1.Arr? && c == WithField(init[i].1, "id", KeyValue(init[i].0));
        assert es[i] == init[i];
      }
      forall i | 0 <= i < |es| - 1 && es[i].1.Arr?
        ensures WithField(es[i].1, "id", KeyValue(es[i].0)) in Tagged(es)
      {
        assert es[i] == init[i];
      }
    }
  }

  /** `getContacts`: the contacts sorted by name case-insensitively (a missing name as ''); `[]` when there are none. */
  function GetContacts(db: Store.Db, userId: string): (cs: seq<Value>)
    ensures forall j :: 0 <= j < |cs| ==> cs[j].Arr? && Isset(cs[j], "id")
  {
    match Store.Read(db, ContactsPath(userId))
    case None => []
    case Some(es) =>
      var tagged := Tagged(es);
      SortByCorrect(tagged, NameKey);
      forall j | 0 <= j < |SortBy(tagged, NameKey)| ensures SortBy(tagged, NameKey)[j] in multiset(tagged) { }
      SortBy(tagged, NameKey)
  }

  /** The list is a rearrangement of the tagged entries in name order. */
  lemma GetContactsSpec(db: Store.Db, userId: string)
    ensures Store.Read(db, ContactsPath(userId)).None? ==> GetContacts(db, userId) == []
    ensures Store.Read(db, ContactsPath(userId)).Some? ==>
      multiset(GetContacts(db, userId)) == multiset(Tagged(Store.Read(db, ContactsPath(userId)).value))
    ensures SortedBy(GetContacts(db, userId), NameKey)
  {
    match Store.Read(db, ContactsPath(userId))
    case None =>
    case Some(es) => SortByCorrect(Tagged(es), NameKey);
  }

  /** `getContact`: the document with its id attached, or null; the id is attached only when the contact exists. */
  function GetContact(db: Store.Db, userId: string, contactId: string): (r: Option<Value>)
    ensures r.Some? <==> Store.Read(db, ContactPath(userId, contactId)).Some?
    ensures r.Some? ==> r.value.Arr? && Field(r.value, "id") == Str(contactId)
    ensures r.Some? ==> forall n :: n != "id" ==>
      Field(r.value, n) == Field(Arr(Store.Read(db, ContactPath(userId, contactId)).value), n)
  {
    match Store.Read(db, ContactPath(userId, contactId))
    case None => None
    case Some(es) =>
      var r := WithField(Arr(es), "id", Str(contactId));
      forall n | n != "id" ensures Field(r, n) == Field(Arr(es), n) {
        WithFieldOthers(Arr(es), "id", Str(contactId), n);
      }
      Some(r)
  }

  // --------------------------------------------------------------- search

  /** `stripos($c['name'], $q) !== false || stripos($c['phone'], $q) !== false`. */
  predicate Matches(c: Value, query: string) {
    ContainsIgnoreCase(AsString(Field(c, "name")), query)
      || ContainsIgnoreCase(AsString(Field(c, "phone")), query)
  }

  /** `array_filter` over a list: the elements whose flag is set, under their original positions, in order. */
  function Filter(cs: seq<Value>, keep: seq<bool>): (r: Entries)
    requires |keep| == |cs|
    ensures forall j :: 0 <= j < |r| ==>
      r[j].0.IntKey? && 0 <= r[j].0.i < |cs| && r[j].1 == cs[r[j].0.i] && keep[r[j].0.i]
    ensures forall j, k :: 0 <= j < k < |r| ==> r[j].0.i < r[k].0.i
    ensures forall i :: 0 <= i < |cs| && keep[i] ==> (IntKey(i), cs[i]) in r
    decreases |cs|
  {
    if |cs| == 0 then []
    else
      var n := |cs| - 1;
      var rest := Filter(cs[..n], keep[..n]);
      if keep[n] then rest + [(IntKey(n), cs[n])] else rest
  }

  /** Which contacts match the query. */
  function Matching(cs: seq<Value>, query: string): (keep: seq<bool>)
    ensures |keep| == |cs|
    ensures forall i :: 0 <= i < |cs| ==> keep[i] == Matches(cs[i], query)
  {
    seq(|cs|, i requires 0 <= i < |cs| => Matches(cs[i], query))
  }

  /** `searchContacts`: the contacts whose name or phone contains the query, ignoring ASCII case. */
  function SearchContacts(db: Store.Db, userId: string, query: string): Entries {
    var cs := GetContacts(db, userId);
    Filter(cs, Matching(cs, query))
  }

  /** Search returns exactly the matching contacts of the list, in list order and under their list positions. */
  lemma SearchSpec(db: Store.Db, userId: string, query: string)
    ensures var cs := GetContacts(db, userId);
      var r := SearchContacts(db, userId, query);
      && (forall j :: 0 <= j < |r| ==> r[j].1 in cs && Matches(r[j].1, query))
      && (forall i :: 0 <= i < |cs| && Matches(cs[i], query) ==> (IntKey(i), cs[i]) in r)
      && (forall j, k :: 0 <= j < k < |r| ==> r[j].0.i < r[k].0.i)
  {
  }

  /** The empty query matches every contact, so it returns the whole list. */
  lemma EmptyQueryKeepsAll(db: Store.Db, userId: string)
    ensures |SearchContacts(db, userId, "")| == |GetContacts(db, userId)|
  {
    var cs := GetContacts(db, userId);
    forall i | 0 <= i < |cs| ensures Matches(cs[i], "") {
      EmptyIsContained(Lower(AsString(Field(cs[i], "name"))));
    }
    AllKept(cs, Matching(cs, ""));
  }

  lemma {:induction false} AllKept(cs: seq<Value>, keep: seq<bool>)
    requires |keep| == |cs| && forall i :: 0 <= i < |keep| ==> keep[i]
    ensures |Filter(cs, keep)| == |cs|
    decreases |cs|
  {
    if |cs| > 0 {
      AllKept(cs[..|cs| - 1], keep[..|cs| - 1]);
    }
  }

  // ------------------------------------------------------------------ add

  const CodeNotFound: string := "Kode pengguna tidak ditemukan"
  const CannotAddSelf: string := "Tidak dapat menambahkan diri sendiri"
  const AlreadyContact: string := "Kontak sudah ada"
  const ContactAdded: string := "Kontak berhasil ditambahkan"
  const AddFailed: string := "Gagal menambahkan kontak"

  /** Some contact in the list already refers to `target` (strict `===`). */
  predicate HasContact(cs: seq<Value>, target: Value) {
    exists i :: 0 <= i < |cs| && Isset(cs[i], "user_id") && Field(cs[i], "user_id") == target
  }

  /** The contact `addContactByCode` stores for the user found, with its defaults. */
  function ContactFields(target: Value, code: string, now: int): seq<(string, Value)> {
    Named(ContactFieldNames, [
      Field(target, "id"),
      Coalesce(target, "name", Str("Unknown")),
      Coalesce(target, "phone", Str("")),
      Coalesce(target, "email", Null),
      Coalesce(target, "avatar", Null),
      Coalesce(target, "user_code", Str(code)),
      Int(now * 1000)])
  }

  lemma ContactNamesDistinct(target: Value, code: string, now: int)
    ensures DistinctNames(ContactFields(target, code, now))
  {
    var fs := ContactFields(target, code, now);
    ContactFieldNamesDistinct();
    DistinctByNames(fs, ContactFieldNames);
  }

  const ContactFieldNames: seq<string> := ["user_id", "name", "phone", "email", "avatar", "user_code", "created_at"]

  lemma ContactFieldNamesDistinct()
    ensures Distinct(ContactFieldNames)
  {
    var ns := ContactFieldNames;
    forall i, j | 0 <= i < j < |ns| ensures ns[i] != ns[j] {
      assert |ns[i]| != |ns[j]| || ns[i][0] != ns[j][0];
    }
  }

  /**
   * `addContactByCode`: look the code up, refuse oneself and a user already
   * in the list, then push the contact; the reply carries the contact with
   * the new id.
   */
  function AddContactByCode(db: Store.Db, userId: string, code: string, now: int, newId: Option<string>)
    : (r: (Reply, Store.Db))
    ensures r.0.success <==> r.0.message == ContactAdded
    ensures !r.0.success ==> r.1 == db && r.0.data.None?
  {
    match Users.GetUserByCode(db, code)
    case None => (Reply(false, CodeNotFound, None), db)
    case Some(target) =>
      if Field(target, "id") == Str(userId) then (Reply(false, CannotAddSelf, None), db)
      else if HasContact(GetContacts(db, userId), Field(target, "id")) then (Reply(false, AlreadyContact, None), db)
      else SaveContact(db, userId, target, code, now, newId)
  }

  /** The last step of `addContactByCode`: push the contact for `target`; a failed push answers with a failure. */
  function SaveContact(db: Store.Db, userId: string, target: Value, code: string, now: int, newId: Option<string>)
    : (r: (Reply, Store.Db))
    ensures r.0.success <==> r.0.message == ContactAdded
    ensures !r.0.success ==> r.1 == db && r.0.data.None?
  {
    var fs := ContactFields(target, code, now);
    var pushed := Store.Push(db, ContactsPath(userId), Record(fs), newId);
    match pushed.0
    case None => (Reply(false, AddFailed, None), db)
    case Some(id) => (Reply(true, ContactAdded, Some(WithField(Arr(Record(fs)), "id", Str(id)))), pushed.1)
  }

  /** The guards in order: unknown code, then oneself, then an existing contact, then the push. */
  lemma AddContactGuards(db: Store.Db, userId: string, code: string, now: int, newId: Option<string>)
    ensures var m := AddContactByCode(db, userId, code, now, newId).0.message;
      var t := Users.GetUserByCode(db, code);
      && (m == CodeNotFound <==> t.None?)
      && (m == CannotAddSelf <==> t.Some? && Field(t.value, "id") == Str(userId))
      && (m == AlreadyContact <==>
            t.Some? && Field(t.value, "id") != Str(userId) && HasContact(GetContacts(db, userId), Field(t.value, "id")))
      && (m == ContactAdded ==>
            t.Some? && Field(t.value, "id") != Str(userId) && !HasContact(GetContacts(db, userId), Field(t.value, "id")))
  {
  }

  /**
   * A contact added is stored under the id the push returned, refers to the
   * user found, and fills in 'Unknown', '' and the code typed for what that
   * user lacks; the reply's contact is the stored one with its id.
   */
  lemma AddedContactStored(db: Store.Db, userId: string, code: string, now: int, newId: Option<string>)
    requires AddContactByCode(db, userId, code, now, newId).0.success
    ensures var (reply, db') := AddContactByCode(db, userId, code, now, newId);
      var t := Users.GetUserByCode(db, code).value;
      var id := newId.value;
      var c := Arr(Store.Stored(db', ContactPath(userId, id)));
      && Field(c, "user_id") == Field(t, "id")
      && (!Isset(t, "name") ==> Field(c, "name") == Str("Unknown"))
      && (!Isset(t, "phone") ==> Field(c, "phone") == Str(""))
      && (!Isset(t, "user_code") ==> Field(c, "user_code") == Str(code))
      && Field(c, "created_at") == Int(now * 1000)
      && reply.data == Some(WithField(c, "id", Str(id)))
  {
    var t := Users.GetUserByCode(db, code).value;
    assert AddContactByCode(db, userId, code, now, newId) == SaveContact(db, userId, t, code, now, newId);
    SavedContactStored(db, userId, t, code, now, newId);
  }

  lemma SavedContactStored(db: Store.Db, userId: string, target: Value, code: string, now: int, newId: Option<string>)
    requires SaveContact(db, userId, target, code, now, newId).0.success
    ensures var (reply, db') := SaveContact(db, userId, target, code, now, newId);
      var id := newId.value;
      var c := Arr(Store.Stored(db', ContactPath(userId, id)));
      && Field(c, "user_id") == Field(target, "id")
      && Field(c, "name") == Coalesce(target, "name", Str("Unknown"))
      && Field(c, "phone") == Coalesce(target, "phone", Str(""))
      && Field(c, "user_code") == Coalesce(target, "user_code", Str(code))
      && Field(c, "created_at") == Int(now * 1000)
      && reply.data == Some(WithField(c, "id", Str(id)))
  {
    var fs := ContactFields(target, code, now);
    var pushed := Store.Push(db, ContactsPath(userId), Record(fs), newId);
    ContactRecord(target, code, now);
    assert Store.Stored(pushed.1, ContactPath(userId, pushed.0.value)) == Record(fs);
  }

  /** The contact as a stored document: seven fields with their defaults, which a push stores unchanged. */
  lemma ContactRecord(target: Value, code: string, now: int)
    ensures var rec := Record(ContactFields(target, code, now));
      && SetAll([], rec) == rec
      && Field(Arr(rec), "user_id") == Field(target, "id")
      && Field(Arr(rec), "name") == Coalesce(target, "name", Str("Unknown"))
      && Field(Arr(rec), "phone") == Coalesce(target, "phone", Str(""))
      && Field(Arr(rec), "user_code") == Coalesce(target, "user_code", Str(code))
      && Field(Arr(rec), "created_at") == Int(now * 1000)
  {
    var fs := ContactFields(target, code, now);
    ContactNamesDistinct(target, code, now);
    RecordIsPairs(fs);
    assert [] + Record(fs) == Record(fs);
    SetAllFresh([], Record(fs));
    ContactRecordFields(target, code, now);
  }

  lemma ContactRecordFields(target: Value, code: string, now: int)
    ensures var rec := Record(ContactFields(target, code, now));
      && Field(Arr(rec), "user_id") == Field(target, "id")
      && Field(Arr(rec), "name") == Coalesce(target, "name", Str("Unknown"))
      && Field(Arr(rec), "phone") == Coalesce(target, "phone", Str(""))
      && Field(Arr(rec), "user_code") == Coalesce(target, "user_code", Str(code))
      && Field(Arr(rec), "created_at") == Int(now * 1000)
  {
    ContactNamesDistinct(target, code, now);
    ContactField(target, code, now, 0);
    ContactField(target, code, now, 1);
    ContactField(target, code, now, 2);
    ContactField(target, code, now, 5);
    ContactField(target, code, now, 6);
  }

  lemma ContactField(target: Value, code: string, now: int, i: int)
    requires 0 <= i < 7
    ensures var fs := ContactFields(target, code, now);
      Field(Arr(Record(fs)), fs[i].0) == fs[i].1
  {
    ContactNamesDistinct(target, code, now);
    RecordField(ContactFields(target, code, now), i);
  }
}
