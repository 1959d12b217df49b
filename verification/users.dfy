/**
 * UserModel: the user upsert that keeps an existing user's creation time
 * and code, lookup by code, the status update, and the demo session user.
 */
module Users {
  import opened Optional
  import opened Strings
  import opened Php
  import opened Records
  import Store
  import Codec

  /** `users/{id}`. */
  function UserPath(userId: string): string {
    "users" + "/" + userId
  }

  // --------------------------------------------------------------- upsert

  /**
   * The user `createUser` writes: `existing` is what the store held for the
   * user (null for a new user), `hash` the source of a fresh code, `now` the
   * clock in seconds.
   */
  function UserFields(userData: Value, existing: Value, hash: string, now: int): seq<(string, Value)> {
    Named(UserFieldNames, [
      Field(userData, "name"),
      Coalesce(userData, "email", Null),
      Coalesce(userData, "phone", Null),
      Coalesce(userData, "avatar", Null),
      Str("online"),
      Int(now * 1000),
      Coalesce(existing, "created_at", Int(now * 1000)),
      Coalesce(existing, "user_code", Str(CodeFrom(hash)))])
  }

  lemma UserNamesDistinct(userData: Value, existing: Value, hash: string, now: int)
    ensures DistinctNames(UserFields(userData, existing, hash, now))
  {
    var fs := UserFields(userData, existing, hash, now);
    UserFieldNamesDistinct();
    DistinctByNames(fs, UserFieldNames);
  }

  const UserFieldNames: seq<string> := ["name", "email", "phone", "avatar", "status", "last_seen", "created_at", "user_code"]

  lemma UserFieldNamesDistinct()
    ensures Distinct(UserFieldNames)
  {
    var ns := UserFieldNames;
    forall i, j | 0 <= i < j < |ns| ensures ns[i] != ns[j] {
      assert |ns[i]| != |ns[j]| || ns[i][0] != ns[j][0];
    }
  }

  /**
   * `createUser`: read the user, then merge the new fields into the
   * document; `http` is the status of the update, whose outcome is returned.
   */
  function CreateUser(db: Store.Db, userId: string, userData: Value, hash: string, now: int, http: int): (r: (bool, Store.Db))
    ensures r.0 == Codec.WriteSucceeded(http)
    ensures !r.0 ==> r.1 == db
    ensures forall p :: p != UserPath(userId) ==> Store.Stored(r.1, p) == Store.Stored(db, p)
  {
    var existing := Store.ReadValue(db, UserPath(userId));
    UserRecordNotEmpty(userData, existing, hash, now);
    Store.Update(db, UserPath(userId), Record(UserFields(userData, existing, hash, now)), http)
  }

  lemma UserRecordNotEmpty(userData: Value, existing: Value, hash: string, now: int)
    ensures Record(UserFields(userData, existing, hash, now)) != []
  {
    var fs := UserFields(userData, existing, hash, now);
    assert |Pairs(fs)| > 0;
  }

  /**
   * After the upsert the user is online, seen now, and keeps the creation
   * time and code it already had; a user without them gets the current time
   * and a fresh code. Fields the upsert does not name are kept. All of this
   * holds when the update succeeds; a failed update changes nothing, as
   * `CreateUser` states.
   */
  lemma CreateUserKeeps(db: Store.Db, userId: string, userData: Value, hash: string, now: int, http: int, other: string)
    requires other !in UserFieldNames
    ensures var before := Store.ReadValue(db, UserPath(userId));
      var (ok, db') := CreateUser(db, userId, userData, hash, now, http);
      var after := Arr(Store.Stored(db', UserPath(userId)));
      ok ==>
      && Field(after, "status") == Str("online")
      && Field(after, "last_seen") == Int(now * 1000)
      && Field(after, "name") == Field(userData, "name")
      && (Isset(before, "created_at") ==> Field(after, "created_at") == Field(before, "created_at"))
      && (!Isset(before, "created_at") ==> Field(after, "created_at") == Int(now * 1000))
      && (Isset(before, "user_code") ==> Field(after, "user_code") == Field(before, "user_code"))
      && (!Isset(before, "user_code") ==> Field(after, "user_code") == Str(CodeFrom(hash)))
      && Field(after, other) == Field(Arr(Store.Stored(db, UserPath(userId))), other)
  {
    var before := Store.ReadValue(db, UserPath(userId));
    var stored := Store.Stored(db, UserPath(userId));
    if Codec.WriteSucceeded(http) {
      assert Store.Stored(CreateUser(db, userId, userData, hash, now, http).1, UserPath(userId))
          == SetAll(stored, Record(UserFields(userData, before, hash, now)));
    }
    MergedUser(stored, userData, before, hash, now);
    MergedUserKeeps(stored, userData, before, hash, now, other);
  }

  lemma MergedUser(stored: Entries, userData: Value, before: Value, hash: string, now: int)
    ensures var after := Arr(SetAll(stored, Record(UserFields(userData, before, hash, now))));
      && Field(after, "status") == Str("online")
      && Field(after, "last_seen") == Int(now * 1000)
      && Field(after, "name") == Field(userData, "name")
      && Field(after, "created_at") == Coalesce(before, "created_at", Int(now * 1000))
      && Field(after, "user_code") == Coalesce(before, "user_code", Str(CodeFrom(hash)))
  {
    var fs := UserFields(userData, before, hash, now);
    UserNamesDistinct(userData, before, hash, now);
    MergeRecord(stored, fs, 0);
    MergeRecord(stored, fs, 4);
    MergeRecord(stored, fs, 5);
    MergeRecord(stored, fs, 6);
    MergeRecord(stored, fs, 7);
  }

  lemma MergedUserKeeps(stored: Entries, userData: Value, before: Value, hash: string, now: int, other: string)
    requires other !in UserFieldNames
    ensures Field(Arr(SetAll(stored, Record(UserFields(userData, before, hash, now)))), other) == Field(Arr(stored), other)
  {
    var fs := UserFields(userData, before, hash, now);
    MergeKeeps(stored, fs, other);
  }

  // ---------------------------------------------------------------- codes

  /** `getUserByCode`: the first listed user whose code is the upper-cased input, with its id. */
  function GetUserByCode(db: Store.Db, code: string): Option<Value> {
    FindByCode(Store.Read(db, "users"), "user_code", code)
  }

  /** A user found by code carries that code, upper-cased, and an id; when some listed user has the code, one is found. */
  lemma UserByCodeFound(db: Store.Db, code: string)
    ensures Store.Read(db, "users").None? ==> GetUserByCode(db, code).None?
    ensures GetUserByCode(db, code).Some? ==>
      var u := GetUserByCode(db, code).value;
      u.Arr? && Field(u, "user_code") == Str(Upper(code)) && Isset(u, "id")
    ensures Store.Read(db, "users").Some? ==>
      (GetUserByCode(db, code).Some? <==>
         exists i :: 0 <= i < |Store.Read(db, "users").value|
           && CodeMatches(Store.Read(db, "users").value[i].1, "user_code", Upper(code)))
  {
    if GetUserByCode(db, code).Some? {
      FoundHasCode(Store.Read(db, "users"), "user_code", code);
    }
    if Store.Read(db, "users").Some? {
      FindByCodeSpec(Store.Read(db, "users").value, "user_code", code);
    }
  }

  // --------------------------------------------------------------- status

  /** `updateStatus`: merge the status and the time it was set; `http` is the status of the update, whose outcome is returned. */
  function UpdateStatus(db: Store.Db, userId: string, status: Value, now: int, http: int): (r: (bool, Store.Db))
    ensures r.0 == Codec.WriteSucceeded(http)
    ensures !r.0 ==> r.1 == db
  {
    var fs := [("status", status), ("last_seen", Int(now * 1000))];
    assert |Pairs(fs)| > 0;
    Store.Update(db, UserPath(userId), Record(fs), http)
  }

  /** The status update writes exactly `status` and `last_seen`: every other field and every other document is as before. */
  lemma UpdateStatusWritesTwoFields(db: Store.Db, userId: string, status: Value, now: int, http: int, other: string)
    requires other != "status" && other != "last_seen"
    ensures var (ok, db') := UpdateStatus(db, userId, status, now, http);
      var after := Arr(Store.Stored(db', UserPath(userId)));
      ok ==>
      && Field(after, "status") == status
      && Field(after, "last_seen") == Int(now * 1000)
      && Field(after, other) == Field(Arr(Store.Stored(db, UserPath(userId))), other)
    ensures forall p :: p != UserPath(userId) ==>
      Store.Stored(UpdateStatus(db, userId, status, now, http).1, p) == Store.Stored(db, p)
  {
    var fs := [("status", status), ("last_seen", Int(now * 1000))];
    var stored := Store.Stored(db, UserPath(userId));
    assert DistinctNames(fs) by {
      assert fs[0].0[0] != fs[1].0[0];
    }
    MergeRecord(stored, fs, 0);
    MergeRecord(stored, fs, 1);
    MergeKeeps(stored, fs, other);
  }

  // -------------------------------------------------------------- session

  /** The demo user `getCurrentUser` answers with. */
  datatype SessionUser = SessionUser(id: string, name: string)

  /** `substr($s, -4)`: the last four characters, or all of a shorter string. */
  function LastFour(s: string): (r: string)
    ensures |r| == if |s| < 4 then |s| else 4
    ensures s == s[..|s| - |r|] + r
  {
    if |s| < 4 then s else s[|s| - 4..]
  }

  /**
   * `getCurrentUser` on a session modelled as a map: when the session lacks
   * the id or the name, both are set from `hash` (the md5 of the session
   * id); the answer is what the session then holds.
   */
  function GetCurrentUser(session: map<string, string>, hash: string): (r: (SessionUser, map<string, string>))
    ensures "user_id" in r.1 && "user_name" in r.1
    ensures r.0 == SessionUser(r.1["user_id"], r.1["user_name"])
    ensures forall k :: k in session && k != "user_id" && k != "user_name" ==> k in r.1 && r.1[k] == session[k]
  {
    if "user_id" !in session || "user_name" !in session then
      var id := "user_" + hash[..if |hash| < 8 then |hash| else 8];
      var s := session["user_id" := id]["user_name" := "User " + LastFour(id)];
      (SessionUser(id, "User " + LastFour(id)), s)
    else (SessionUser(session["user_id"], session["user_name"]), session)
  }

  /**
   * A session that already names a user is returned as is; otherwise the new
   * id is `user_` and up to eight characters of the hash, and the name is
   * `User ` and the id's last four characters. Asking again changes nothing.
   */
  lemma CurrentUserIsStable(session: map<string, string>, hash: string, hash2: string)
    ensures var (u, s) := GetCurrentUser(session, hash);
      && ("user_id" in session && "user_name" in session ==>
            s == session && u == SessionUser(session["user_id"], session["user_name"]))
      && (!("user_id" in session && "user_name" in session) ==>
            && |u.id| == 5 + (if |hash| < 8 then |hash| else 8)
            && u.id[..5] == "user_" && hash[..|u.id| - 5] == u.id[5..]
            && u.name == "User " + u.id[|u.id| - 4..])
      && GetCurrentUser(s, hash2) == (u, s)
  {
    var (u, s) := GetCurrentUser(session, hash);
    if !("user_id" in session && "user_name" in session) {
      assert u.id[..5] == "user_";
      assert u.id[5..] == hash[..|u.id| - 5];
    }
  }
}
