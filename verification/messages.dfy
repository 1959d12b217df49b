/**
 * MessageModel (models/MessageModel.php): the chat room a message belongs
 * to, sending, and reading a room's messages in timestamp order.
 */
module Messages {
  import opened Optional
  import opened Strings
  import opened Php
  import opened Sorting
  import opened Records
  import Store

  // ------------------------------------------------------------- chat ids

  function Codes(s: string): (r: seq<int>)
    ensures |r| == |s| && forall i :: 0 <= i < |s| ==> r[i] == s[i] as int
  {
    seq(|s|, i requires 0 <= i < |s| => s[i] as int)
  }

  /** `strcmp($a, $b) <= 0`: code point order, which is the byte order of UTF-8. */
  predicate StrLe(a: string, b: string) {
    LexLe(Codes(a), Codes(b))
  }

  lemma StrLeAntisymmetric(a: string, b: string)
    ensures StrLe(a, b) && StrLe(b, a) ==> a == b
  {
    if StrLe(a, b) && StrLe(b, a) {
      LexLeAntisymmetric(Codes(a), Codes(b));
      assert forall i :: 0 <= i < |a| ==> a[i] as int == b[i] as int;
    }
  }

  /**
   * The comparison PHP 8's `sort()` applies to two strings by default:
   * by value when both are numeric strings, by `strcmp` otherwise. The
   * sign is what matters.
   */
  function PhpCompare(a: string, b: string): int {
    if IsNumeric(a) && IsNumeric(b) then
      (if NumValue(a) < NumValue(b) then -1 else if NumValue(a) > NumValue(b) then 1 else 0)
    else if a == b then 0
    else if StrLe(a, b) then -1
    else 1
  }

  /** `getChatId` as written: `sort([$a, $b])` with the default comparison, swapping only when the first compares greater. */
  function ChatIdAsWritten(a: string, b: string): string {
    if PhpCompare(a, b) > 0 then "chat_" + b + "_" + a else "chat_" + a + "_" + b
  }

  /**
   * The parties "01" and "1" compare equal, and so do ".5" and "0.5": the
   * stable sort keeps each caller's order and the two ids differ.
   */
  lemma ChatIdAsWrittenNotSymmetric()
    ensures ChatIdAsWritten("01", "1") != ChatIdAsWritten("1", "01")
    ensures ChatIdAsWritten(".5", "0.5") != ChatIdAsWritten("0.5", ".5")
  {
    OneAndZeroOne();
    TieBreaksSymmetry("01", "1");
    HalfTwoWays();
    TieBreaksSymmetry(".5", "0.5");
  }

  /** Two different numeric ids of equal value get a room that depends on who asks. */
  lemma TieBreaksSymmetry(a: string, b: string)
    requires IsNumeric(a) && IsNumeric(b) && NumValue(a) == NumValue(b)
    requires |a| > 0 && |b| > 0 && a[0] != b[0]
    ensures ChatIdAsWritten(a, b) != ChatIdAsWritten(b, a)
  {
    NumericTie(a, b);
    NumericTie(b, a);
    assert ("chat_" + a + "_" + b)[5] == a[0];
    assert ("chat_" + b + "_" + a)[5] == b[0];
  }

  /** Two numeric ids of equal value compare equal, and `sort` leaves them as given. */
  lemma NumericTie(a: string, b: string)
    requires IsNumeric(a) && IsNumeric(b) && NumValue(a) == NumValue(b)
    ensures PhpCompare(a, b) == 0
    ensures ChatIdAsWritten(a, b) == "chat_" + a + "_" + b
  {
  }

  /** Outside such ties the written version is symmetric: PHP's comparison is a total order on everything else. */
  lemma ChatIdAsWrittenSymmetricWithoutTies(a: string, b: string)
    requires a == b || PhpCompare(a, b) != 0
    ensures ChatIdAsWritten(a, b) == ChatIdAsWritten(b, a)
  {
    if a != b && !(IsNumeric(a) && IsNumeric(b)) {
      StrLeAntisymmetric(a, b);
      LexLeTotal(Codes(a), Codes(b));
    }
  }

  /**
   * `getChatId` as intended: the two ids in `strcmp` order (`sort($ids,
   * SORT_STRING)`), so both parties of a conversation derive the same room.
   */
  function ChatId(a: string, b: string): (r: string)
    ensures StrLe(a, b) ==> r == "chat_" + a + "_" + b
    ensures StrLe(b, a) ==> r == "chat_" + b + "_" + a
  {
    StrLeAntisymmetric(a, b);
    if StrLe(a, b) then "chat_" + a + "_" + b else "chat_" + b + "_" + a
  }

  lemma ChatIdSymmetric(a: string, b: string)
    ensures ChatId(a, b) == ChatId(b, a)
  {
    LexLeTotal(Codes(a), Codes(b));
  }

  /** Where the two versions can be told apart at all: only on two numeric ids. */
  lemma ChatIdAgreesOnText(a: string, b: string)
    requires !(IsNumeric(a) && IsNumeric(b))
    ensures ChatIdAsWritten(a, b) == ChatId(a, b)
  {
  }

  /** The room of a conversation: `getChatId` as written for a contact, `group_<id>` for a group. */
  function Room(userId: string, receiverId: string, toContact: bool): string {
    if toContact then ChatIdAsWritten(userId, receiverId) else "group_" + receiverId
  }

  /** Every member of a group uses one room; both parties of a contact chat do unless their ids tie. */
  lemma RoomIsShared(a: string, b: string, member: string, group: string)
    requires a == b || PhpCompare(a, b) != 0
    ensures Room(a, b, true) == Room(b, a, true)
    ensures Room(a, group, false) == Room(member, group, false) == "group_" + group
  {
    ChatIdAsWrittenSymmetricWithoutTies(a, b);
  }

  function RoomPath(room: string): string {
    "messages/" + room
  }

  // -------------------------------------------------------------- sending

  /** The fields of a stored message, in the order `sendMessage` writes them. */
  const MessageFieldNames: seq<string> := ["sender_id", "receiver_id", "receiver_type", "message",
    "file_url", "file_name", "file_type", "timestamp", "status"]

  /** The message `sendMessage` stores; the clock reading `now` is in seconds. */
  function MessageFields(data: Value, now: int): seq<(string, Value)> {
    Named(MessageFieldNames, [
      Field(data, "sender_id"),
      Field(data, "receiver_id"),
      Field(data, "receiver_type"),
      Field(data, "message"),
      Coalesce(data, "file_url", Null),
      Coalesce(data, "file_name", Null),
      Coalesce(data, "file_type", Null),
      Int(now * 1000),
      Str("sent")])
  }

  /** The room `sendMessage` pushes into: `receiver_type` must be exactly the string 'contact' for a chat id. */
  function SendRoom(data: Value): string {
    Room(AsString(Field(data, "sender_id")), AsString(Field(data, "receiver_id")),
         Field(data, "receiver_type") == Str("contact"))
  }

  /** `sendMessage`: the push result (the new message id, or null) and the database after it. */
  function SendMessage(db: Store.Db, data: Value, now: int, newId: Option<string>): (Option<string>, Store.Db) {
    Store.Push(db, RoomPath(SendRoom(data)), Record(MessageFields(data, now)), newId)
  }

  lemma MessageNamesDistinct(data: Value, now: int)
    ensures DistinctNames(MessageFields(data, now))
  {
    var fs := MessageFields(data, now);
    MessageFieldNamesDistinct();
    DistinctByNames(fs, MessageFieldNames);
  }

  lemma MessageFieldNamesDistinct()
    ensures Distinct(MessageFieldNames)
  {
    var ns := MessageFieldNames;
    forall i, j | 0 <= i < j < |ns| ensures ns[i] != ns[j] {
      assert |ns[i]| != |ns[j]| || ns[i][0] != ns[j][0] || ns[i][5] != ns[j][5];
    }
  }

  /** The stored message: status 'sent', stamped in milliseconds, the text as given, absent file fields null. */
  lemma MessageRecord(data: Value, now: int)
    ensures var m := Arr(Record(MessageFields(data, now)));
      && Field(m, "status") == Str("sent")
      && Field(m, "timestamp") == Int(now * 1000)
      && Field(m, "message") == Field(data, "message")
      && Field(m, "sender_id") == Field(data, "sender_id")
      && Field(m, "receiver_id") == Field(data, "receiver_id")
      && (!Isset(data, "file_url") ==> Field(m, "file_url") == Null)
      && (!Isset(data, "file_name") ==> Field(m, "file_name") == Null)
      && (!Isset(data, "file_type") ==> Field(m, "file_type") == Null)
  {
    var fs := MessageFields(data, now);
    MessageNamesDistinct(data, now);
    RecordField(fs, 0);
    RecordField(fs, 1);
    RecordField(fs, 3);
    RecordField(fs, 4);
    RecordField(fs, 5);
    RecordField(fs, 6);
    RecordField(fs, 7);
    RecordField(fs, 8);
  }

  /** A successful send stores that message under the returned id in the room; a failed push changes nothing. */
  lemma SendMessageStores(db: Store.Db, data: Value, now: int, newId: Option<string>)
    ensures var (id, db') := SendMessage(db, data, now, newId);
      && (id.None? ==> db' == db)
      && (id.Some? ==> id == newId)
      && (id.Some? ==> Store.Stored(db', RoomPath(SendRoom(data)) + "/" + id.value) == Record(MessageFields(data, now)))
  {
    var fs := MessageFields(data, now);
    MessageNamesDistinct(data, now);
    RecordIsPairs(fs);
    assert [] + Record(fs) == Record(fs);
    SetAllFresh([], Record(fs));
  }

  // -------------------------------------------------------------- reading

  /** PHP 8 arithmetic on a stored timestamp (`$a['timestamp'] - $b['timestamp']`): null is 0, a string is read as a number. */
  function Numeric(v: Value): int {
    match v
    case Int(i) => i
    case Bool(b) => if b then 1 else 0
    case Str(s) => IntCast(s)
    case _ => 0
  }

  /** A message's send time, `$m['timestamp']` as a number. */
  function Time(m: Value): int {
    Numeric(Field(m, "timestamp"))
  }

  /** The comparator's key: a message's timestamp. */
  function TimestampKey(m: Value): seq<int> {
    [Time(m)]
  }

  /** `foreach ($messages as $id => $message) { $message['id'] = $id; $messageArray[] = $message; }` */
  function WithIds(es: Entries): (ms: seq<Value>)
    ensures |ms| == |es|
    ensures forall i :: 0 <= i < |es| ==> ms[i] == WithField(es[i].1, "id", KeyValue(es[i].0))
  {
    seq(|es|, i requires 0 <= i < |es| => WithField(es[i].1, "id", KeyValue(es[i].0)))
  }

  /** The path `getMessages` reads. */
  function ReadPath(userId: string, receiverId: string, receiverType: string): string {
    RoomPath(Room(userId, receiverId, receiverType == "contact"))
  }

  /** `getMessages`: the room's messages with their ids, oldest first; none when the room reads as null. */
  function GetMessages(db: Store.Db, userId: string, receiverId: string, receiverType: string): seq<Value> {
    match Store.Read(db, ReadPath(userId, receiverId, receiverType))
    case None => []
    case Some(es) => ByTimestamp(WithIds(es))
  }

  /** `usort($messageArray, fn($a, $b) => $a['timestamp'] - $b['timestamp'])`. */
  function ByTimestamp(ms: seq<Value>): seq<Value> {
    SortBy(ms, TimestampKey)
  }

  /** The sort keeps every message and orders them by timestamp, oldest first. */
  lemma ByTimestampSpec(ms: seq<Value>)
    ensures multiset(ByTimestamp(ms)) == multiset(ms)
    ensures |ByTimestamp(ms)| == |ms|
    ensures forall i, j :: 0 <= i < j < |ms| ==>
      Time(ByTimestamp(ms)[i]) <= Time(ByTimestamp(ms)[j])
  {
    var ss := ByTimestamp(ms);
    SortByCorrect(ms, TimestampKey);
    forall i, j | 0 <= i < j < |ms|
      ensures Time(ss[i]) <= Time(ss[j])
    {
      assert LexLe(TimestampKey(ss[i]), TimestampKey(ss[j]));
    }
  }

  /** Every stored message comes back exactly once, in timestamp order; an unreadable room gives none. */
  lemma GetMessagesSpec(db: Store.Db, userId: string, receiverId: string, receiverType: string)
    ensures Store.Read(db, ReadPath(userId, receiverId, receiverType)).None? ==>
      GetMessages(db, userId, receiverId, receiverType) == []
    ensures Store.Read(db, ReadPath(userId, receiverId, receiverType)).Some? ==>
      multiset(GetMessages(db, userId, receiverId, receiverType))
        == multiset(WithIds(Store.Read(db, ReadPath(userId, receiverId, receiverType)).value))
    ensures var ms := GetMessages(db, userId, receiverId, receiverType);
      forall i, j :: 0 <= i < j < |ms| ==> Time(ms[i]) <= Time(ms[j])
  {
    match Store.Read(db, ReadPath(userId, receiverId, receiverType))
    case None =>
    case Some(es) => ByTimestampSpec(WithIds(es));
  }

  /** Messages with the same timestamp come back in the order the room stores them. */
  lemma GetMessagesStable(db: Store.Db, userId: string, receiverId: string, receiverType: string, t: int)
    requires Store.Read(db, ReadPath(userId, receiverId, receiverType)).Some?
    ensures WithKey(GetMessages(db, userId, receiverId, receiverType), TimestampKey, [t])
      == WithKey(WithIds(Store.Read(db, ReadPath(userId, receiverId, receiverType)).value), TimestampKey, [t])
  {
    var ws := WithIds(Store.Read(db, ReadPath(userId, receiverId, receiverType)).value);
    SortByStable(ws, TimestampKey, [t]);
  }

  /** Each message returned is an array carrying its id. */
  lemma GetMessagesHaveIds(db: Store.Db, userId: string, receiverId: string, receiverType: string)
    ensures var ms := GetMessages(db, userId, receiverId, receiverType);
      forall i :: 0 <= i < |ms| ==> ms[i].Arr? && Isset(ms[i], "id")
  {
    var ms := GetMessages(db, userId, receiverId, receiverType);
    match Store.Read(db, ReadPath(userId, receiverId, receiverType))
    case None =>
    case Some(es) =>
      var ws := WithIds(es);
      ByTimestampSpec(ws);
      forall i | 0 <= i < |ms| ensures ms[i].Arr? && Isset(ms[i], "id") {
        assert ms[i] in multiset(ws);
        var k :| 0 <= k < |ws| && ws[k] == ms[i];
        assert KeyValue(es[k].0) != Null;
      }
  }

  /** `getLastMessage`: the last message of the sorted list, or null. */
  function GetLastMessage(db: Store.Db, userId: string, receiverId: string, receiverType: string): (r: Option<Value>)
    ensures r.None? <==> GetMessages(db, userId, receiverId, receiverType) == []
  {
    var ms := GetMessages(db, userId, receiverId, receiverType);
    if |ms| == 0 then None else Some(ms[|ms| - 1])
  }

  /** The last message is the final one of the room's list and no message in it is newer. */
  lemma LastMessageIsNewest(db: Store.Db, userId: string, receiverId: string, receiverType: string)
    requires GetLastMessage(db, userId, receiverId, receiverType).Some?
    ensures var last := GetLastMessage(db, userId, receiverId, receiverType).value;
      var ms := GetMessages(db, userId, receiverId, receiverType);
      |ms| > 0 && last == ms[|ms| - 1] && forall i :: 0 <= i < |ms| ==> Time(ms[i]) <= Time(last)
  {
    var ms := GetMessages(db, userId, receiverId, receiverType);
    var r := GetLastMessage(db, userId, receiverId, receiverType);
    assert r == if |ms| == 0 then None else Some(ms[|ms| - 1]);
    GetMessagesSorted(db, userId, receiverId, receiverType);
    LastOfSorted(ms, r);
  }

  /** Of the stored messages sharing the newest timestamp, the last message is the one stored last. */
  lemma LastMessageIsLatestStored(db: Store.Db, userId: string, receiverId: string, receiverType: string)
    requires GetLastMessage(db, userId, receiverId, receiverType).Some?
    ensures Store.Read(db, ReadPath(userId, receiverId, receiverType)).Some?
    ensures var last := GetLastMessage(db, userId, receiverId, receiverType).value;
      var tied := WithKey(WithIds(Store.Read(db, ReadPath(userId, receiverId, receiverType)).value),
                          TimestampKey, TimestampKey(last));
      |tied| > 0 && tied[|tied| - 1] == last
  {
    var ms := GetMessages(db, userId, receiverId, receiverType);
    assert Store.Read(db, ReadPath(userId, receiverId, receiverType)).Some?;
    GetMessagesStable(db, userId, receiverId, receiverType, Time(ms[|ms| - 1]));
    WithKeyOfLast(ms, TimestampKey);
  }

  lemma LastOfSorted(ms: seq<Value>, r: Option<Value>)
    requires r.Some? && r == if |ms| == 0 then None else Some(ms[|ms| - 1])
    requires forall i, j :: 0 <= i < j < |ms| ==> Time(ms[i]) <= Time(ms[j])
    ensures |ms| > 0 && r.value == ms[|ms| - 1] && forall i :: 0 <= i < |ms| ==> Time(ms[i]) <= Time(r.value)
  {
    SortedLastIsNewest(ms);
  }

  lemma GetMessagesSorted(db: Store.Db, userId: string, receiverId: string, receiverType: string)
    ensures var ms := GetMessages(db, userId, receiverId, receiverType);
      forall i, j :: 0 <= i < j < |ms| ==> Time(ms[i]) <= Time(ms[j])
  {
    GetMessagesSpec(db, userId, receiverId, receiverType);
  }

  lemma SortedLastIsNewest(ms: seq<Value>)
    requires |ms| > 0
    requires forall i, j :: 0 <= i < j < |ms| ==> Time(ms[i]) <= Time(ms[j])
    ensures forall i :: 0 <= i < |ms| ==> Time(ms[i]) <= Time(ms[|ms| - 1])
  {
    forall i | 0 <= i < |ms| - 1 ensures Time(ms[i]) <= Time(ms[|ms| - 1]) {
    }
  }

  /** The message stored under `id` in a listing shows up in `getMessages`, carrying that id. */
  lemma ListedMessageIsReturned(db: Store.Db, userId: string, receiverId: string, receiverType: string, k: Key, v: Value)
    requires Store.Read(db, ReadPath(userId, receiverId, receiverType)).Some?
    requires Lookup(Store.Read(db, ReadPath(userId, receiverId, receiverType)).value, k) == Some(v)
    ensures WithField(v, "id", KeyValue(k)) in GetMessages(db, userId, receiverId, receiverType)
  {
    var es := Store.Read(db, ReadPath(userId, receiverId, receiverType)).value;
    var i := Find(es, k);
    assert WithIds(es)[i] == WithField(v, "id", KeyValue(k));
    GetMessagesSpec(db, userId, receiverId, receiverType);
    assert WithIds(es)[i] in multiset(WithIds(es));
  }

  /** After a successful send the room's listing holds the message under the new id. */
  lemma SentMessageIsListed(db: Store.Db, data: Value, now: int, newId: Option<string>)
    requires SendMessage(db, data, now, newId).0.Some?
    requires Store.IndexOf(db.docs, RoomPath(SendRoom(data))) < 0
    ensures var (id, db') := SendMessage(db, data, now, newId);
      Store.Read(db', RoomPath(SendRoom(data))).Some?
      && Lookup(Store.Read(db', RoomPath(SendRoom(data))).value, NormKey(id.value))
         == Some(Arr(Record(MessageFields(data, now))))
  {
    var coll := RoomPath(SendRoom(data));
    var rec := Record(MessageFields(data, now));
    assert SendMessage(db, data, now, newId) == Store.Push(db, coll, rec, newId);
    Store.ListAfterPush(db, coll, rec, newId);
    StoredMessage(data, now);
  }

  /** The message as a stored document: nine fields, which a push stores unchanged. */
  lemma StoredMessage(data: Value, now: int)
    ensures var rec := Record(MessageFields(data, now));
      SetAll([], rec) == rec && Store.DocValue(rec) == Arr(rec)
  {
    var fs := MessageFields(data, now);
    MessageNamesDistinct(data, now);
    RecordIsPairs(fs);
    assert |Record(fs)| == 9;
    assert [] + Record(fs) == Record(fs);
    SetAllFresh([], Record(fs));
  }

  /**
   * End to end: after A sends B a message, B reading the conversation with
   * A finds it, under the id the push returned, with its text, provided the
   * two ids do not tie under `sort()`.
   */
  lemma SentMessageIsRead(db: Store.Db, a: string, b: string, data: Value, now: int, newId: Option<string>)
    requires Field(data, "sender_id") == Str(a) && Field(data, "receiver_id") == Str(b)
    requires Field(data, "receiver_type") == Str("contact")
    requires a == b || PhpCompare(a, b) != 0
    requires SendMessage(db, data, now, newId).0.Some?
    requires Store.IndexOf(db.docs, RoomPath(Room(a, b, true))) < 0
    ensures var (id, db') := SendMessage(db, data, now, newId);
      exists m :: m in GetMessages(db', b, a, "contact")
        && Field(m, "id") == KeyValue(NormKey(id.value))
        && Field(m, "message") == Field(data, "message")
  {
    var (id, db') := SendMessage(db, data, now, newId);
    ChatIdAsWrittenSymmetricWithoutTies(a, b);
    assert ReadPath(b, a, "contact") == RoomPath(SendRoom(data));
    SentMessageIsListed(db, data, now, newId);
    var k := NormKey(id.value);
    var v := Arr(Record(MessageFields(data, now)));
    ListedMessageIsReturned(db', b, a, "contact", k, v);
    WithFieldOthers(v, "id", KeyValue(k), "message");
    MessageRecord(data, now);
    assert Field(WithField(v, "id", KeyValue(k)), "message") == Field(data, "message");
  }

  /**
   * When the ids tie, the message is lost to the other party: A sends to B
   * in an empty database, and B reading the conversation finds nothing.
   * "1" and "01" are such a pair (`OneAndZeroOne`), and so are ".5" and "0.5".
   */
  lemma SentMessageMissedOnTie(a: string, b: string, data: Value, now: int, id: string)
    requires Field(data, "sender_id") == Str(a) && Field(data, "receiver_id") == Str(b)
    requires Field(data, "receiver_type") == Str("contact")
    requires IsNumeric(a) && IsNumeric(b) && NumValue(a) == NumValue(b)
    requires |a| > 0 && |b| > 0 && a[0] != b[0]
    requires id != [] && '/' !in id
    ensures SendMessage(Store.Db([]), data, now, Some(id)).0 == Some(id)
    ensures GetMessages(SendMessage(Store.Db([]), data, now, Some(id)).1, b, a, "contact") == []
  {
    var sent := TiedRooms(a, b, data);
    var coll := RoomPath(sent);
    var db' := SendIntoEmpty(data, now, id);
    OtherRoomIsEmpty(db'.docs, a, b, id);
    NothingToRead(db', b, a);
  }

  /** Sending into an empty database leaves exactly the one message document. */
  lemma SendIntoEmpty(data: Value, now: int, id: string) returns (db': Store.Db)
    requires id != [] && '/' !in id
    ensures SendMessage(Store.Db([]), data, now, Some(id)) == (Some(id), db')
    ensures db'.docs == [Store.Doc(RoomPath(SendRoom(data)) + "/" + id, SetAll([], Record(MessageFields(data, now))))]
  {
    Store.PushIntoEmpty(RoomPath(SendRoom(data)), Record(MessageFields(data, now)), id);
    db' := SendMessage(Store.Db([]), data, now, Some(id)).1;
  }

  lemma NothingToRead(db: Store.Db, userId: string, receiverId: string)
    requires Store.Read(db, ReadPath(userId, receiverId, "contact")) == None
    ensures GetMessages(db, userId, receiverId, "contact") == []
  {
  }

  /** The sender's room, `chat_<a>_<b>`, and the reader's, `chat_<b>_<a>`, of two tied ids. */
  lemma TiedRooms(a: string, b: string, data: Value) returns (sent: string)
    requires Field(data, "sender_id") == Str(a) && Field(data, "receiver_id") == Str(b)
    requires Field(data, "receiver_type") == Str("contact")
    requires IsNumeric(a) && IsNumeric(b) && NumValue(a) == NumValue(b)
    ensures sent == SendRoom(data) == "chat_" + a + "_" + b
    ensures ReadPath(b, a, "contact") == RoomPath("chat_" + b + "_" + a)
  {
    NumericTie(a, b);
    NumericTie(b, a);
    sent := "chat_" + a + "_" + b;
  }

  /** A database whose one document lies in room `chat_<a>_<b>` has nothing at or under `messages/chat_<b>_<a>` when `a` and `b` start differently. */
  lemma OtherRoomIsEmpty(docs: seq<Store.Doc>, a: string, b: string, id: string)
    requires |a| > 0 && |b| > 0 && a[0] != b[0]
    requires |docs| == 1 && docs[0].path == RoomPath("chat_" + a + "_" + b) + "/" + id
    ensures Store.Read(Store.Db(docs), RoomPath("chat_" + b + "_" + a)) == None
  {
    var sent := docs[0].path;
    var room := RoomPath("chat_" + b + "_" + a);
    assert room[14] == b[0];
    assert sent[14] == a[0];
    assert Store.IndexOf(docs, room) < 0;
    assert Store.ChildId(room, sent).None? by {
      assert (room + "/")[14] != sent[14];
    }
    assert docs[..0] == [];
    assert Store.ChildIndices(docs, room) == [];
  }
}
