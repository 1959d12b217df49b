/**
 * The chat page's script (`public/assets/js/app.js`): where a conversation's
 * messages live in the realtime database, when the send button sends, the
 * attachment size limit, emoji insertion at the cursor, the sidebar search,
 * the code fields of the add-contact and join-group forms, and the API
 * addresses those forms post to.
 */
module Client {
  import opened Optional
  import opened Strings
  import Messages
  import Router
  import Sorting

  // -------------------------------------------------------- message paths

  /** The realtime-database path as `loadMessages` and `sendMessage` build it: the caller's id, then the chat item's `data-id`. */
  function MessagePathAsWritten(chatType: string, userId: string, chatId: string): string {
    if chatType == "group" then "groups/" + chatId + "/messages"
    else "chats/" + userId + "_" + chatId + "/messages"
  }

  /**
   * A contact in the sidebar: `data-id` is the key of the caller's own
   * contact record (the id `push` gave it under `users/<caller>/contacts`),
   * and the record's `user_id` is the other party.
   */
  datatype ContactItem = ContactItem(recordId: string, peer: string)

  /**
   * Two users whose ids start differently never share a direct path as
   * written, whatever keys their contact records have: each path starts
   * with its own caller's id.
   */
  lemma DirectPathNotShared(a: string, b: string, ca: ContactItem, cb: ContactItem)
    requires |a| > 0 && |b| > 0 && a[0] != b[0]
    ensures MessagePathAsWritten("contact", a, ca.recordId) != MessagePathAsWritten("contact", b, cb.recordId)
  {
    assert MessagePathAsWritten("contact", a, ca.recordId)[6] == a[0];
    assert MessagePathAsWritten("contact", b, cb.recordId)[6] == b[0];
  }

  /**
   * Even if a record's key were the other user's id, the written paths of
   * two parties without '_' in their ids coincide only for the same user.
   */
  lemma DirectPathsDiffer(u: string, c: string)
    requires '_' !in u && '_' !in c
    ensures MessagePathAsWritten("contact", u, c) == MessagePathAsWritten("contact", c, u) <==> u == c
  {
    var p := "chats/" + u + "_" + c + "/messages";
    var q := "chats/" + c + "_" + u + "/messages";
    if |u| < |c| {
      ShorterIdDiffers(u, c);
    } else if |c| < |u| {
      ShorterIdDiffers(c, u);
    } else if p == q {
      assert p[6..6 + |u|] == u;
      assert q[6..6 + |c|] == c;
    }
  }

  /** Where the shorter id ends, one path has its '_' and the other a character of the longer id. */
  lemma ShorterIdDiffers(u: string, c: string)
    requires '_' !in c && |u| < |c|
    ensures "chats/" + u + "_" + c + "/messages" != "chats/" + c + "_" + u + "/messages"
  {
    var p := "chats/" + u + "_" + c + "/messages";
    var q := "chats/" + c + "_" + u + "/messages";
    assert p[6 + |u|] == '_';
    assert q[6 + |u|] == c[|u|];
  }

  /** The pair of user ids in `strcmp` order, joined by '_': the same for both parties. */
  function PairKey(u: string, c: string): (k: string)
    ensures Messages.StrLe(u, c) ==> k == u + "_" + c
    ensures Messages.StrLe(c, u) ==> k == c + "_" + u
  {
    Messages.StrLeAntisymmetric(u, c);
    if Messages.StrLe(u, c) then u + "_" + c else c + "_" + u
  }

  /** A direct chat's path as intended: one path per pair of users, keyed on the contact record's `user_id`. */
  function ContactPath(userId: string, contact: ContactItem): string {
    "chats/" + PairKey(userId, contact.peer) + "/messages"
  }

  /**
   * Two users who hold each other as contacts share one intended path,
   * whatever keys their two contact records have; every member of a group
   * already shares the group's written path.
   */
  lemma MessagePathShared(a: string, b: string, ca: ContactItem, cb: ContactItem, member: string, group: string)
    requires ca.peer == b && cb.peer == a
    ensures ContactPath(a, ca) == ContactPath(b, cb)
    ensures MessagePathAsWritten("group", a, group) == MessagePathAsWritten("group", member, group)
  {
    Sorting.LexLeTotal(Messages.Codes(a), Messages.Codes(b));
    assert PairKey(a, b) == PairKey(b, a);
  }

  /** The intended path agrees with the written one when the record's key is the peer's id and the caller's id sorts first. */
  lemma MessagePathAgrees(u: string, c: ContactItem)
    requires c.recordId == c.peer && Messages.StrLe(u, c.peer)
    ensures ContactPath(u, c) == MessagePathAsWritten("contact", u, c.recordId)
  {
  }

  // -------------------------------------------------------------- sending

  /** The chosen attachment: its name, MIME type and size in bytes. */
  datatype Attachment = Attachment(name: string, mime: string, size: int)

  /** The message object pushed to the database; the timestamp is the server's. */
  datatype Outgoing = Outgoing(
    senderId: string, senderName: string,
    text: Option<string>, file: Option<(string, string, string)>)   // (fileUrl, fileName, fileType)

  datatype SendOutcome =
    | NoChat                                    // toast 'Pilih chat terlebih dahulu'
    | Idle                                      // nothing typed, nothing attached
    | Push(path: string, message: Outgoing)

  /**
   * `sendMessage`: `chatId` and `chatType` are the current chat ('' when
   * none is open), `input` the text box (None without one), `upload` the
   * download URL the storage service returns for the attachment.
   */
  function Send(chatId: string, chatType: string, userId: string, userName: string,
                input: Option<string>, file: Option<Attachment>, upload: string): (r: SendOutcome)
    ensures r.NoChat? <==> chatId == "" || chatType == ""
    ensures r.Idle? <==> chatId != "" && chatType != "" && Trim(input.GetOr("")) == "" && file.None?
    ensures r.Push? ==> r.path == MessagePathAsWritten(chatType, userId, chatId)
    ensures r.Push? ==> (r.message.text.Some? <==> Trim(input.GetOr("")) != "")
    ensures r.Push? && r.message.text.Some? ==> r.message.text.value == Trim(input.GetOr(""))
    ensures r.Push? ==> (r.message.file.Some? <==> file.Some?)
  {
    if chatId == "" || chatType == "" then NoChat
    else
      var text := Trim(input.GetOr(""));
      if text == "" && file.None? then Idle
      else
        var attached := if file.Some? then Some((upload, file.value.name, file.value.mime)) else None;
        Push(MessagePathAsWritten(chatType, userId, chatId),
             Outgoing(userId, userName, if text != "" then Some(text) else None, attached))
  }

  /** A pushed message always carries something: non-blank text without surrounding blanks, or a file. */
  lemma PushedMessageHasContent(chatId: string, chatType: string, userId: string, userName: string,
                                input: Option<string>, file: Option<Attachment>, upload: string)
    requires Send(chatId, chatType, userId, userName, input, file, upload).Push?
    ensures var m := Send(chatId, chatType, userId, userName, input, file, upload).message;
      m.file.Some? || (m.text.Some? && m.text.value != "")
    ensures var m := Send(chatId, chatType, userId, userName, input, file, upload).message;
      m.text.Some? ==> !IsJsSpace(m.text.value[0]) && !IsJsSpace(m.text.value[|m.text.value| - 1])
    ensures var m := Send(chatId, chatType, userId, userName, input, file, upload).message;
      m.senderId == userId && m.senderName == userName
  {
    var text := Trim(input.GetOr(""));
    var attached := if file.Some? then Some((upload, file.value.name, file.value.mime)) else None;
    var m := Outgoing(userId, userName, if text != "" then Some(text) else None, attached);
    assert Send(chatId, chatType, userId, userName, input, file, upload).message == m;
  }

  // ---------------------------------------------------------- attachments

  const MaxFileSize: int := 10 * 1024 * 1024

  datatype FileChoice =
    | NoFile
    | TooLarge         // toast 'Ukuran file maksimal 10MB', input cleared
    | Preview(name: string)

  /** `handleFileSelect`. */
  function SelectFile(file: Option<Attachment>): (r: FileChoice)
    ensures r.TooLarge? <==> file.Some? && file.value.size > 10485760
    ensures r.Preview? <==> file.Some? && file.value.size <= 10485760
    ensures r.Preview? ==> r.name == file.value.name
  {
    if file.None? then NoFile
    else if file.value.size > MaxFileSize then TooLarge
    else Preview(file.value.name)
  }

  /** Accepting a size accepts every smaller one. */
  lemma SizeLimitIsDownwardClosed(a: Attachment, b: Attachment)
    requires SelectFile(Some(a)).Preview? && b.size <= a.size
    ensures SelectFile(Some(b)).Preview?
  {
  }

  // ---------------------------------------------------------------- emoji

  /** A UTF-16 code unit: JavaScript strings and cursor positions count these. */
  type Unit = x: int | 0 <= x < 0x1_0000

  /** `substring`'s handling of a position: below 0 counts as 0, past the end as the end. */
  function Clamp(i: int, n: nat): (r: nat)
    ensures r <= n
    ensures 0 <= i <= n ==> r == i
  {
    if i < 0 then 0 else if i > n then n else i
  }

  /** `insertEmoji`: the emoji goes in at the cursor, and the cursor moves past it. */
  function InsertEmoji(value: seq<Unit>, cursor: int, emoji: seq<Unit>): (r: (seq<Unit>, int))
    ensures |r.0| == |value| + |emoji|
    ensures r.1 == cursor + |emoji|
  {
    var p := Clamp(cursor, |value|);
    (value[..p] + emoji + value[p..], cursor + |emoji|)
  }

  /** With the cursor inside the text: the text before it is kept, the emoji ends at the new cursor, the rest follows. */
  lemma EmojiAtCursor(value: seq<Unit>, cursor: int, emoji: seq<Unit>)
    requires 0 <= cursor <= |value|
    ensures var (v, c) := InsertEmoji(value, cursor, emoji);
      v[..cursor] == value[..cursor] && v[cursor..c] == emoji && v[c..] == value[cursor..]
  {
  }

  /** Cutting the inserted emoji back out gives the original text. */
  lemma EmojiRemovable(value: seq<Unit>, cursor: int, emoji: seq<Unit>)
    requires 0 <= cursor <= |value|
    ensures var (v, c) := InsertEmoji(value, cursor, emoji);
      v[..cursor] + v[c..] == value
  {
    EmojiAtCursor(value, cursor, emoji);
    assert value[..cursor] + value[cursor..] == value;
  }

  // --------------------------------------------------------------- search

  /** `handleSearch`: an item stays shown when its lower-cased name contains the lower-cased, trimmed query. */
  predicate Shown(name: string, query: string) {
    Contains(Lower(name), Trim(Lower(query)))
  }

  /** Which of the listed items (by their `data-name`) stay shown. */
  function Search(names: seq<string>, query: string): (shown: seq<bool>)
    ensures |shown| == |names|
    ensures forall i :: 0 <= i < |names| ==> shown[i] == Shown(names[i], query)
  {
    seq(|names|, i requires 0 <= i < |names| => Shown(names[i], query))
  }

  /** A blank query shows every item. */
  lemma BlankQueryShowsAll(names: seq<string>, query: string)
    requires forall i :: 0 <= i < |query| ==> IsJsSpace(query[i])
    ensures forall i :: 0 <= i < |names| ==> Search(names, query)[i]
  {
    var q := Lower(query);
    assert forall i :: 0 <= i < |q| ==> IsJsSpace(q[i]) by {
      forall i | 0 <= i < |q| ensures IsJsSpace(q[i]) {
        assert q[i] == LowerChar(query[i]);
      }
    }
    forall i | 0 <= i < |names| ensures Shown(names[i], query) {
      EmptyIsContained(Lower(names[i]));
    }
  }

  lemma LowerUpper(s: string)
    ensures Lower(Upper(s)) == Lower(s)
  {
  }

  /** The search ignores letter case on both sides. */
  lemma SearchIgnoresCase(name: string, query: string)
    ensures Shown(Upper(name), query) == Shown(name, query)
    ensures Shown(name, Upper(query)) == Shown(name, query)
  {
    LowerUpper(name);
    LowerUpper(query);
  }

  /** A name shows for any piece of it typed in lower case without surrounding blanks. */
  lemma PieceOfNameIsShown(name: string, i: int, j: int)
    requires 0 <= i <= j <= |name|
    requires Lower(name[i..j]) == name[i..j]
    requires |name[i..j]| > 0 ==> !IsJsSpace(name[i]) && !IsJsSpace(name[j - 1])
    ensures Shown(name, name[i..j])
  {
    var q := name[i..j];
    TrimKeeps(q);
    assert Lower(name)[i..j] == Lower(q);
    assert MatchAt(Lower(name), q, i);
  }

  /** Trimming a string that neither starts nor ends with a blank changes nothing. */
  lemma TrimKeeps(s: string)
    requires |s| > 0 ==> !IsJsSpace(s[0]) && !IsJsSpace(s[|s| - 1])
    ensures Trim(s) == s
  {
  }

  // ---------------------------------------------------------------- codes

  /** The code fields: `value.trim().toUpperCase()`. */
  function NormalizeCode(input: string): (code: string)
    ensures Upper(code) == code
    ensures code == "" <==> forall i :: 0 <= i < |input| ==> IsJsSpace(input[i])
  {
    var t := Trim(input);
    UpperIsNormal(t);
    Upper(t)
  }

  /** What the add-contact and join-group forms do with a code: reject an empty one, else post it. */
  function CodeRequest(input: string, missing: string): (r: Result)
    ensures r.Rejected? <==> NormalizeCode(input) == ""
    ensures r.Posted? ==> r.code == NormalizeCode(input)
  {
    var code := NormalizeCode(input);
    if code == "" then Rejected(missing) else Posted(code)
  }

  datatype Result = Rejected(message: string) | Posted(code: string)

  const UserCodeMissing: string := "Kode pengguna wajib diisi"
  const GroupCodeMissing: string := "Kode grup wajib diisi"

  /** Normalising twice is normalising once, so the server's own upper-casing finds the same code. */
  lemma NormalizeIdempotent(input: string)
    ensures NormalizeCode(NormalizeCode(input)) == NormalizeCode(input)
  {
    var t := Trim(input);
    var u := Upper(t);
    assert |u| > 0 ==> u[0] == UpperChar(t[0]) && u[|u| - 1] == UpperChar(t[|t| - 1]);
    TrimKeeps(u);
    UpperIsNormal(u);
  }

  // ----------------------------------------------------------- api routes

  /** The controller classes that have a file under `controllers/`. */
  const ControllerFiles: set<string> := {"AuthController", "ChatController", "ContactController", "GroupController"}

  /** The addresses the forms post to as written: `api/contacts/add-by-code`, `api/groups/add`, `api/groups/join`. */
  const AddByCodeCall: seq<string> := ["api", "contacts", "add-by-code"]
  const AddGroupCall: seq<string> := ["api", "groups", "add"]
  const JoinGroupCall: seq<string> := ["api", "groups", "join"]

  /**
   * The router turns the plural segment into `ContactsController` or
   * `GroupsController`, which have no file, so each of these posts gets the
   * start page instead of the JSON endpoint.
   */
  lemma ClientCallsFallBack(req: Router.Request, controllers: map<string, set<string>>)
    requires req.action.None?
    requires controllers.Keys == ControllerFiles
    requires Router.UrlParts(req.url) in [AddByCodeCall, AddGroupCall, JoinGroupCall]
    ensures Router.Dispatch(req, controllers) == Router.Home(req.loggedIn)
  {
    Router.ApiRoute(req, controllers);
    var parts := Router.UrlParts(req.url);
    PluralsMiss();
    assert parts[1] in ["contacts", "groups"];
  }

  lemma PluralsMiss()
    ensures UcFirst("contacts") + "Controller" !in ControllerFiles
    ensures UcFirst("groups") + "Controller" !in ControllerFiles
  {
    assert |UcFirst("contacts") + "Controller"| == 18;
    assert |UcFirst("groups") + "Controller"| == 16;
  }

  /** The addresses as intended: the singular segment names the controller that exists. */
  const AddByCodeApi: seq<string> := ["api", "contact", "add-by-code"]
  const AddGroupApi: seq<string> := ["api", "group", "add"]
  const JoinGroupApi: seq<string> := ["api", "group", "join"]

  // ------------------------------------------------------- literal facts

  /** The one-word method names `add` and `join` are their own camel case. */
  lemma CamelWords()
    ensures Router.CamelCase("add") == "add"
    ensures Router.CamelCase("join") == "join"
  {
    assert Router.PlainWord("add") && Router.PlainWord("join") by {
      assert "add"[0] == 'a' && "join"[0] == 'j';
    }
    Router.CamelCaseOfWord("add");
    Router.CamelCaseOfWord("join");
    assert LcFirst("add") == "add";
    assert LcFirst("join") == "join";
  }

  lemma SingularsName()
    ensures UcFirst("contact") + "Controller" == "ContactController"
    ensures UcFirst("group") + "Controller" == "GroupController"
  {
    var c, g := "contact", "group";
    assert UcFirst(c) == ['C'] + c[1..];
    assert UcFirst(g) == ['G'] + g[1..];
  }

  /** A route naming an existing controller and method calls it. */
  lemma ApiReaches(req: Router.Request, controllers: map<string, set<string>>, c: string, m: string)
    requires req.action.None?
    requires |Router.UrlParts(req.url)| == 3 && Router.UrlParts(req.url)[0] == "api"
    requires UcFirst(Router.UrlParts(req.url)[1]) + "Controller" == c
    requires Router.CamelCase(Router.UrlParts(req.url)[2]) == m
    requires c in controllers && m in controllers[c]
    ensures Router.Dispatch(req, controllers) == Router.Call(c, m, [])
  {
    Router.ApiRoute(req, controllers);
    assert Router.HasMethod(controllers[c], m);
  }

  /** With the singular segments each post reaches its controller method. */
  lemma ClientCallsReach(req: Router.Request, controllers: map<string, set<string>>)
    requires req.action.None?
    requires "ContactController" in controllers && "addByCode" in controllers["ContactController"]
    requires "GroupController" in controllers && "add" in controllers["GroupController"]
    requires "join" in controllers["GroupController"]
    ensures Router.UrlParts(req.url) == AddByCodeApi
        ==> Router.Dispatch(req, controllers) == Router.Call("ContactController", "addByCode", [])
    ensures Router.UrlParts(req.url) == AddGroupApi
        ==> Router.Dispatch(req, controllers) == Router.Call("GroupController", "add", [])
    ensures Router.UrlParts(req.url) == JoinGroupApi
        ==> Router.Dispatch(req, controllers) == Router.Call("GroupController", "join", [])
  {
    AddByCodeReaches(req, controllers);
    AddGroupReaches(req, controllers);
    JoinGroupReaches(req, controllers);
  }

  lemma AddByCodeReaches(req: Router.Request, controllers: map<string, set<string>>)
    requires req.action.None?
    requires "ContactController" in controllers && "addByCode" in controllers["ContactController"]
    ensures Router.UrlParts(req.url) == AddByCodeApi
        ==> Router.Dispatch(req, controllers) == Router.Call("ContactController", "addByCode", [])
  {
    if Router.UrlParts(req.url) == AddByCodeApi {
      SingularsName();
      Router.AddByCodeName();
      ApiReaches(req, controllers, "ContactController", "addByCode");
    }
  }

  lemma AddGroupReaches(req: Router.Request, controllers: map<string, set<string>>)
    requires req.action.None?
    requires "GroupController" in controllers && "add" in controllers["GroupController"]
    ensures Router.UrlParts(req.url) == AddGroupApi
        ==> Router.Dispatch(req, controllers) == Router.Call("GroupController", "add", [])
  {
    if Router.UrlParts(req.url) == AddGroupApi {
      SingularsName();
      CamelWords();
      ApiReaches(req, controllers, "GroupController", "add");
    }
  }

  lemma JoinGroupReaches(req: Router.Request, controllers: map<string, set<string>>)
    requires req.action.None?
    requires "GroupController" in controllers && "join" in controllers["GroupController"]
    ensures Router.UrlParts(req.url) == JoinGroupApi
        ==> Router.Dispatch(req, controllers) == Router.Call("GroupController", "join", [])
  {
    if Router.UrlParts(req.url) == JoinGroupApi {
      SingularsName();
      CamelWords();
      ApiReaches(req, controllers, "GroupController", "join");
    }
  }
}
