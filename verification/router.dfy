/**
 * The front controller `public/index.php`: the `action` switch for the
 * JSON endpoints, the split of the clean URL into segments, the login
 * checks on protected and auth routes, and the choice of controller,
 * method and parameters, with dash-case API method names turned into
 * camel case.
 */
module Router {
  import opened Optional
  import opened Strings

  // ------------------------------------------------------------------ url

  /** PHP `rtrim($s, '/')`. */
  function RTrimSlash(s: string): (r: string)
    ensures |r| <= |s| && r == s[..|r|]
    ensures |r| > 0 ==> r[|r| - 1] != '/'
    ensures forall i :: |r| <= i < |s| ==> s[i] == '/'
    decreases |s|
  {
    if |s| > 0 && s[|s| - 1] == '/' then RTrimSlash(s[..|s| - 1]) else s
  }

  /** The characters `FILTER_SANITIZE_URL` keeps: ASCII letters, digits and URL punctuation. */
  predicate UrlChar(c: char) {
    ('a' <= c <= 'z') || ('A' <= c <= 'Z') || ('0' <= c <= '9')
    || c in "$-_.+!*'(),{}|\\^~[]`<>#%\";/?:@&="
  }

  /** `filter_var($s, FILTER_SANITIZE_URL)`: every other character is dropped. */
  function Sanitize(s: string): (r: string)
    ensures forall i :: 0 <= i < |r| ==> UrlChar(r[i])
    ensures (forall i :: 0 <= i < |s| ==> UrlChar(s[i])) ==> r == s
    decreases |s|
  {
    if |s| == 0 then ""
    else if UrlChar(s[0]) then [s[0]] + Sanitize(s[1..])
    else Sanitize(s[1..])
  }

  /** PHP `empty()` on a string. */
  predicate Empty(s: string) {
    s == "" || s == "0"
  }

  /** `$url`: the `url` query parameter without trailing slashes, sanitised; '' when absent. */
  function Url(get: Option<string>): string {
    Sanitize(RTrimSlash(get.GetOr("")))
  }

  /** `$urlParts`: the URL split on '/', none for an empty URL. */
  function UrlParts(get: Option<string>): (parts: seq<string>)
    ensures parts == [] <==> Empty(Url(get))
    ensures forall i :: 0 <= i < |parts| ==> '/' !in parts[i]
  {
    var url := Url(get);
    if Empty(url) then [] else Split(url, '/')
  }

  /** The segments join back into the URL. */
  lemma UrlPartsJoin(get: Option<string>)
    requires UrlParts(get) != []
    ensures Join(UrlParts(get), '/') == Url(get)
  {
    JoinSplit(Url(get), '/');
  }

  /** A clean path of URL-safe segments, the last one not empty, comes back as exactly those segments. */
  lemma SegmentsOfUrl(segs: seq<string>)
    requires |segs| >= 1 && segs[|segs| - 1] != ""
    requires forall i :: 0 <= i < |segs| ==> '/' !in segs[i]
    requires forall i, j :: 0 <= i < |segs| && 0 <= j < |segs[i]| ==> UrlChar(segs[i][j])
    requires !Empty(Join(segs, '/'))
    ensures UrlParts(Some(Join(segs, '/'))) == segs
  {
    var u := Join(segs, '/');
    JoinEndsWithLast(segs, '/');
    JoinOfUrlChars(segs);
    SplitJoin(segs, '/');
  }

  lemma {:induction false} JoinEndsWithLast(parts: seq<string>, c: char)
    requires |parts| >= 1 && parts[|parts| - 1] != ""
    ensures |Join(parts, c)| > 0 && Join(parts, c)[|Join(parts, c)| - 1] == parts[|parts| - 1][|parts[|parts| - 1]| - 1]
  {
  }

  lemma {:induction false} JoinOfUrlChars(segs: seq<string>)
    requires |segs| >= 1
    requires forall i, j :: 0 <= i < |segs| && 0 <= j < |segs[i]| ==> UrlChar(segs[i][j])
    ensures forall k :: 0 <= k < |Join(segs, '/')| ==> UrlChar(Join(segs, '/')[k])
    decreases |segs|
  {
    if |segs| > 1 {
      var init := segs[..|segs| - 1];
      var last := segs[|segs| - 1];
      forall i, j | 0 <= i < |init| && 0 <= j < |init[i]| ensures UrlChar(init[i][j]) {
        assert init[i] == segs[i];
      }
      JoinOfUrlChars(init);
      assert forall j :: 0 <= j < |last| ==> UrlChar(last[j]);
      UrlCharsGlue(Join(init, '/'), last);
    }
  }

  lemma UrlCharsGlue(a: string, b: string)
    requires forall k :: 0 <= k < |a| ==> UrlChar(a[k])
    requires forall k :: 0 <= k < |b| ==> UrlChar(b[k])
    ensures forall k :: 0 <= k < |a + "/" + b| ==> UrlChar((a + "/" + b)[k])
  {
    var s := a + "/" + b;
    forall k | 0 <= k < |s| ensures UrlChar(s[k]) {
      if k < |a| {
        assert s[k] == a[k];
      } else if k > |a| {
        assert s[k] == b[k - |a| - 1];
      }
    }
  }

  // ----------------------------------------------------------- camel case

  /** `ucwords`' default word delimiters: space, \t, \r, \n, \f and \v. */
  predicate IsWordDelimiter(c: char) {
    c == ' ' || c == '\t' || c == '\r' || c == '\n' || c == 12 as char || c == 11 as char
  }

  /** `str_replace($from, $to, $s)` for single characters. */
  function ReplaceChar(s: string, from: char, to: char): (r: string)
    ensures |r| == |s|
    ensures forall i :: 0 <= i < |s| ==> r[i] == if s[i] == from then to else s[i]
  {
    seq(|s|, i requires 0 <= i < |s| => if s[i] == from then to else s[i])
  }

  /** `ucwords`, continuing after a character that was (`cap`) or was not a delimiter. */
  function UcWordsFrom(s: string, cap: bool): (r: string)
    ensures |r| == |s|
    decreases |s|
  {
    if |s| == 0 then ""
    else [if cap then UpperChar(s[0]) else s[0]] + UcWordsFrom(s[1..], IsWordDelimiter(s[0]))
  }

  /** PHP `ucwords`: the first character and each one after a delimiter upper-cased. */
  function UcWords(s: string): string {
    UcWordsFrom(s, true)
  }

  /** `str_replace($c, '', $s)` for one character. */
  function RemoveChar(s: string, c: char): (r: string)
    ensures c !in r
    decreases |s|
  {
    if |s| == 0 then ""
    else if s[0] == c then RemoveChar(s[1..], c)
    else [s[0]] + RemoveChar(s[1..], c)
  }

  /** The API method name: dashes become word breaks, words are capitalised and glued, the first letter lowered. */
  function CamelCase(s: string): string {
    LcFirst(RemoveChar(UcWords(ReplaceChar(s, '-', ' ')), ' '))
  }

  /** A word of a dash-case name: no dash and no `ucwords` delimiter. */
  predicate PlainWord(w: string) {
    forall i :: 0 <= i < |w| ==> w[i] != '-' && !IsWordDelimiter(w[i])
  }

  /** The words after the first, each with its first letter upper-cased, glued together. */
  function Capitalized(ws: seq<string>): string
    decreases |ws|
  {
    if |ws| == 0 then "" else Capitalized(ws[..|ws| - 1]) + UcFirst(ws[|ws| - 1])
  }

  lemma {:induction false} UcWordsAppend(a: string, b: string, cap: bool)
    ensures UcWordsFrom(a + b, cap)
         == UcWordsFrom(a, cap) + UcWordsFrom(b, if |a| == 0 then cap else IsWordDelimiter(a[|a| - 1]))
    decreases |a|
  {
    if |a| > 0 {
      assert (a + b)[1..] == a[1..] + b;
      UcWordsAppend(a[1..], b, IsWordDelimiter(a[0]));
    } else {
      assert a + b == b;
    }
  }

  lemma {:induction false} UcWordsPlain(w: string, cap: bool)
    requires PlainWord(w)
    ensures UcWordsFrom(w, cap) == if cap then UcFirst(w) else w
    decreases |w|
  {
    if |w| > 0 {
      UcWordsPlain(w[1..], false);
    }
  }

  lemma {:induction false} RemoveAppend(a: string, b: string, c: char)
    ensures RemoveChar(a + b, c) == RemoveChar(a, c) + RemoveChar(b, c)
    decreases |a|
  {
    if |a| > 0 {
      assert (a + b)[1..] == a[1..] + b;
      RemoveAppend(a[1..], b, c);
    } else {
      assert a + b == b;
    }
  }

  lemma {:induction false} RemoveAbsent(s: string, c: char)
    requires c !in s
    ensures RemoveChar(s, c) == s
    decreases |s|
  {
    if |s| > 0 {
      RemoveAbsent(s[1..], c);
    }
  }

  /** The name without its final lower-casing: one capitalised run per word. */
  function Glued(s: string): string {
    RemoveChar(UcWords(ReplaceChar(s, '-', ' ')), ' ')
  }

  lemma GluedWord(w: string)
    requires PlainWord(w)
    ensures Glued(w) == UcFirst(w)
  {
    assert ReplaceChar(w, '-', ' ') == w;
    UcWordsPlain(w, true);
    RemoveAbsent(UcFirst(w), ' ');
  }

  lemma ReplaceAppend(a: string, b: string, from: char, to: char)
    ensures ReplaceChar(a + b, from, to) == ReplaceChar(a, from, to) + ReplaceChar(b, from, to)
  {
  }

  /** Appending `-w` to a name appends the capitalised word to its glued form. */
  lemma GluedSnoc(a: string, w: string)
    requires PlainWord(w)
    ensures Glued(a + "-" + w) == Glued(a) + UcFirst(w)
  {
    var ra := ReplaceChar(a, '-', ' ');
    ReplaceAppend(a, "-" + w, '-', ' ');
    assert a + "-" + w == a + ("-" + w);
    assert ReplaceChar("-" + w, '-', ' ') == " " + w;
    UcWordsAppend(ra, " " + w, true);
    var flag := if |ra| == 0 then true else IsWordDelimiter(ra[|ra| - 1]);
    assert (" " + w)[1..] == w;
    UcWordsPlain(w, true);
    assert UcWordsFrom(" " + w, flag) == " " + UcFirst(w);
    RemoveAppend(UcWords(ra), " " + UcFirst(w), ' ');
    RemoveAppend(" ", UcFirst(w), ' ');
    RemoveAbsent(UcFirst(w), ' ');
    assert RemoveChar(" ", ' ') == "";
  }

  lemma CapitalizedSnoc(ws: seq<string>, w: string)
    ensures Capitalized(ws + [w]) == Capitalized(ws) + UcFirst(w)
  {
    assert (ws + [w])[..|ws|] == ws;
  }

  lemma {:induction false} GluedJoin(ws: seq<string>)
    requires |ws| >= 1
    requires forall i :: 0 <= i < |ws| ==> PlainWord(ws[i])
    ensures Glued(Join(ws, '-')) == UcFirst(ws[0]) + Capitalized(ws[1..])
    decreases |ws|
  {
    if |ws| == 1 {
      GluedOne(ws);
    } else {
      var init := ws[..|ws| - 1];
      PlainParts(ws, init);
      GluedJoin(init);
      JoinSnoc(ws);
      CapitalizedTail(ws);
      GluedStep(Join(init, '-'), ws[|ws| - 1], Join(ws, '-'), UcFirst(ws[0]), Capitalized(init[1..]), Capitalized(ws[1..]));
    }
  }

  lemma GluedOne(ws: seq<string>)
    requires |ws| == 1 && PlainWord(ws[0])
    ensures Glued(Join(ws, '-')) == UcFirst(ws[0]) + Capitalized(ws[1..])
  {
    assert Join(ws, '-') == ws[0];
    GluedWord(ws[0]);
    assert ws[1..] == [];
  }

  /** One word more: the glued text grows by that word, capitalised. */
  lemma GluedStep(j: string, w: string, jw: string, a: string, c: string, cw: string)
    requires PlainWord(w) && jw == j + "-" + w
    requires Glued(j) == a + c && cw == c + UcFirst(w)
    ensures Glued(jw) == a + cw
  {
    GluedSnoc(j, w);
    AppendAssoc(a, c, UcFirst(w));
  }

  lemma PlainParts(ws: seq<string>, init: seq<string>)
    requires |ws| >= 2 && init == ws[..|ws| - 1]
    requires forall i :: 0 <= i < |ws| ==> PlainWord(ws[i])
    ensures forall i :: 0 <= i < |init| ==> PlainWord(init[i])
    ensures PlainWord(ws[|ws| - 1]) && init[0] == ws[0]
  {
  }

  lemma JoinSnoc(ws: seq<string>)
    requires |ws| >= 2
    ensures Join(ws, '-') == Join(ws[..|ws| - 1], '-') + "-" + ws[|ws| - 1]
  {
  }

  lemma CapitalizedTail(ws: seq<string>)
    requires |ws| >= 2
    ensures Capitalized(ws[1..]) == Capitalized(ws[..|ws| - 1][1..]) + UcFirst(ws[|ws| - 1])
  {
    assert ws[1..] == ws[..|ws| - 1][1..] + [ws[|ws| - 1]];
    CapitalizedSnoc(ws[..|ws| - 1][1..], ws[|ws| - 1]);
  }

  lemma LcFirstOfUcFirst(w: string, rest: string)
    ensures LcFirst(UcFirst(w) + rest) == LcFirst(w + rest)
  {
    if |w| > 0 {
      var u := UcFirst(w) + rest;
      var v := w + rest;
      assert u[0] == UpperChar(w[0]) && v[0] == w[0];
      assert u[1..] == w[1..] + rest == v[1..];
    }
  }

  /**
   * A dash-case method name `w0-w1-...` becomes `w0` with its first letter
   * lowered followed by each later word capitalised (`add-by-code` gives
   * `addByCode`).
   */
  lemma CamelCaseOfWords(ws: seq<string>)
    requires |ws| >= 1
    requires forall i :: 0 <= i < |ws| ==> PlainWord(ws[i])
    ensures CamelCase(Join(ws, '-')) == LcFirst(ws[0] + Capitalized(ws[1..]))
  {
    GluedJoin(ws);
    LcFirstOfUcFirst(ws[0], Capitalized(ws[1..]));
  }

  /** A name without dashes is only lower-cased at its first letter. */
  lemma CamelCaseOfWord(w: string)
    requires PlainWord(w)
    ensures CamelCase(w) == LcFirst(w)
  {
    CamelCaseOfWords([w]);
    assert Join([w], '-') == w;
    assert w + Capitalized([w][1..]) == w;
  }

  /** The API spelling of the add-by-code method. */
  lemma AddByCodeName()
    ensures CamelCase("add-by-code") == "addByCode"
  {
    var ws := ["add", "by", "code"];
    assert PlainWord("add") && PlainWord("by") && PlainWord("code") by {
      assert "add"[0] == 'a';
    }
    assert Join(ws, '-') == "add-by-code" by {
      assert ws[..2] == ["add", "by"];
      assert ws[..2][..1] == ["add"];
      assert Join(["add"], '-') == "add";
      assert Join(["add", "by"], '-') == "add" + "-" + "by";
    }
    assert Capitalized(["by", "code"]) == "ByCode" by {
      var rest := ["by", "code"];
      assert rest[..1] == ["by"] && rest[..1][..0] == [];
      assert UcFirst("by") == "By" && UcFirst("code") == "Code";
    }
    assert ws[1..] == ["by", "code"];
    CamelCaseOfWords(ws);
    assert LcFirst("add" + "ByCode") == "addByCode";
  }

  // -------------------------------------------------------------- routing

  /** What the front controller does with a request. */
  datatype Route =
    | NotFound                                                   // HTTP 404, `{"success":false,"message":"Action not found"}`
    | Redirect(target: string)                                   // `Location: BASE_URL . target`
    | Call(controller: string, name: string, params: seq<string>)

  /** The query parameters `url`, `action`, `intent`, and whether the session holds a user id. */
  datatype Request = Request(url: Option<string>, action: Option<string>, intent: Option<string>, loggedIn: bool)

  const ProtectedRoutes: seq<string> := ["chat", "contacts", "groups", "settings", "profile"]
  const AuthRoutes: seq<string> := ["login", "register", "logout"]

  /** The JSON endpoint an `action` names, or a 404. */
  function ActionRoute(action: string): (r: Route)
    ensures r.NotFound? <==> action !in {"add_contact", "add_contact_by_code", "add_group", "join_group"}
    ensures r.Call? || r.NotFound?
    ensures r.Call? ==> r.controller in ["ContactController", "GroupController"]
  {
    if action == "add_contact" then Call("ContactController", "add", [])
    else if action == "add_contact_by_code" then Call("ContactController", "addByCode", [])
    else if action == "add_group" then Call("GroupController", "add", [])
    else if action == "join_group" then Call("GroupController", "join", [])
    else NotFound
  }

  /** Controller, method and parameters named by the segments: `api/...` or a page route. */
  function Target(parts: seq<string>): (r: (string, string, seq<string>)) {
    if |parts| > 0 && parts[0] == "api" then
      ( if |parts| > 1 then UcFirst(parts[1]) + "Controller" else "ChatController",
        if |parts| > 2 then CamelCase(parts[2]) else "index",
        if |parts| > 3 then parts[3..] else [] )
    else
      ( if |parts| > 0 && !Empty(parts[0]) then UcFirst(parts[0]) + "Controller" else "AuthController",
        if |parts| > 1 && !Empty(parts[1]) then parts[1] else "index",
        if |parts| > 2 then parts[2..] else [] )
  }

  /** The page shown when the controller or method does not exist. */
  function Home(loggedIn: bool): Route {
    if loggedIn then Call("ChatController", "index", []) else Call("AuthController", "login", [])
  }

  /** `method_exists`: PHP method names ignore ASCII case. */
  predicate HasMethod(methods: set<string>, m: string) {
    exists n :: n in methods && Lower(n) == Lower(m)
  }

  /**
   * The whole decision. `controllers` maps each controller class that has a
   * file to the names of its methods.
   */
  function Dispatch(req: Request, controllers: map<string, set<string>>): Route {
    if req.action.Some? && !Empty(req.action.value) then ActionRoute(req.action.value)
    else
      var parts := UrlParts(req.url);
      var url := Url(req.url);
      var route := Lower(if |parts| > 0 then parts[0] else "");
      if route in ProtectedRoutes && !req.loggedIn then Redirect("/")
      else if Empty(url) || url == "public" then
        (if req.loggedIn then Call("ChatController", "index", [])
         else if req.intent == Some("register") then Call("AuthController", "register", [])
         else Call("AuthController", "login", []))
      else if route in AuthRoutes then
        (if req.loggedIn && route in ["login", "register"] then Redirect("/chat")
         else Call("AuthController", route, []))
      else
        var (c, m, ps) := Target(parts);
        if c in controllers && HasMethod(controllers[c], m) then Call(c, m, ps) else Home(req.loggedIn)
  }

  /** The first segment, lower-cased, the way the login checks see it. */
  function RouteName(req: Request): string {
    var parts := UrlParts(req.url);
    Lower(if |parts| > 0 then parts[0] else "")
  }

  /** A truthy `action` is always answered by the action switch; only an unknown one gets the 404. */
  lemma NotFoundOnlyForActions(req: Request, controllers: map<string, set<string>>)
    ensures Dispatch(req, controllers).NotFound?
        <==> (req.action.Some? && !Empty(req.action.value)
              && req.action.value !in {"add_contact", "add_contact_by_code", "add_group", "join_group"})
    ensures req.action.Some? && !Empty(req.action.value) ==> Dispatch(req, controllers) == ActionRoute(req.action.value)
  {
  }

  /** Without a session, the protected pages send the visitor to the start page. */
  lemma ProtectedNeedsLogin(req: Request, controllers: map<string, set<string>>)
    requires req.action.None? || Empty(req.action.value)
    requires !req.loggedIn && RouteName(req) in ProtectedRoutes
    ensures Dispatch(req, controllers) == Redirect("/")
  {
  }

  /** Every redirect is one of the two login checks: out to the start page, or a signed-in user away from the forms. */
  lemma RedirectsFollowLogin(req: Request, controllers: map<string, set<string>>)
    requires Dispatch(req, controllers).Redirect?
    ensures var t := Dispatch(req, controllers).target;
      (t == "/" && !req.loggedIn && RouteName(req) in ProtectedRoutes)
      || (t == "/chat" && req.loggedIn && RouteName(req) in ["login", "register"])
  {
    var r := Dispatch(req, controllers);
    assert req.action.None? || Empty(req.action.value);
    var route := RouteName(req);
    var url := Url(req.url);
    if route in ProtectedRoutes && !req.loggedIn {
      assert r == Redirect("/");
    } else {
      assert !(Empty(url) || url == "public");
      assert route in AuthRoutes;
      assert r == Redirect("/chat");
    }
  }

  /** A signed-in user asking for the login or register form goes to the chat page. */
  lemma SignedInSkipsForms(req: Request, controllers: map<string, set<string>>)
    requires req.action.None? || Empty(req.action.value)
    requires req.loggedIn && RouteName(req) in ["login", "register"]
    ensures Dispatch(req, controllers) == Redirect("/chat")
  {
    var route := RouteName(req);
    FormRoute(route);
    PublicRoute(req);
    assert Url(req.url) != "public";
    assert UrlParts(req.url) != [];
  }

  lemma FormRoute(route: string)
    requires route in ["login", "register"]
    ensures route !in ProtectedRoutes && route in AuthRoutes
    ensures route != "" && route != "public"
  {
    assert |route| == 5 || |route| == 8;
  }

  /** The URL `public` is the one segment `public`. */
  lemma PublicRoute(req: Request)
    ensures Url(req.url) == "public" ==> RouteName(req) == "public"
  {
    if Url(req.url) == "public" {
      NoSeparatorSplit("public", '/');
      LowerLiterals();
    }
  }

  lemma NoSeparatorSplit(s: string, c: char)
    requires c !in s
    ensures Split(s, c) == [s]
  {
  }

  /** The start page: the chat for a session, otherwise the register or login form as `intent` asks. */
  lemma RootRoute(req: Request, controllers: map<string, set<string>>)
    requires req.action.None? || Empty(req.action.value)
    requires Empty(Url(req.url)) || Url(req.url) == "public"
    ensures Dispatch(req, controllers)
         == if req.loggedIn then Call("ChatController", "index", [])
            else if req.intent == Some("register") then Call("AuthController", "register", [])
            else Call("AuthController", "login", [])
  {
    var route := RouteName(req);
    PublicRoute(req);
    assert Empty(Url(req.url)) ==> route == Lower("");
    assert route == "" || route == "public";
    OpenRoutes();
  }

  /** The segments the start page and the API answer to are neither protected nor login pages. */
  lemma OpenRoutes()
    ensures "" !in ProtectedRoutes && "public" !in ProtectedRoutes
    ensures "api" !in ProtectedRoutes && "api" !in AuthRoutes
  {
  }

  /**
   * `api/<name>/<method-name>/<params...>`: the `<Name>Controller` class and
   * the camel-cased method, with the remaining segments as parameters, when
   * both exist; otherwise the start page.
   */
  lemma ApiRoute(req: Request, controllers: map<string, set<string>>)
    requires req.action.None? || Empty(req.action.value)
    requires |UrlParts(req.url)| >= 3 && UrlParts(req.url)[0] == "api"
    ensures var parts := UrlParts(req.url);
      var c := UcFirst(parts[1]) + "Controller";
      var m := CamelCase(parts[2]);
      Dispatch(req, controllers)
        == if c in controllers && HasMethod(controllers[c], m) then Call(c, m, parts[3..]) else Home(req.loggedIn)
  {
    var parts := UrlParts(req.url);
    var route := RouteName(req);
    LowerLiterals();
    assert route == "api";
    PublicRoute(req);
    assert Url(req.url) != "public";
    OpenRoutes();
    ApiTarget(parts);
  }

  // ------------------------------------------------------- literal facts

  /** The segments `public` and `api` are already lower case. */
  lemma LowerLiterals()
    ensures Lower("public") == "public"
    ensures Lower("api") == "api"
  {
    var p, a := "public", "api";
    assert forall i :: 0 <= i < |p| ==> 'a' <= p[i] <= 'z';
    assert forall i :: 0 <= i < |a| ==> 'a' <= a[i] <= 'z';
  }

  lemma ApiTarget(parts: seq<string>)
    requires |parts| >= 3 && parts[0] == "api"
    ensures Target(parts) == (UcFirst(parts[1]) + "Controller", CamelCase(parts[2]), parts[3..])
  {
    if |parts| == 3 {
      assert parts[3..] == [];
    }
  }

  /**
   * `<name>/<method>/<params...>` for any other page: the `<Name>Controller`
   * class (AuthController when the first segment is empty) and the named
   * method (`index` when empty), when both exist; otherwise the start page.
   */
  lemma PageRoute(req: Request, controllers: map<string, set<string>>)
    requires req.action.None? || Empty(req.action.value)
    requires !Empty(Url(req.url)) && Url(req.url) != "public"
    requires UrlParts(req.url)[0] != "api"
    requires req.loggedIn || RouteName(req) !in ProtectedRoutes
    requires RouteName(req) !in AuthRoutes
    ensures var parts := UrlParts(req.url);
      var c := if !Empty(parts[0]) then UcFirst(parts[0]) + "Controller" else "AuthController";
      var m := if |parts| > 1 && !Empty(parts[1]) then parts[1] else "index";
      var ps := if |parts| > 2 then parts[2..] else [];
      Dispatch(req, controllers)
        == if c in controllers && HasMethod(controllers[c], m) then Call(c, m, ps) else Home(req.loggedIn)
  {
  }

  /** Whatever the controller map, a call always names a controller class and a method. */
  lemma CallsNameAController(req: Request, controllers: map<string, set<string>>)
    requires Dispatch(req, controllers).Call?
    ensures var r := Dispatch(req, controllers);
      (r.controller in controllers && HasMethod(controllers[r.controller], r.name))
      || r.controller in ["AuthController", "ChatController", "ContactController", "GroupController"]
  {
    var r := Dispatch(req, controllers);
    if req.action.Some? && !Empty(req.action.value) {
      assert r == ActionRoute(req.action.value);
    } else {
      var (c, m, ps) := Target(UrlParts(req.url));
      assert r.controller in ["AuthController", "ChatController"]
        || (c in controllers && HasMethod(controllers[c], m) && r == Call(c, m, ps));
    }
  }
}
