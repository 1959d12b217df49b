/**
 * The base64url rewrite used when the service-account assertion (a JWT) is
 * built: `str_replace(['+', '/', '='], ['-', '_', ''], base64_encode($x))`.
 * PHP applies the three replacements one after the other; each of them
 * introduces no character a later one searches for, so the rewrite acts
 * character by character.
 */
module Base64Url {
  import opened Strings

  /** `str_replace($from, $to, $s)` for a one-character needle. */
  function Replace(s: string, from: char, to: string): (r: string)
    ensures from !in to ==> from !in r
  {
    if |s| == 0 then ""
    else (if s[0] == from then to else [s[0]]) + Replace(s[1..], from, to)
  }

  /** The rewrite exactly as the source writes it. */
  function UrlSafe(s: string): string {
    Replace(Replace(Replace(s, '+', "-"), '/', "_"), '=', "")
  }

  /** The same rewrite as one pass over the characters. */
  function UrlSafeChars(s: string): string {
    if |s| == 0 then ""
    else
      (if s[0] == '+' then "-" else if s[0] == '/' then "_" else if s[0] == '=' then "" else [s[0]])
      + UrlSafeChars(s[1..])
  }

  lemma {:induction false} UrlSafeIsOnePass(s: string)
    ensures UrlSafe(s) == UrlSafeChars(s)
  {
    if |s| > 0 {
      UrlSafeIsOnePass(s[1..]);
      var a := Replace(s, '+', "-");
      assert a == (if s[0] == '+' then "-" else [s[0]]) + Replace(s[1..], '+', "-");
      assert a[1..] == Replace(s[1..], '+', "-");
      var b := Replace(a, '/', "_");
      assert b[1..] == Replace(a[1..], '/', "_");
      var c := Replace(b, '=', "");
      assert c == Replace([b[0]], '=', "") + Replace(b[1..], '=', "") by {
        assert b == [b[0]] + b[1..];
      }
    }
  }

  /** The rewritten text holds none of '+', '/', '='. */
  lemma UrlSafeAlphabet(s: string)
    ensures '+' !in UrlSafe(s) && '/' !in UrlSafe(s) && '=' !in UrlSafe(s)
  {
    assert '+' !in Replace(s, '+', "-");
    assert '+' !in Replace(Replace(s, '+', "-"), '/', "_") by {
      ReplaceKeepsAbsent(Replace(s, '+', "-"), '/', "_", '+');
    }
    ReplaceKeepsAbsent(Replace(Replace(s, '+', "-"), '/', "_"), '=', "", '+');
    ReplaceKeepsAbsent(Replace(Replace(s, '+', "-"), '/', "_"), '=', "", '/');
  }

  lemma {:induction false} ReplaceKeepsAbsent(s: string, from: char, to: string, c: char)
    requires c !in s && c !in to
    ensures c !in Replace(s, from, to)
  {
    if |s| > 0 {
      ReplaceKeepsAbsent(s[1..], from, to, c);
    }
  }

  predicate IsBase64Char(c: char) {
    ('A' <= c <= 'Z') || ('a' <= c <= 'z') || ('0' <= c <= '9') || c == '+' || c == '/'
  }

  /** The shape of `base64_encode` output: a body of alphabet characters, at most two '=', length a multiple of 4. */
  predicate IsBase64(s: string) {
    exists pad :: 0 <= pad <= 2 && IsPadded(s, pad)
  }

  predicate IsPadded(s: string, pad: int) {
    && 0 <= pad <= |s|
    && |s| % 4 == 0
    && (forall i :: 0 <= i < |s| - pad ==> IsBase64Char(s[i]))
    && (forall i :: |s| - pad <= i < |s| ==> s[i] == '=')
  }

  /** The inverse rewrite: '-' back to '+', '_' back to '/', and '=' padding up to a multiple of 4. */
  function Restore(u: string): string {
    Unmap(u) + Pad((4 - |u| % 4) % 4)
  }

  function Unmap(u: string): (r: string)
    ensures |r| == |u|
  {
    if |u| == 0 then ""
    else [if u[0] == '-' then '+' else if u[0] == '_' then '/' else u[0]] + Unmap(u[1..])
  }

  function Pad(n: nat): (r: string)
    ensures |r| == n && forall i :: 0 <= i < n ==> r[i] == '='
  {
    if n == 0 then "" else "=" + Pad(n - 1)
  }

  lemma {:induction false} UnmapOfBody(s: string)
    requires forall i :: 0 <= i < |s| ==> IsBase64Char(s[i])
    ensures |UrlSafeChars(s)| == |s|
    ensures Unmap(UrlSafeChars(s)) == s
  {
    if |s| > 0 {
      UnmapOfBody(s[1..]);
    }
  }

  lemma {:induction false} UrlSafeOfSplit(a: string, b: string)
    ensures UrlSafeChars(a + b) == UrlSafeChars(a) + UrlSafeChars(b)
  {
    if |a| > 0 {
      assert (a + b)[1..] == a[1..] + b;
      UrlSafeOfSplit(a[1..], b);
    } else {
      assert a + b == b;
    }
  }

  lemma {:induction false} UrlSafeOfPadding(p: string)
    requires forall i :: 0 <= i < |p| ==> p[i] == '='
    ensures UrlSafeChars(p) == ""
  {
    if |p| > 0 {
      UrlSafeOfPadding(p[1..]);
    }
  }

  /** Restoring a rewritten base64 text gives the original text back. */
  lemma RestoreUrlSafe(s: string)
    requires IsBase64(s)
    ensures Restore(UrlSafe(s)) == s
  {
    var pad :| 0 <= pad <= 2 && IsPadded(s, pad);
    var body := s[..|s| - pad];
    var tail := s[|s| - pad..];
    var u := UrlSafe(s);
    RewrittenBody(s, pad, body, tail);
    PadCount(|s|, pad);
    var n := (4 - |u| % 4) % 4;
    assert Restore(u) == Unmap(u) + Pad(n);
  }

  /** The rewrite drops the padding and maps the body one to one. */
  lemma RewrittenBody(s: string, pad: int, body: string, tail: string)
    requires 0 <= pad <= 2 && IsPadded(s, pad)
    requires body == s[..|s| - pad] && tail == s[|s| - pad..]
    ensures s == body + tail && |UrlSafe(s)| == |s| - pad
    ensures Unmap(UrlSafe(s)) == body && Pad(pad) == tail
  {
    PaddedParts(s, pad, body, tail);
    UrlSafeIsOnePass(s);
    UrlSafeOfSplit(body, tail);
    UrlSafeOfPadding(tail);
    UnmapOfBody(body);
    assert UrlSafe(s) == UrlSafeChars(body);
    PadOfEquals(tail);
  }

  lemma PaddedParts(s: string, pad: int, body: string, tail: string)
    requires 0 <= pad <= 2 && IsPadded(s, pad)
    requires body == s[..|s| - pad] && tail == s[|s| - pad..]
    ensures s == body + tail && |tail| == pad && |body| == |s| - pad
    ensures forall i :: 0 <= i < |body| ==> IsBase64Char(body[i])
    ensures forall i :: 0 <= i < |tail| ==> tail[i] == '='
  {
  }

  /** A text of 4k characters less `pad` (at most 2) needs `pad` characters of padding. */
  lemma PadCount(n: int, pad: int)
    requires 0 <= pad <= 2 && pad <= n && n % 4 == 0
    ensures (4 - (n - pad) % 4) % 4 == pad
  {
    var k := n / 4;
    assert n == 4 * k;
    if pad > 0 {
      assert n - pad == 4 * (k - 1) + (4 - pad);
    }
  }

  lemma {:induction false} PadOfEquals(t: string)
    requires forall i :: 0 <= i < |t| ==> t[i] == '='
    ensures Pad(|t|) == t
  {
    if |t| > 0 {
      PadOfEquals(t[1..]);
      assert t == "=" + t[1..];
    }
  }

  /** The assertion as sent: three rewritten parts joined by '.'. */
  function Jwt(header: string, payload: string, signature: string): string {
    UrlSafe(header) + "." + UrlSafe(payload) + "." + UrlSafe(signature)
  }

  /** Splitting the assertion on '.' recovers its three parts. */
  lemma JwtParts(header: string, payload: string, signature: string)
    requires IsBase64(header) && IsBase64(payload) && IsBase64(signature)
    ensures Split(Jwt(header, payload, signature), '.') == [UrlSafe(header), UrlSafe(payload), UrlSafe(signature)]
  {
    var h, p, g := UrlSafe(header), UrlSafe(payload), UrlSafe(signature);
    NoDot(header);
    NoDot(payload);
    NoDot(signature);
    assert Join([h, p, g], '.') == Jwt(header, payload, signature) by {
      assert [h, p, g][..2] == [h, p];
      assert [h, p][..1] == [h];
      assert Join([h], '.') == h;
      assert Join([h, p], '.') == h + ['.'] + p;
      assert Join([h, p, g], '.') == h + ['.'] + p + ['.'] + g;
    }
    SplitJoin([h, p, g], '.');
  }

  lemma NoDot(s: string)
    requires IsBase64(s)
    ensures '.' !in UrlSafe(s)
  {
    ReplaceKeepsAbsent(s, '+', "-", '.');
    ReplaceKeepsAbsent(Replace(s, '+', "-"), '/', "_", '.');
    ReplaceKeepsAbsent(Replace(Replace(s, '+', "-"), '/', "_"), '=', "", '.');
  }
}
