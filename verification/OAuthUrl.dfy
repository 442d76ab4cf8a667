/** Serialising a parameter array to a URL and splitting a URL back into parameters. */
module OAuthUrl {
  import opened Octets
  import opened PercentCoding

  const SOH: CChar := 1 as char
  const SIGNATURE: CString := "oauth_signature="

  // ----- oauth_serialize_url_sep -----

  function EncodeSpaces(s: CString): CString {
    if s == [] then []
    else (if s[0] == ' ' then "%20" else [s[0]]) + EncodeSpaces(s[1..])
  }

  /** A parameter as it is written: without '=' it goes out raw with one appended. */
  function Param(p: CString, quoted: bool): CString {
    var eq := IndexOf(p, '=');
    var quote: CString := if quoted then "\"" else "";
    if eq.None? then p + "="
    else Escape(p[..eq.value]) + "=" + quote + Escape(p[eq.value + 1..]) + quote
  }

  predicate IsOAuth(p: CString) {
    "oauth_" <= p || "x_oauth_" <= p
  }

  predicate Skipped(p: CString, i: nat, mod: nat) {
    (mod % 2 == 1 && IsOAuth(p)) || (mod / 2 % 2 == 1 && !IsOAuth(p) && i != 0)
  }

  predicate IsBaseUrl(argv: seq<CString>, start: nat, i: nat)
    requires i < |argv|
  {
    i == start && i == 0 && Find(argv[i], ":/").Some?
  }

  function Item(argv: seq<CString>, start: nat, i: nat, mod: nat): CString
    requires i < |argv|
  {
    if IsBaseUrl(argv, start, i) then EncodeSpaces(argv[i]) else Param(argv[i], mod / 4 % 2 == 1)
  }

  /** What element `i` appends to the query; `first` suppresses the separator. */
  function Piece(argv: seq<CString>, start: nat, i: nat, first: bool, sep: CString, mod: nat): CString
    requires i < |argv|
  {
    if Skipped(argv[i], i, mod) then []
    else (if first then [] else sep) + Item(argv, start, i, mod) + if IsBaseUrl(argv, start, i) then "?" else []
  }

  function SerializeFrom(argv: seq<CString>, start: nat, i: nat, first: bool, sep: CString, mod: nat): CString
    decreases |argv| - i
  {
    if i >= |argv| then []
    else
      var next := if Skipped(argv[i], i, mod) then first else IsBaseUrl(argv, start, i);
      Piece(argv, start, i, first, sep, mod) + SerializeFrom(argv, start, i + 1, next, sep, mod)
  }

  function SerializeUrl(argv: seq<CString>, start: nat): CString {
    SerializeFrom(argv, start, start, true, "&", 0)
  }

  lemma SerializeStep(argv: seq<CString>, start: nat, i: nat, first: bool, sep: CString, mod: nat)
    ensures i >= |argv| ==> SerializeFrom(argv, start, i, first, sep, mod) == []
    ensures i < |argv| ==>
      var next := if Skipped(argv[i], i, mod) then first else IsBaseUrl(argv, start, i);
      SerializeFrom(argv, start, i, first, sep, mod)
      == Piece(argv, start, i, first, sep, mod) + SerializeFrom(argv, start, i + 1, next, sep, mod)
  {
  }

  predicate StartsWithUrl(argv: seq<CString>, start: nat, mod: nat) {
    start < |argv| && IsBaseUrl(argv, start, start) && !Skipped(argv[start], start, mod)
  }

  lemma UrlIsFirst(argv: seq<CString>, start: nat, i: nat, mod: nat)
    requires i < |argv|
    ensures IsBaseUrl(argv, start, i) ==> i == start
    ensures i == start ==> (StartsWithUrl(argv, start, mod) <==> IsBaseUrl(argv, start, i) && !Skipped(argv[i], i, mod))
  {
  }

  /**
   * `oauth_serialize_url_sep`. `fits` says whether every text, with its NUL, fits the block that was
   * allocated for it; only the question mark behind a base URL has no room of its own.
   */
  method SerializeUrlSep(argv: seq<CString>, start: nat, sep: CString, mod: nat) returns (query: CString, fits: bool)
    ensures query == SerializeFrom(argv, start, start, true, sep, mod)
    ensures fits <==> sep != [] || !StartsWithUrl(argv, start, mod)
  {
    hide Item, Skipped, IsBaseUrl, SerializeFrom, StartsWithUrl;
    query, fits := [], true;
    var first := true;
    var i := start;
    while i < |argv|
      invariant start <= i
      invariant query + SerializeFrom(argv, start, i, first, sep, mod)
             == SerializeFrom(argv, start, start, true, sep, mod)
      invariant i == start ==> first
      invariant fits <==> sep != [] || i == start || !StartsWithUrl(argv, start, mod)
      decreases |argv| - i
    {
      ghost var piece := Piece(argv, start, i, first, sep, mod);
      ghost var was := first;
      UrlIsFirst(argv, start, i, mod);
      if !Skipped(argv[i], i, mod) {
        var tmp := Item(argv, start, i, mod);
        var len := |query| + |tmp| + |sep| + 1;
        query := query + (if first then [] else sep);
        first := false;
        query := query + tmp;
        if IsBaseUrl(argv, start, i) {
          query := query + "?";
          first := true;
        }
        fits := fits && |query| + 1 <= len;
      }
      SerializeStep(argv, start, i, was, sep, mod);
      i := i + 1;
    }
    SerializeStep(argv, start, i, first, sep, mod);
    if start >= |argv| {
      NoUrl(argv, start, mod);
    }
  }

  lemma NoUrl(argv: seq<CString>, start: nat, mod: nat)
    requires start >= |argv|
    ensures !StartsWithUrl(argv, start, mod)
  {
  }

  // ----- oauth_split_post_paramters -----

  predicate Delim(c: char) {
    c == '&' || c == '?'
  }

  /** Length of the run of non-delimiters at the front: one `strtok` token. */
  function TokenLength(s: CString): (n: nat)
    ensures n <= |s| && forall i :: 0 <= i < n ==> !Delim(s[i])
    ensures n < |s| ==> Delim(s[n])
  {
    if s == [] || Delim(s[0]) then 0 else 1 + TokenLength(s[1..])
  }

  function Tokens(s: CString): (ts: seq<CString>)
    decreases |s|
  {
    if s == [] then []
    else if Delim(s[0]) then Tokens(s[1..])
    else [s[..TokenLength(s)]] + Tokens(s[TokenLength(s)..])
  }

  function Lower(c: char): char {
    if 'A' <= c <= 'Z' then (c as int + 32) as char else c
  }

  /** `!strncasecmp("oauth_signature=", s, 16)` */
  predicate IsSignature(s: CString) {
    |s| >= |SIGNATURE| && forall i :: 0 <= i < |SIGNATURE| ==> Lower(s[i]) == SIGNATURE[i]
  }

  function Decoded(token: CString): CString {
    CStringAt(Unescape(token), 0)
  }

  function SkipSlashes(s: CString): CString {
    if s != [] && s[0] == '/' then SkipSlashes(s[1..]) else s
  }

  /** There is a '/' after the scheme's slashes. */
  predicate HasPathSlash(url: CString) {
    var scheme := Find(url, ":/");
    scheme.Some? && '/' in SkipSlashes(url[scheme.value + 1..])
  }

  function DropPort80(url: CString): CString {
    var at := Find(url, ":80/");
    if at.None? then url else url[..at.value] + url[at.value + 3..]
  }

  /** Element 0 of the result, from the text kept so far (`value`) and the raw token. */
  function FirstElement(token: CString, value: CString): CString {
    DropPort80(if Find(token, ":/").Some? && !HasPathSlash(token) then token + "/" else value)
  }

  function Element(argc: nat, raw: CString, qesc: nat): CString {
    var token := if qesc / 2 % 2 == 1 then raw else ReplaceChar(raw, SOH, '&');
    var value := if argc > 0 || qesc / 4 % 2 == 1 then Decoded(token) else token;
    if argc == 0 then FirstElement(token, value) else value
  }

  function Elements(tokens: seq<CString>, argc: nat, qesc: nat): seq<CString> {
    if tokens == [] then []
    else if IsSignature(tokens[0]) then Elements(tokens[1..], argc, qesc)
    else [Element(argc, tokens[0], qesc)] + Elements(tokens[1..], argc + 1, qesc)
  }

  function PlusToSpace(url: CString, qesc: nat): CString {
    if qesc % 2 == 1 then ReplaceChar(url, '+', ' ') else url
  }

  function Split(url: CString, qesc: nat): seq<CString> {
    Elements(Tokens(PlusToSpace(url, qesc)), 0, qesc)
  }

  /** `while ((tmp = strchr(t1, '+'))) *tmp = ' ';` */
  method SpacesForPluses(url: CString) returns (t1: CString)
    ensures t1 == ReplaceChar(url, '+', ' ')
  {
    t1 := url;
    while IndexOf(t1, '+').Some?
      invariant |t1| == |url|
      invariant forall i :: 0 <= i < |url| ==> t1[i] == url[i] || (url[i] == '+' && t1[i] == ' ')
      decreases multiset(t1)['+']
    {
      t1 := t1[IndexOf(t1, '+').value := ' '];
    }
    assert forall i :: 0 <= i < |t1| ==> t1[i] in t1;
  }

  /** One `strtok(.., "&?")` call: skip delimiters, then take a maximal run of other characters. */
  method Strtok(text: CString) returns (token: CString, rest: CString)
    ensures token == [] ==> Tokens(text) == [] && rest == []
    ensures token != [] ==> Tokens(text) == [token] + Tokens(rest)
    ensures |token| + |rest| <= |text|
  {
    rest := text;
    while rest != [] && Delim(rest[0])
      invariant Tokens(rest) == Tokens(text) && |rest| <= |text|
    {
      rest := rest[1..];
    }
    var n := 0;
    while n < |rest| && !Delim(rest[n])
      invariant n <= |rest| && n + TokenLength(rest[n..]) == TokenLength(rest)
    {
      assert rest[n..][1..] == rest[n + 1..];
      n := n + 1;
    }
    assert n == TokenLength(rest);
    token, rest := rest[..n], rest[n..];
  }

  /** The very first token is a signature: `strtok` is then called with the same text for ever. */
  predicate Stuck(url: CString, qesc: nat) {
    var ts := Tokens(PlusToSpace(url, qesc));
    ts != [] && IsSignature(ts[0])
  }

  /** The tokens that are left, of which the next has been taken. */
  function Left(token: CString, rest: CString): seq<CString> {
    if token == [] then [] else [token] + Tokens(rest)
  }

  lemma LeftStep(token: CString, rest: CString, argv: seq<CString>, qesc: nat)
    requires token != []
    ensures argv + Elements(Left(token, rest), |argv|, qesc)
         == if IsSignature(token) then argv + Elements(Tokens(rest), |argv|, qesc)
            else argv + [Element(|argv|, token, qesc)] + Elements(Tokens(rest), |argv| + 1, qesc)
  {
    hide Element, IsSignature, Tokens;
    assert Left(token, rest)[1..] == Tokens(rest);
  }

  lemma LeftIs(token: CString, rest: CString, text: CString)
    requires token == [] ==> Tokens(text) == []
    requires token != [] ==> Tokens(text) == [token] + Tokens(rest)
    ensures Left(token, rest) == Tokens(text)
  {
    hide Tokens;
  }

  lemma NothingLeft(token: CString, rest: CString)
    requires token == []
    ensures Left(token, rest) == []
  {
  }

  lemma NoElements(argc: nat, qesc: nat)
    ensures Elements([], argc, qesc) == []
  {
  }

  /** `oauth_split_post_paramters`; it does not return where `stuck` is set. */
  method SplitPostParameters(url: CString, qesc: nat) returns (stuck: bool, argv: seq<CString>)
    ensures stuck <==> Stuck(url, qesc)
    ensures !stuck ==> argv == Split(url, qesc)
  {
    hide Element, IsSignature, Tokens;
    var t1 := url;
    if qesc % 2 == 1 {
      t1 := SpacesForPluses(url);
    }
    argv := [];
    var token, rest := Strtok(t1);
    if token != [] && IsSignature(token) {
      return true, [];
    }
    stuck := false;
    ghost var all := Tokens(t1);
    LeftIs(token, rest, t1);
    assert [] + Elements(all, 0, qesc) == Elements(all, 0, qesc);
    assert Split(url, qesc) == Elements(all, 0, qesc) && !Stuck(url, qesc);
    hide Elements, Split, Stuck, PlusToSpace, Left;
    while token != []
      invariant argv + Elements(Left(token, rest), |argv|, qesc) == Elements(all, 0, qesc)
      decreases |token| + |rest|, |rest|
    {
      LeftStep(token, rest, argv, qesc);
      if !IsSignature(token) {
        argv := argv + [Element(|argv|, token, qesc)];
      }
      ghost var text := rest;
      token, rest := Strtok(rest);
      LeftIs(token, rest, text);
    }
    assert Left(token, rest) == [] by { NothingLeft(token, rest); }
    NoElements(|argv|, qesc);
  }

  // ----- what the tests of the splitter mean -----

  lemma {:induction false} SkippedSlashes(s: CString)
    ensures '/' in SkipSlashes(s) <==> exists i, j :: 0 <= i < j < |s| && s[i] != '/' && s[j] == '/'
  {
    if s == [] {
    } else if s[0] == '/' {
      SkippedSlashes(s[1..]);
      var t := s[1..];
      if i, j :| 0 <= i < j < |t| && t[i] != '/' && t[j] == '/' {
        assert s[i + 1] == t[i] && s[j + 1] == t[j];
      }
      if i, j :| 0 <= i < j < |s| && s[i] != '/' && s[j] == '/' {
        assert t[i - 1] == s[i] && t[j - 1] == s[j];
      }
    } else if '/' in s {
      var j :| 0 <= j < |s| && s[j] == '/';
      assert s[0] != '/';
    }
  }

  /** A URL has a path exactly if behind its scheme's colon a slash comes after something that is none. */
  lemma {:induction false} PathSlashExactly(url: CString)
    requires Find(url, ":/").Some?
    ensures var k := Find(url, ":/").value;
      HasPathSlash(url) <==> exists i, j :: k < i < j < |url| && url[i] != '/' && url[j] == '/'
  {
    hide Find, SkipSlashes;
    var k := Find(url, ":/").value;
    var s := url[k + 1..];
    SkippedSlashes(s);
    if i, j :| 0 <= i < j < |s| && s[i] != '/' && s[j] == '/' {
      assert url[k + 1 + i] == s[i] && url[k + 1 + j] == s[j];
    }
    if i, j :| k < i < j < |url| && url[i] != '/' && url[j] == '/' {
      assert s[i - k - 1] == url[i] && s[j - k - 1] == url[j];
    }
  }

  /** A signature: its fourteen letters in either case, the underscore and the equals sign as they are. */
  lemma {:induction false} SignatureExactly(s: CString)
    ensures IsSignature(s) <==> |s| >= 16 && forall i :: 0 <= i < 16 ==>
      s[i] == SIGNATURE[i] || (i != 5 && i != 15 && s[i] as int + 32 == SIGNATURE[i] as int)
  {
    if |s| >= 16 {
      forall i | 0 <= i < 16
        ensures Lower(s[i]) == SIGNATURE[i]
           <==> s[i] == SIGNATURE[i] || (i != 5 && i != 15 && s[i] as int + 32 == SIGNATURE[i] as int)
      {
        SignatureAt(i);
      }
    }
  }

  lemma SignatureAt(i: nat)
    requires i < 16
    ensures |SIGNATURE| == 16
    ensures if i == 5 then SIGNATURE[i] == '_' else if i == 15 then SIGNATURE[i] == '=' else 'a' <= SIGNATURE[i] <= 'z'
  {
  }

  /** Encoding its spaces keeps a text without a percent sign readable. */
  lemma {:induction false} SpacesDecode(u: CString)
    requires '%' !in u
    ensures Unescape(EncodeSpaces(u)) == u && ' ' !in EncodeSpaces(u)
  {
    if u != [] {
      var rest := EncodeSpaces(u[1..]);
      SpacesDecode(u[1..]);
      if u[0] == ' ' {
        var t: CString := "%20";
        assert (t + rest)[3..] == rest && StartsTriple(t + rest);
      } else {
        assert ([u[0]] + rest)[1..] == rest;
      }
    }
  }

  /** The two other bits of `qesc`: 2 keeps a SOH, and 4 decodes element 0 as well. */
  lemma {:induction false} OtherBits(argc: nat, qesc: nat)
    ensures argc > 0 ==> Element(argc, [SOH], qesc) == if qesc / 2 % 2 == 1 then [SOH] else "&"
    ensures Element(argc, "%41", qesc) == if argc > 0 || qesc / 4 % 2 == 1 then "A" else "%41"
  {
    hide FirstElement, Find;
    SohDecodes();
    LetterDecodes();
    FirstElementOf("%41", if qesc / 4 % 2 == 1 then "A" else "%41");
  }

  lemma SohDecodes()
    ensures Decoded([SOH]) == [SOH] && Decoded("&") == "&"
    ensures ReplaceChar([SOH], SOH, '&') == "&"
  {
    var soh: CString, amp: CString := [SOH], "&";
    assert Unescape(soh) == soh && Unescape(amp) == amp;
    CStringAtAll(soh, 0);
    CStringAtAll(amp, 0);
  }

  lemma LetterDecodes()
    ensures Decoded("%41") == "A" && ReplaceChar("%41", SOH, '&') == "%41"
  {
    var a: CString, t: CString := "A", "%41";
    assert t[3..] == "";
    assert Unescape(t) == a;
    CStringAtAll(a, 0);
  }

  lemma FirstElementOf(token: CString, value: CString)
    requires ':' !in token && ':' !in value
    ensures FirstElement(token, value) == value
  {
    hide Find;
    NoColon(token);
    NoColon(value);
  }

  lemma FoundHead(s: CString, pat: CString)
    requires pat != []
    ensures Find(s, pat).Some? ==> pat[0] in s
  {
    hide Find;
    var r := Find(s, pat);
    assert r.Some? ==> s[r.value..][0] == pat[0];
  }

  lemma NoColon(s: CString)
    requires ':' !in s
    ensures Find(s, ":/").None? && Find(s, ":80/").None?
  {
    hide Find;
    FoundHead(s, ":/");
    FoundHead(s, ":80/");
  }
}
