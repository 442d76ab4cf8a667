/** When splitting a serialised parameter array gives the array back. */
module OAuthRoundTrip {
  import opened Octets
  import opened PercentCoding
  import opened OAuthUrl

  function Wire(p: CString): CString {
    Param(p, false)
  }

  function Wires(ps: seq<CString>): (ws: seq<CString>)
    ensures |ws| == |ps|
  {
    if ps == [] then [] else [Wire(ps[0])] + Wires(ps[1..])
  }

  /** The query string of a list of parameters. */
  function Query(ps: seq<CString>, first: bool): CString {
    if ps == [] then [] else (if first then [] else "&") + Wire(ps[0]) + Query(ps[1..], false)
  }

  /** An absolute URL that survives the transport: nothing in it is a delimiter or is rewritten. */
  predicate PlainBase(u: CString, qesc: nat) {
    && Find(u, ":/").Some? && !IsSignature(u)
    && '&' !in u && '?' !in u && (qesc == 1 ==> '+' !in u) && ' ' !in u && SOH !in u
  }

  predicate AllAssignments(ps: seq<CString>) {
    forall p :: p in ps ==> '=' in p
  }

  function NormalBase(u: CString): CString {
    FirstElement(u, u)
  }

  /** The parameters that are not an `oauth_signature`. */
  function Kept(ps: seq<CString>): (ks: seq<CString>)
    ensures |ks| <= |ps|
    ensures |ks| == |ps| <==> forall p :: p in ps ==> !IsSignature(p)
    ensures |ks| == |ps| ==> ks == ps
  {
    if ps == [] then []
    else
      assert ps == [ps[0]] + ps[1..];
      (if IsSignature(ps[0]) then [] else [ps[0]]) + Kept(ps[1..])
  }

  // ----- the serialised text -----

  lemma {:induction false} SerializeTail(argv: seq<CString>, start: nat, i: nat, first: bool)
    requires 1 <= i <= |argv|
    ensures SerializeFrom(argv, start, i, first, "&", 0) == Query(argv[i..], first)
    decreases |argv| - i
  {
    hide Param, SerializeFrom;
    SerializeStep(argv, start, i, first, "&", 0);
    if i < |argv| {
      SerializeTail(argv, start, i + 1, false);
      assert argv[i..][1..] == argv[i + 1..];
    }
  }

  lemma {:induction false} NoSpaces(u: CString)
    requires ' ' !in u
    ensures EncodeSpaces(u) == u
  {
    if u != [] {
      NoSpaces(u[1..]);
    }
  }

  lemma SerializeShape(argv: seq<CString>, qesc: nat)
    requires argv != [] && PlainBase(argv[0], qesc)
    ensures SerializeUrl(argv, 0) == argv[0] + "?" + Query(argv[1..], true)
  {
    hide Param, SerializeFrom, Find;
    SerializeStep(argv, 0, 0, true, "&", 0);
    SerializeTail(argv, 0, 1, true);
    NoSpaces(argv[0]);
  }

  /** A written parameter has no delimiter and nothing that the splitter rewrites. */
  lemma {:induction false} WireAvoids(p: CString, c: char)
    requires '=' in p && c != '=' && c != '%' && !Unreserved(c)
    ensures c !in Wire(p)
  {
    hide Unreserved, Escape;
    var k := IndexOf(p, '=').value;
    EscapeAvoids(p[..k], c);
    EscapeAvoids(p[k + 1..], c);
  }

  lemma {:induction false} QueryAvoids(ps: seq<CString>, first: bool, c: char)
    requires AllAssignments(ps) && c != '=' && c != '%' && c != '&' && !Unreserved(c)
    ensures c !in Query(ps, first)
  {
    hide Unreserved, Param;
    if ps != [] {
      WireAvoids(ps[0], c);
      QueryAvoids(ps[1..], false, c);
    }
  }

  lemma WireHasNoDelim(p: CString)
    requires '=' in p
    ensures Wire(p) != [] && forall i :: 0 <= i < |Wire(p)| ==> !Delim(Wire(p)[i])
  {
    WireAvoids(p, '&');
    WireAvoids(p, '?');
  }

  // ----- tokens -----

  lemma {:induction false} TokenLengthIs(t: CString, rest: CString)
    requires forall i :: 0 <= i < |t| ==> !Delim(t[i])
    requires rest != [] ==> Delim(rest[0])
    ensures TokenLength(t + rest) == |t|
  {
    if t == [] {
      assert t + rest == rest;
    } else {
      assert (t + rest)[1..] == t[1..] + rest;
      TokenLengthIs(t[1..], rest);
    }
  }

  lemma TokenThen(t: CString, rest: CString)
    requires t != [] && forall i :: 0 <= i < |t| ==> !Delim(t[i])
    requires rest != [] ==> Delim(rest[0])
    ensures Tokens(t + rest) == [t] + Tokens(rest)
  {
    hide TokenLength, Delim;
    TokenLengthIs(t, rest);
    assert (t + rest)[|t|..] == rest;
    assert !Delim((t + rest)[0]) by {
      assert (t + rest)[0] == t[0];
    }
  }

  lemma {:induction false} TokensOfQuery(ps: seq<CString>, first: bool)
    requires AllAssignments(ps)
    ensures Tokens(Query(ps, first)) == Wires(ps)
  {
    hide Param;
    if ps != [] {
      var w, rest := Wire(ps[0]), Query(ps[1..], false);
      WireHasNoDelim(ps[0]);
      TokensOfQuery(ps[1..], false);
      TokenThen(w, rest);
      if first {
        assert Query(ps, first) == w + rest;
      } else {
        assert Query(ps, first)[1..] == w + rest;
      }
    }
  }

  // ----- one parameter -----

  lemma {:induction false} WireDecodes(p: CString)
    requires '=' in p
    ensures Decoded(Wire(p)) == p
  {
    hide Unreserved, Escape;
    var k := IndexOf(p, '=').value;
    var x: CString := "=" + Escape(p[k + 1..]);
    calc {
      Unescape(Wire(p));
      { assert Wire(p) == Escape(p[..k]) + x; }
      Unescape(Escape(p[..k]) + x);
      { UnescapeEscapePrefix(p[..k], x); }
      p[..k] + Unescape(x);
      { assert x[1..] == Escape(p[k + 1..]); }
      p[..k] + ("=" + Unescape(Escape(p[k + 1..])));
      { UnescapeEscape(p[k + 1..]); }
      p;
    }
    CStringAtAll(p, 0);
  }

  lemma {:induction false} NoPercentNoEscape(s: CString)
    requires '%' !in Escape(s)
    ensures Escape(s) == s
  {
    if s != [] {
      NoPercentNoEscape(s[1..]);
    }
  }

  lemma SignatureName(s: CString)
    requires IsSignature(s)
    ensures |s| > 15 && s[15] == '='
    ensures forall i :: 0 <= i < 15 ==> Unreserved(s[i])
  {
    assert Lower(s[15]) == SIGNATURE[15];
    forall i | 0 <= i < 15
      ensures Unreserved(s[i])
    {
      assert Lower(s[i]) == SIGNATURE[i];
    }
  }

  /** The signature test reads the encoded token, and agrees with the test on the parameter. */
  lemma {:induction false} SignatureOnWire(p: CString)
    requires '=' in p
    ensures IsSignature(Wire(p)) <==> IsSignature(p)
  {
    var k := IndexOf(p, '=').value;
    var e := Escape(p[..k]);
    if IsSignature(p) {
      SignatureName(p);
      assert k == 15;
      EscapeUnreserved(p[..k]);
      assert Wire(p)[..16] == p[..16];
    }
    if IsSignature(Wire(p)) {
      SignatureName(Wire(p));
      EscapeAvoids(p[..k], '=');
      assert Wire(p)[|e|] == '=';
      assert |e| == 15 && e == Wire(p)[..15];
      NoPercentNoEscape(p[..k]);
      assert Wire(p)[..16] == p[..16];
    }
  }

  lemma {:induction false} ElementsOfWires(ps: seq<CString>, argc: nat, qesc: nat)
    requires qesc < 2
    requires AllAssignments(ps) && argc > 0
    ensures Elements(Wires(ps), argc, qesc) == Kept(ps)
  {
    hide Param, IsSignature, Decoded;
    if ps != [] {
      var w := Wire(ps[0]);
      SignatureOnWire(ps[0]);
      WireDecodes(ps[0]);
      WireAvoids(ps[0], SOH);
      assert ReplaceChar(w, SOH, '&') == w;
      ElementsOfWires(ps[1..], argc, qesc);
      ElementsOfWires(ps[1..], argc + 1, qesc);
    }
  }

  // ----- the round trip -----

  lemma PlainTextIsKept(argv: seq<CString>, qesc: nat)
    requires qesc < 2
    requires argv != [] && PlainBase(argv[0], qesc) && AllAssignments(argv[1..])
    ensures PlusToSpace(SerializeUrl(argv, 0), qesc) == argv[0] + "?" + Query(argv[1..], true)
  {
    hide Param, Find, IsSignature;
    SerializeShape(argv, qesc);
    QueryAvoids(argv[1..], true, '+');
    var text := argv[0] + "?" + Query(argv[1..], true);
    assert qesc == 1 ==> '+' !in text;
    assert PlusToSpace(text, qesc) == text;
  }

  lemma TokensOfUrl(u: CString, ps: seq<CString>, qesc: nat)
    requires qesc < 2
    requires PlainBase(u, qesc) && AllAssignments(ps)
    ensures Tokens(u + "?" + Query(ps, true)) == [u] + Wires(ps)
  {
    hide Param, Find, IsSignature, Query;
    var q: CString := "?" + Query(ps, true);
    TokensOfQuery(ps, true);
    assert q[1..] == Query(ps, true);
    assert Tokens(q) == Wires(ps);
    TokenThen(u, q);
    assert u + "?" + Query(ps, true) == u + q;
  }

  lemma ElementsOfUrl(u: CString, ps: seq<CString>, qesc: nat)
    requires qesc < 2
    requires PlainBase(u, qesc) && AllAssignments(ps)
    ensures Elements([u] + Wires(ps), 0, qesc) == [NormalBase(u)] + Kept(ps)
  {
    hide Param, Find, IsSignature, Kept, FirstElement, Wires;
    assert ReplaceChar(u, SOH, '&') == u;
    ElementsOfWires(ps, 1, qesc);
    assert ([u] + Wires(ps))[1..] == Wires(ps);
  }

  /**
   * Splitting a serialised array gives its normalised base URL and then its parameters in
   * order, signatures excepted.
   */
  lemma {:induction false} SplitSerialize(argv: seq<CString>, qesc: nat)
    requires qesc < 2
    requires argv != [] && PlainBase(argv[0], qesc) && AllAssignments(argv[1..])
    ensures Split(SerializeUrl(argv, 0), qesc) == [NormalBase(argv[0])] + Kept(argv[1..])
  {
    hide PlainBase, AllAssignments, Query, Kept, NormalBase, Elements, SerializeUrl, PlusToSpace;
    PlainTextIsKept(argv, qesc);
    TokensOfUrl(argv[0], argv[1..], qesc);
    ElementsOfUrl(argv[0], argv[1..], qesc);
  }

  lemma NormalBaseIsFixed(u: CString)
    requires Find(u, ":/").Some?
    ensures NormalBase(u) == u <==> HasPathSlash(u) && Find(u, ":80/").None?
  {
    hide HasPathSlash;
    var w := if HasPathSlash(u) then u else u + "/";
    var at := Find(w, ":80/");
    assert at.Some? ==> |NormalBase(u)| == |w| - 3;
  }

  lemma PlainBaseIsAbsolute(u: CString, qesc: nat)
    requires PlainBase(u, qesc)
    ensures Find(u, ":/").Some?
  {
  }

  /** What comes back instead: a missing path is added, and a first port 80 dropped. */
  lemma {:induction false} ChangedBase(u: CString, qesc: nat)
    requires qesc < 2
    requires PlainBase(u, qesc)
    ensures var w := if HasPathSlash(u) then u else u + "/"; var at := Find(w, ":80/");
      Split(SerializeUrl([u], 0), qesc) == [if at.None? then w else w[..at.value] + w[at.value + 3..]]
  {
    hide HasPathSlash, Find, IsSignature, Split, SerializeUrl;
    assert [u][1..] == [];
    SplitSerialize([u], qesc);
    PlainBaseIsAbsolute(u, qesc);
  }

  // ----- parameters of any kind -----

  /** The element that a token gives anywhere but in front. */
  function Value(token: CString): CString {
    Decoded(ReplaceChar(token, SOH, '&'))
  }

  function Values(tokens: seq<CString>): seq<CString> {
    if tokens == [] then []
    else (if IsSignature(tokens[0]) then [] else [Value(tokens[0])]) + Values(tokens[1..])
  }

  /** What the splitter makes of one written parameter, and of several. */
  function ReadOne(p: CString, qesc: nat): seq<CString> {
    Values(Tokens(PlusToSpace(Wire(p), qesc)))
  }

  function ReadAll(ps: seq<CString>, qesc: nat): seq<CString> {
    if ps == [] then [] else ReadOne(ps[0], qesc) + ReadAll(ps[1..], qesc)
  }

  lemma {:induction false} ElementsBehind(tokens: seq<CString>, argc: nat, qesc: nat)
    requires qesc < 2
    requires argc > 0
    ensures Elements(tokens, argc, qesc) == Values(tokens)
  {
    hide IsSignature, Decoded;
    if tokens != [] {
      ElementsBehind(tokens[1..], argc, qesc);
      ElementsBehind(tokens[1..], argc + 1, qesc);
    }
  }

  lemma {:induction false} ValuesConcat(xs: seq<CString>, ys: seq<CString>)
    ensures Values(xs + ys) == Values(xs) + Values(ys)
  {
    hide IsSignature, Value;
    if xs == [] {
      assert xs + ys == ys;
    } else {
      assert (xs + ys)[1..] == xs[1..] + ys;
      ValuesConcat(xs[1..], ys);
    }
  }

  lemma SkipDelim(s: CString)
    requires s != [] && Delim(s[0])
    ensures Tokens(s) == Tokens(s[1..])
  {
  }

  lemma NothingTokenises()
    ensures Tokens([]) == []
  {
  }

  lemma TakeToken(s: CString) returns (t: CString, rest: CString)
    requires s != [] && !Delim(s[0])
    ensures s == t + rest && t != [] && Tokens(s) == [t] + Tokens(rest)
    ensures (forall i :: 0 <= i < |t| ==> !Delim(t[i])) && (rest != [] ==> Delim(rest[0]))
  {
    t, rest := s[..TokenLength(s)], s[TokenLength(s)..];
  }

  lemma {:induction false} TokensConcat(a: CString, b: CString)
    requires b != [] ==> Delim(b[0])
    ensures Tokens(a + b) == Tokens(a) + Tokens(b)
    decreases |a|
  {
    hide Tokens, Delim;
    if a == [] {
      assert a + b == b;
      NothingTokenises();
    } else if Delim(a[0]) {
      assert (a + b)[1..] == a[1..] + b;
      SkipDelim(a);
      SkipDelim(a + b);
      TokensConcat(a[1..], b);
    } else {
      var t, rest := TakeToken(a);
      TokensConcat(rest, b);
      assert a + b == t + (rest + b);
      TokenThen(t, rest + b);
    }
  }

  lemma {:induction false} ReadQuery(ps: seq<CString>, first: bool, qesc: nat)
    requires qesc < 2
    ensures Values(Tokens(PlusToSpace(Query(ps, first), qesc))) == ReadAll(ps, qesc)
  {
    hide Param, Values;
    if ps == [] {
      assert PlusToSpace([], qesc) == [];
      NoTokens();
    } else {
      var w, rest := PlusToSpace(Wire(ps[0]), qesc), PlusToSpace(Query(ps[1..], false), qesc);
      ReadQuery(ps[1..], false, qesc);
      assert rest != [] ==> Delim(rest[0]);
      QueryTokens(ps, first, qesc);
      hide Query;
      TokensConcat(w, rest);
      ValuesConcat(Tokens(w), Tokens(rest));
    }
  }

  lemma QueryTokens(ps: seq<CString>, first: bool, qesc: nat)
    requires qesc < 2
    requires ps != []
    ensures Tokens(PlusToSpace(Query(ps, first), qesc))
         == Tokens(PlusToSpace(Wire(ps[0]), qesc) + PlusToSpace(Query(ps[1..], false), qesc))
  {
    hide Param;
    var w, rest := PlusToSpace(Wire(ps[0]), qesc), PlusToSpace(Query(ps[1..], false), qesc);
    var text := PlusToSpace(Query(ps, first), qesc);
    if first {
      assert text == w + rest;
    } else {
      assert text[1..] == w + rest;
    }
  }

  lemma NoTokens()
    ensures Values(Tokens([])) == []
  {
  }

  lemma OneValue(token: CString)
    ensures Values([token]) == if IsSignature(token) then [] else [Value(token)]
  {
    hide IsSignature, Value;
    assert Values([token][1..]) == [];
  }

  lemma ReadAssignment(p: CString, qesc: nat)
    requires qesc < 2
    requires '=' in p
    ensures ReadOne(p, qesc) == if IsSignature(p) then [] else [p]
  {
    hide IsSignature, Param, Decoded, Unescape, Values;
    var w := Wire(p);
    OneValue(w);
    WireHasNoDelim(p);
    WireAvoids(p, '+');
    WireAvoids(p, SOH);
    assert PlusToSpace(w, qesc) == w == ReplaceChar(w, SOH, '&');
    assert w + [] == w;
    TokenThen(w, []);
    NothingTokenises();
    SignatureOnWire(p);
    WireDecodes(p);
    assert Tokens(w) == [w];
  }

  // ----- a parameter without = never comes back -----

  /** Every token but the last is at least two shorter than the text. */
  lemma {:induction false} TokenOf(s: CString, t: CString)
    requires s != [] && s[|s| - 1] == '=' && t in Tokens(s)
    ensures |t| + 2 <= |s| || (t != [] && |t| <= |s| && t[|t| - 1] == '=')
    decreases |s|
  {
    hide TokenLength;
    if Delim(s[0]) {
      TokenOf(s[1..], t);
    } else {
      var n := TokenLength(s);
      if t != s[..n] {
        TokenOf(s[n..], t);
      }
    }
  }

  /** Decoding keeps an = at the end, and is shorter if it gives a NUL. */
  lemma {:induction false} UnescapeEnds(t: CString)
    requires t != [] && t[|t| - 1] == '='
    ensures var d := Unescape(t);
      d != [] && d[|d| - 1] == '=' && |d| <= |t| && (NUL in d ==> |d| + 2 <= |t|)
  {
    if StartsTriple(t) {
      UnescapeEnds(t[3..]);
    } else if |t| > 1 {
      UnescapeEnds(t[1..]);
    }
  }

  lemma {:induction false} UnescapeShort(t: CString)
    ensures |Unescape(t)| <= |t|
  {
    if StartsTriple(t) {
      UnescapeShort(t[3..]);
    } else if t != [] {
      UnescapeShort(t[1..]);
    }
  }

  lemma {:induction false} CStringShort(d: seq<Octet>, from: nat)
    requires from <= |d|
    ensures |CStringAt(d, from)| <= |d| - from
    ensures NUL in d[from..] ==> |CStringAt(d, from)| < |d| - from
    ensures NUL !in d[from..] ==> CStringAt(d, from) == d[from..]
    decreases |d| - from
  {
    if from < |d| && d[from] != NUL {
      assert d[from..] == [d[from]] + d[from + 1..];
      CStringShort(d, from + 1);
    }
  }

  lemma ValueOf(token: CString, p: CString)
    requires '=' !in p
    requires |token| < |p| || (token != [] && |token| <= |p| + 1 && token[|token| - 1] == '=')
    ensures Value(token) != p
  {
    hide Unescape, CStringAt;
    var t := ReplaceChar(token, SOH, '&');
    var d := Unescape(t);
    assert d[0..] == d;
    CStringShort(d, 0);
    UnescapeShort(t);
    if |token| >= |p| {
      UnescapeEnds(t);
      assert d[|d| - 1] in d;
    }
  }

  lemma {:induction false} ValuesAre(tokens: seq<CString>, v: CString)
    requires v in Values(tokens)
    ensures exists t :: t in tokens && Value(t) == v
  {
    hide Value, IsSignature;
    if !IsSignature(tokens[0]) && v == Value(tokens[0]) {
      assert tokens[0] in tokens;
    } else {
      ValuesAre(tokens[1..], v);
    }
  }

  lemma BareIsLost(p: CString, qesc: nat)
    requires qesc < 2
    requires '=' !in p
    ensures p !in ReadOne(p, qesc)
  {
    hide Values, Value, Tokens;
    var w := Wire(p);
    assert w == p + "=";
    var s := PlusToSpace(w, qesc);
    if p in Values(Tokens(s)) {
      ValuesAre(Tokens(s), p);
      var t :| t in Tokens(s) && Value(t) == p;
      TokenOf(s, t);
      ValueOf(t, p);
    }
  }

  lemma OneIsRead(p: CString, qesc: nat)
    requires qesc < 2
    ensures p in ReadOne(p, qesc) ==> '=' in p && ReadOne(p, qesc) == [p] && !IsSignature(p)
    ensures p !in ReadOne(p, qesc) ==> '=' !in p || (ReadOne(p, qesc) == [] && IsSignature(p))
  {
    hide ReadOne, IsSignature;
    if '=' in p {
      ReadAssignment(p, qesc);
    } else {
      BareIsLost(p, qesc);
    }
  }

  /** Once something else has come out, the parameters stay behind. */
  lemma {:induction false} ReadFallsBehind(ps: seq<CString>, x: seq<CString>, qesc: nat)
    requires qesc < 2
    requires x != []
    ensures ReadAll(ps, qesc) != x + ps
    decreases |ps|
  {
    hide ReadOne, IsSignature;
    if ps != [] && ReadAll(ps, qesc) == x + ps {
      var one, rest := ReadOne(ps[0], qesc), ReadAll(ps[1..], qesc);
      OneIsRead(ps[0], qesc);
      assert (x + ps)[|x|] == ps[0];
      if |one| <= |x| {
        var y := x[|one|..] + [ps[0]];
        assert rest == (one + rest)[|one|..] == (x + ps)[|one|..] == y + ps[1..];
        ReadFallsBehind(ps[1..], y, qesc);
      }
    }
  }

  /** The parameters come back exactly when all are assignments and none is a signature. */
  lemma {:induction false} ParamsComeBack(ps: seq<CString>, qesc: nat)
    requires qesc < 2
    ensures ReadAll(ps, qesc) == ps <==> AllAssignments(ps) && forall p :: p in ps ==> !IsSignature(p)
    decreases |ps|
  {
    hide ReadOne, IsSignature;
    if ps != [] {
      var one, rest := ReadOne(ps[0], qesc), ReadAll(ps[1..], qesc);
      OneIsRead(ps[0], qesc);
      ParamsComeBack(ps[1..], qesc);
      assert ps == [ps[0]] + ps[1..];
      if one == [] {
        if rest == ps {
          ReadFallsBehind(ps[1..], [ps[0]], qesc);
        }
      } else {
        assert (one + rest)[0] == one[0] && one[0] in one;
        assert ReadAll(ps, qesc) == ps ==> ps[0] in one;
        assert one == [ps[0]] ==> (one + rest)[1..] == rest;
      }
    }
  }

  // ----- URLs of any kind -----

  lemma AnyShape(argv: seq<CString>)
    requires argv != [] && Find(argv[0], ":/").Some?
    ensures SerializeUrl(argv, 0) == EncodeSpaces(argv[0]) + "?" + Query(argv[1..], true)
  {
    hide Param, SerializeFrom, Find;
    SerializeStep(argv, 0, 0, true, "&", 0);
    SerializeTail(argv, 0, 1, true);
  }

  /** Encoding spaces removes them, and changes no other character. */
  lemma {:induction false} SpacesEncoded(u: CString, c: CChar)
    ensures ' ' !in EncodeSpaces(u)
    ensures c != ' ' && c in u ==> c in EncodeSpaces(u)
    ensures c in EncodeSpaces(u) ==> c in u || c == '%' || c == '2' || c == '0'
  {
    if u != [] {
      SpacesEncoded(u[1..], c);
    }
  }

  lemma {:induction false} TokenChars(s: CString, t: CString, c: char)
    requires t in Tokens(s) && c in t
    ensures c in s && !Delim(c)
    decreases |s|
  {
    hide TokenLength;
    if Delim(s[0]) {
      TokenChars(s[1..], t, c);
    } else {
      var n := TokenLength(s);
      if t != s[..n] {
        TokenChars(s[n..], t, c);
      }
    }
  }

  lemma {:induction false} SomeToken(s: CString, c: char)
    requires c in s && !Delim(c)
    ensures Tokens(s) != []
    decreases |s|
  {
    hide TokenLength;
    if Delim(s[0]) {
      SomeToken(s[1..], c);
    }
  }

  lemma ColonStays(u: CString, qesc: nat)
    requires qesc < 2
    requires Find(u, ":/").Some?
    ensures ':' in PlusToSpace(EncodeSpaces(u), qesc)
  {
    hide Find, EncodeSpaces;
    var at := Find(u, ":/").value;
    assert u[at..][0] == u[at] == ':';
    SpacesEncoded(u, ':');
    var e := EncodeSpaces(u);
    var i :| 0 <= i < |e| && e[i] == ':';
    assert PlusToSpace(e, qesc)[i] == ':';
  }

  /** The first token of a serialised URL is a piece of the URL, with pluses turned into spaces. */
  lemma FirstToken(argv: seq<CString>, qesc: nat)
    requires qesc < 2
    requires argv != [] && Find(argv[0], ":/").Some?
    ensures var ts := Tokens(PlusToSpace(SerializeUrl(argv, 0), qesc));
      ts != [] && ts[0] in Tokens(PlusToSpace(EncodeSpaces(argv[0]), qesc))
  {
    hide Find, Query, SerializeUrl, Tokens, EncodeSpaces;
    AnyShape(argv);
    ColonStays(argv[0], qesc);
    var e, q := EncodeSpaces(argv[0]), Query(argv[1..], true);
    var t: CString, r: CString := PlusToSpace(e, qesc), PlusToSpace("?" + q, qesc);
    assert PlusToSpace(e + "?" + q, qesc) == t + r;
    assert Delim(r[0]);
    hide ReplaceChar;
    TokensConcat(t, r);
    SomeToken(t, ':');
  }

  lemma SpacedChars(u: CString, d: char, qesc: nat)
    requires qesc < 2
    requires d in PlusToSpace(EncodeSpaces(u), qesc)
    ensures (qesc == 1 ==> d != '+') && (d == ' ' ==> qesc == 1 && '+' in u) && (d == SOH ==> SOH in u)
  {
    hide EncodeSpaces;
    SpacesEncoded(u, '+');
    SpacesEncoded(u, SOH);
  }

  /** Element 0 holds no ?, SOH, or + read as a space, and a space or & only where there was a + or SOH. */
  lemma FirstChars(token: CString, u: CString, c: char, qesc: nat)
    requires qesc < 2
    requires token in Tokens(PlusToSpace(EncodeSpaces(u), qesc)) && c in Element(0, token, qesc)
    ensures c != '?' && (qesc == 1 ==> c != '+') && c != SOH
    ensures (c == ' ' ==> qesc == 1 && '+' in u) && (c == '&' ==> SOH in u)
  {
    hide Tokens, FirstElement, EncodeSpaces;
    if c != '/' {
      var v := ReplaceChar(token, SOH, '&');
      FirstElementChars(v, c);
      var i :| 0 <= i < |v| && v[i] == c;
      var d := token[i];
      var s := PlusToSpace(EncodeSpaces(u), qesc);
      hide ReplaceChar;
      TokenChars(s, token, d);
      SpacedChars(u, d, qesc);
    }
  }

  lemma FirstElementChars(token: CString, c: char)
    requires c in FirstElement(token, token) && c != '/'
    ensures c in token
  {
    hide HasPathSlash;
  }

  /** If element 0 is the URL again, the URL has none of the characters that are rewritten or delimit. */
  lemma FirstElementIsUrl(u: CString, token: CString, qesc: nat)
    requires qesc < 2
    requires token in Tokens(PlusToSpace(EncodeSpaces(u), qesc)) && Element(0, token, qesc) == u
    ensures '&' !in u && '?' !in u && (qesc == 1 ==> '+' !in u) && ' ' !in u && SOH !in u
  {
    hide Tokens, Element, EncodeSpaces;
    forall c | c in u
      ensures c != '?' && (qesc == 1 ==> c != '+') && c != SOH
      ensures (c == ' ' ==> qesc == 1 && '+' in u) && (c == '&' ==> SOH in u)
    {
      FirstChars(token, u, c, qesc);
    }
  }

  lemma TokensOfPlain(u: CString, q: CString, qesc: nat)
    requires qesc < 2
    requires PlainBase(u, qesc)
    ensures Tokens(PlusToSpace(u + "?" + q, qesc)) == [u] + Tokens(PlusToSpace(q, qesc))
  {
    NonEmptyUrl(u, qesc);
    hide PlainBase, Tokens;
    var r: CString := PlusToSpace("?" + q, qesc);
    PlainStays(u, qesc);
    assert PlusToSpace(u + "?" + q, qesc) == PlusToSpace(u, qesc) + r;
    assert r[1..] == PlusToSpace(q, qesc);
    SkipDelim(r);
    TokenThen(u, r);
  }

  lemma PlainStays(u: CString, qesc: nat)
    requires qesc < 2
    requires PlainBase(u, qesc)
    ensures PlusToSpace(u, qesc) == u && ReplaceChar(u, SOH, '&') == u && !IsSignature(u)
  {
    hide IsSignature, Find;
  }

  lemma ElementsInFront(u: CString, ts: seq<CString>, qesc: nat)
    requires qesc < 2
    requires !IsSignature(u) && ReplaceChar(u, SOH, '&') == u
    ensures Elements([u] + ts, 0, qesc) == [NormalBase(u)] + Elements(ts, 1, qesc)
  {
    hide IsSignature, FirstElement;
    assert ([u] + ts)[1..] == ts;
  }

  lemma SplitOfPlain(argv: seq<CString>, qesc: nat)
    requires qesc < 2
    requires argv != [] && PlainBase(argv[0], qesc)
    ensures !Stuck(SerializeUrl(argv, 0), qesc)
    ensures Split(SerializeUrl(argv, 0), qesc) == [NormalBase(argv[0])] + ReadAll(argv[1..], qesc)
  {
    var u, q := argv[0], Query(argv[1..], true);
    var ts := Tokens(PlusToSpace(q, qesc));
    hide Find, IsSignature, Query, SerializeUrl, Values, Tokens, ReadAll, PlainBase, Elements, FirstElement, Element;
    SerializeShape(argv, qesc);
    TokensOfPlain(u, q, qesc);
    ReadQuery(argv[1..], true, qesc);
    ElementsBehind(ts, 1, qesc);
    PlainStays(u, qesc);
    ElementsInFront(u, ts, qesc);
  }

  lemma NonEmptyUrl(u: CString, qesc: nat)
    requires PlainBase(u, qesc)
    ensures u != [] && forall i :: 0 <= i < |u| ==> !Delim(u[i])
  {
    hide IsSignature;
  }

  /**
   * For every absolute URL and all parameters: the splitter returns, and gives the array back, exactly
   * when the URL has none of & ? space SOH, nor + where that is read as a space, has a path, names no
   * port 80 before a slash and is not itself an `oauth_signature`, and every parameter is an assignment
   * and not an `oauth_signature`. The two values of `qesc` are those of the library's callers.
   */
  lemma {:induction false} RoundTripExactly(argv: seq<CString>, qesc: nat)
    requires qesc < 2
    requires argv != [] && Find(argv[0], ":/").Some?
    ensures !Stuck(SerializeUrl(argv, 0), qesc) && Split(SerializeUrl(argv, 0), qesc) == argv
       <==> (&& PlainBase(argv[0], qesc) && HasPathSlash(argv[0]) && Find(argv[0], ":80/").None?
             && AllAssignments(argv[1..]) && forall p :: p in argv[1..] ==> !IsSignature(p))
  {
    hide PlainBase, HasPathSlash, Find, IsSignature, AllAssignments, Split, Stuck, SerializeUrl, FirstElement, ReadAll;
    var text, u, ps := SerializeUrl(argv, 0), argv[0], argv[1..];
    assert argv == [u] + ps;
    if !Stuck(text, qesc) && Split(text, qesc) == argv {
      BaseIsPlain(argv, qesc);
    }
    if PlainBase(u, qesc) {
      SplitOfPlain(argv, qesc);
      NormalBaseIsFixed(u);
      ParamsComeBack(ps, qesc);
      var r := [NormalBase(u)] + ReadAll(ps, qesc);
      assert r == argv <==> r[0] == u && r[1..] == ps;
    }
  }

  lemma BaseIsPlain(argv: seq<CString>, qesc: nat)
    requires qesc < 2
    requires argv != [] && Find(argv[0], ":/").Some?
    requires !Stuck(SerializeUrl(argv, 0), qesc) && Split(SerializeUrl(argv, 0), qesc) == argv
    ensures PlainBase(argv[0], qesc)
  {
    hide Find, SerializeUrl, Tokens, Element;
    var ts := Tokens(PlusToSpace(SerializeUrl(argv, 0), qesc));
    FirstToken(argv, qesc);
    assert Elements(ts, 0, qesc)[0] == Element(0, ts[0], qesc);
    FirstElementIsUrl(argv[0], ts[0], qesc);
    PlainIsToken(argv[0], ts[0], qesc);
  }

  lemma PlainIsToken(u: CString, t: CString, qesc: nat)
    requires qesc < 2
    requires '&' !in u && '?' !in u && (qesc == 1 ==> '+' !in u) && ' ' !in u && Find(u, ":/").Some?
    requires t in Tokens(PlusToSpace(EncodeSpaces(u), qesc))
    ensures t == u
  {
    hide Find, Tokens;
    NoSpaces(u);
    assert PlusToSpace(u, qesc) == u;
    assert u + [] == u;
    TokenThen(u, []);
    NothingTokenises();
  }
}
