/** The signature base string identifies the request: same method, same URL, same parameters. */
module OAuthBaseString {
  import opened Options
  import opened Octets
  import opened PercentCoding
  import opened Sorting
  import opened OAuthUrl
  import opened OAuthRoundTrip
  import opened OAuthSignature

  function ToUpper(c: CChar): CChar {
    if 'a' <= c <= 'z' then (c as int - 32) as char else c
  }

  function Upper(s: CString): (r: CString)
    ensures |r| == |s| && forall i :: 0 <= i < |s| ==> r[i] == ToUpper(s[i])
  {
    seq(|s|, i requires 0 <= i < |s| => ToUpper(s[i]))
  }

  /** The method as it is signed; without one it follows from whether there is a body. */
  function SignedMethod(httpMethod: Option<CString>, post: bool): CString {
    if httpMethod.None? then if post then "POST" else "GET" else Upper(httpMethod.value)
  }

  function SortedParams(ps: seq<CString>): seq<CString> {
    Sort(ParamLe, ps)
  }

  /** The query string that is signed. */
  function SignedQuery(ps: seq<CString>): CString {
    Query(SortedParams(ps), true)
  }

  function BaseString(httpMethod: CString, argv: seq<CString>): CString
    requires argv != []
  {
    CatEnc([httpMethod, argv[0], SignedQuery(argv[1..])])
  }

  // ----- which method is signed -----

  /** Equal as letters without case; every other character only to itself. */
  predicate SameLetter(a: CChar, b: CChar) {
    a == b || ('a' <= a <= 'z' && a as int == b as int + 32) || ('a' <= b <= 'z' && b as int == a as int + 32)
  }

  predicate SameButCase(a: CString, b: CString) {
    |a| == |b| && forall i :: 0 <= i < |a| ==> SameLetter(a[i], b[i])
  }

  predicate NoLowerCase(s: CString) {
    forall i :: 0 <= i < |s| ==> !('a' <= s[i] <= 'z')
  }

  /** What precedes the first separator is the encoding of this text. */
  predicate BeginsWith(odat: CString, text: CString) {
    var at := IndexOf(odat, '&');
    at.Some? && odat[..at.value] == Escape(text)
  }

  /** Of the texts that are the same but for case, exactly one has no lower-case letter. */
  lemma {:induction false} UpperExactly(s: CString, m: CString)
    ensures m == Upper(s) <==> SameButCase(m, s) && NoLowerCase(m)
  {
  }

  lemma {:induction false} CatEncOfThree(a: CString, b: CString, c: CString)
    ensures CatEnc([a, b, c]) == Escape(a) + "&" + Escape(b) + "&" + Escape(c)
  {
    hide Escape;
    assert [a, b, c][1..] == [b, c] && [b, c][1..] == [c];
    assert CatEnc([c]) == Escape(c) + [];
    assert CatEnc([b, c]) == Escape(b) + ("&" + Escape(c));
    assert CatEnc([a, b, c]) == Escape(a) + ("&" + (Escape(b) + ("&" + Escape(c))));
  }

  lemma FirstSeparator(x: CString, rest: CString)
    requires '&' !in x
    ensures IndexOf(x + "&" + rest, '&') == Some(|x|)
  {
    var t := x + "&" + rest;
    assert t[|x|] == '&';
    assert t[..|x|] == x;
  }

  /** A base string is the method, the URL and the query string, each encoded, with `&` between them. */
  lemma {:induction false} BaseStringText(m: CString, argv: seq<CString>)
    requires argv != []
    ensures BaseString(m, argv) == Escape(m) + "&" + Escape(argv[0]) + "&" + Escape(SignedQuery(argv[1..]))
    ensures BeginsWith(BaseString(m, argv), m)
  {
    hide Escape, CatEnc, SignedQuery, IndexOf, Unreserved;
    CatEncOfThree(m, argv[0], SignedQuery(argv[1..]));
    EscapeAvoids(m, '&') by { Reserved(); }
    var rest := Escape(argv[0]) + "&" + Escape(SignedQuery(argv[1..]));
    FirstSeparator(Escape(m), rest);
    var x := Escape(m);
    assert BaseString(m, argv) == x + "&" + rest;
    assert (x + "&" + rest)[..|x|] == x;
  }

  lemma DefaultMethods()
    ensures Escape("POST") == "POST" && Escape("GET") == "GET"
  {
    EscapeUnreserved("POST");
    EscapeUnreserved("GET");
  }

  /** The contract of what is signed, without reference to how the method is found. */
  ghost predicate SignsMethod(odat: CString, httpMethod: Option<CString>, post: bool) {
    if httpMethod.None? then (if post then "POST&" else "GET&") <= odat
    else exists m: CString :: BeginsWith(odat, m) && SameButCase(m, httpMethod.value) && NoLowerCase(m)
  }

  lemma {:induction false} MethodIsSigned(httpMethod: Option<CString>, post: bool, argv: seq<CString>)
    requires argv != []
    ensures SignsMethod(BaseString(SignedMethod(httpMethod, post), argv), httpMethod, post)
  {
    var m := SignedMethod(httpMethod, post);
    BaseStringText(m, argv);
    DefaultMethods();
    hide BaseString, Escape, IndexOf, SignedQuery;
    if httpMethod.Some? {
      UpperExactly(httpMethod.value, m);
    }
  }

  /** Two methods sign alike exactly when they differ in case only; the default is as if written out. */
  lemma {:induction false} MethodsSignAlike(m1: CString, m2: CString, post: bool, argv: seq<CString>)
    requires argv != []
    ensures BaseString(SignedMethod(Some(m1), post), argv) == BaseString(SignedMethod(Some(m2), post), argv)
       <==> SameButCase(m1, m2)
    ensures BaseString(SignedMethod(None, post), argv)
         == BaseString(SignedMethod(Some(if post then "post" else "get"), post), argv)
  {
    hide BaseString;
    BaseStringParts(Upper(m1), argv, Upper(m2), argv);
    assert Upper(m1) == Upper(m2) <==> SameButCase(m1, m2) by { UppersEqual(m1, m2); }
    assert Upper("post") == "POST" && Upper("get") == "GET";
  }

  lemma UppersEqual(m1: CString, m2: CString)
    ensures Upper(m1) == Upper(m2) <==> SameButCase(m1, m2)
  {
    if Upper(m1) == Upper(m2) {
      forall i | 0 <= i < |m1|
        ensures SameLetter(m1[i], m2[i])
      {
        assert Upper(m1)[i] == Upper(m2)[i];
      }
    }
  }

  /** The part of `oauth_sign_array2_process` that prepares the data to sign. */
  method PrepareBaseString(httpMethod: Option<CString>, post: bool, argv: seq<CString>) returns (odat: CString)
    requires argv != []
    ensures odat == BaseString(SignedMethod(httpMethod, post), argv)
    ensures SignsMethod(odat, httpMethod, post)
  {
    MethodIsSigned(httpMethod, post, argv);
    hide ToUpper, CatEnc, Query, SerializeFrom, Sort, Present, SignsMethod;
    var request: CString;
    if httpMethod.None? {
      request := if post then "POST" else "GET";
    } else {
      request := httpMethod.value;
      for i := 0 to |request|
        invariant |request| == |httpMethod.value|
        invariant forall k :: 0 <= k < |request| ==>
          request[k] == if k < i then ToUpper(httpMethod.value[k]) else httpMethod.value[k]
      {
        request := request[i := ToUpper(request[i])];
      }
      assert request == Upper(httpMethod.value);
    }
    var sorted := [argv[0]] + SortedParams(argv[1..]);
    var query, fits := SerializeUrlSep(sorted, 1, "&", 0);
    SerializeTail(sorted, 1, 1, true);
    assert sorted[1..] == SortedParams(argv[1..]);
    ghost var args := [Some(request), Some(argv[0]), Some(query)];
    PresentAt(args, 0);
    PresentAt(args, 1);
    PresentAt(args, 2);
    assert Present(args) == [request, argv[0], query];
    odat := CatEncode([Some(request), Some(argv[0]), Some(query)]);
  }

  // ----- what a query string determines -----

  /** What stands before and after the first '=' of a written parameter. */
  function WireName(p: CString): CString {
    if '=' in p then Escape(p[..IndexOf(p, '=').value]) else p
  }

  function WireValue(p: CString): CString {
    if '=' in p then Escape(p[IndexOf(p, '=').value + 1..]) else []
  }

  lemma WireParts(p: CString)
    ensures Wire(p) == WireName(p) + ("=" + WireValue(p))
    ensures '=' !in WireName(p) && '&' !in WireValue(p)
  {
    hide Escape, Unreserved;
    var eq := IndexOf(p, '=');
    if eq.Some? {
      EscapeAvoids(p[..eq.value], '=') by { Reserved(); }
      EscapeAvoids(p[eq.value + 1..], '&') by { Reserved(); }
    }
  }

  lemma Reserved()
    ensures !Unreserved('=') && !Unreserved('&') && !Unreserved('"')
  {
  }

  lemma QueryStep(ps: seq<CString>)
    requires ps != []
    ensures Query(ps, true) == Wire(ps[0]) + Query(ps[1..], false)
    ensures Query(ps, false) == "&" + Wire(ps[0]) + Query(ps[1..], false)
  {
    hide Wire;
    assert [] + Wire(ps[0]) == Wire(ps[0]);
  }

  /** After the first parameter comes nothing, or a separator and a query string. */
  lemma TailQuery(ps: seq<CString>)
    ensures ps == [] ==> Query(ps, false) == []
    ensures ps != [] ==>
      Query(ps, false) != [] && Query(ps, false)[0] == '&' && Query(ps, false)[1..] == Query(ps, true)
  {
    if ps != [] {
      QueryStep(ps);
      hide Wire, Query;
      var w, r := Wire(ps[0]), Query(ps[1..], false);
      assert ("&" + w + r)[1..] == w + r;
    }
  }

  /** A written parameter at the front of a text can be told from what follows it. */
  lemma FirstWire(p: CString, q: CString, s: CString, t: CString)
    requires (s != [] ==> s[0] == '&') && (t != [] ==> t[0] == '&')
    requires Wire(p) + s == Wire(q) + t
    ensures Wire(p) == Wire(q) && s == t
  {
    WireParts(p);
    WireParts(q);
    hide Wire, WireName, WireValue;
    var x: CString, y: CString := "=" + WireValue(p) + s, "=" + WireValue(q) + t;
    assert Wire(p) + s == WireName(p) + x && Wire(q) + t == WireName(q) + y;
    FirstPieceIsDelimited('=', WireName(p), WireName(q), x, y);
    assert x[1..] == WireValue(p) + s && y[1..] == WireValue(q) + t;
    FirstPieceIsDelimited('&', WireValue(p), WireValue(q), s, t);
  }

  /** A query string determines the written parameters, whatever the parameters are. */
  lemma {:induction false} QueryDeterminesWires(ps: seq<CString>, qs: seq<CString>)
    requires Query(ps, true) == Query(qs, true)
    ensures Wires(ps) == Wires(qs)
  {
    QueryIsNotEmpty(ps);
    QueryIsNotEmpty(qs);
    hide Wire, Query;
    if ps != [] {
      var s, t := Query(ps[1..], false), Query(qs[1..], false);
      QueryStep(ps);
      QueryStep(qs);
      TailQuery(ps[1..]);
      TailQuery(qs[1..]);
      FirstWire(ps[0], qs[0], s, t);
      QueryDeterminesWires(ps[1..], qs[1..]);
    }
  }

  lemma QueryIsNotEmpty(ps: seq<CString>)
    ensures Query(ps, true) == [] <==> ps == []
  {
    if ps != [] {
      WireParts(ps[0]);
    }
  }

  /** The same query string whenever the written parameters are the same. */
  lemma {:induction false} WiresDetermineQuery(ps: seq<CString>, qs: seq<CString>, first: bool)
    requires Wires(ps) == Wires(qs)
    ensures Query(ps, first) == Query(qs, first)
  {
    hide Wire;
    if ps != [] {
      assert Wires(ps)[0] == Wire(ps[0]) && Wires(qs)[0] == Wire(qs[0]);
      assert Wires(ps)[1..] == Wires(ps[1..]) && Wires(qs)[1..] == Wires(qs[1..]);
      WiresDetermineQuery(ps[1..], qs[1..], false);
    }
  }

  /** `n` has no '=', and reads like the encoding of the name of `a`, whose value is empty. */
  predicate Alias(n: CString, a: CString) {
    a != [] && a[|a| - 1] == '=' && '=' !in a[..|a| - 1] && n == Escape(a[..|a| - 1])
  }

  predicate Same(p: CString, q: CString) {
    p == q || Alias(p, q) || Alias(q, p)
  }

  lemma AliasParts(n: CString, a: CString)
    requires Alias(n, a)
    ensures '=' !in n && '=' in a && n != a
    ensures IndexOf(a, '=') == Some(|a| - 1) && WireName(a) == n && WireValue(a) == []
  {
    hide Unreserved;
    var k := |a| - 1;
    EscapeAvoids(a[..k], '=') by { Reserved(); }
    assert forall j :: 0 <= j < k ==> a[j] == a[..k][j] && a[j] != '=';
    assert a[k + 1..] == [];
  }

  lemma BareAlias(p: CString, q: CString)
    requires '=' !in p && '=' in q && WireName(q) == p && WireValue(q) == []
    ensures Alias(p, q)
  {
    hide Unreserved;
    var k := IndexOf(q, '=').value;
    assert q[k + 1..] == [] by {
      UnescapeEscape(q[k + 1..]);
    }
  }

  /** Two parameters are written alike exactly when they are equal or aliases. */
  lemma {:induction false} WireEqual(p: CString, q: CString)
    ensures Wire(p) == Wire(q) <==> Same(p, q)
  {
    WireParts(p);
    WireParts(q);
    if Alias(p, q) { AliasParts(p, q); }
    if Alias(q, p) { AliasParts(q, p); }
    if Wire(p) == Wire(q) {
      WiresSplit(p, q);
      if '=' in p && '=' in q {
        WireDecodes(p);
        WireDecodes(q);
      } else if '=' in q {
        BareAlias(p, q);
      } else if '=' in p {
        BareAlias(q, p);
      }
    }
  }

  lemma WiresSplit(p: CString, q: CString)
    requires Wire(p) == Wire(q)
    ensures WireName(p) == WireName(q) && WireValue(p) == WireValue(q)
  {
    WireParts(p);
    WireParts(q);
    hide Wire, WireName, WireValue;
    var x: CString, y: CString := "=" + WireValue(p), "=" + WireValue(q);
    FirstPieceIsDelimited('=', WireName(p), WireName(q), x, y);
    assert x[1..] == WireValue(p) && y[1..] == WireValue(q);
  }

  predicate AllSame(ps: seq<CString>, qs: seq<CString>) {
    |ps| == |qs| && forall i :: 0 <= i < |ps| ==> Same(ps[i], qs[i])
  }

  lemma {:induction false} WiresEqual(ps: seq<CString>, qs: seq<CString>)
    ensures Wires(ps) == Wires(qs) <==> AllSame(ps, qs)
  {
    hide Wire, Same;
    assert |Wires(ps)| == |ps| && |Wires(qs)| == |qs|;
    if |ps| == |qs| && ps != [] {
      WireEqual(ps[0], qs[0]);
      WiresEqual(ps[1..], qs[1..]);
      assert Wires(ps)[0] == Wire(ps[0]) && Wires(ps)[1..] == Wires(ps[1..]);
      assert Wires(qs)[0] == Wire(qs[0]) && Wires(qs)[1..] == Wires(qs[1..]);
      assert AllSame(ps, qs) <==> Same(ps[0], qs[0]) && AllSame(ps[1..], qs[1..]) by {
        AllSameStep(ps, qs);
      }
    }
  }

  lemma AllSameStep(ps: seq<CString>, qs: seq<CString>)
    requires |ps| == |qs| != 0
    ensures AllSame(ps, qs) <==> Same(ps[0], qs[0]) && AllSame(ps[1..], qs[1..])
  {
    hide Same;
    if Same(ps[0], qs[0]) && AllSame(ps[1..], qs[1..]) {
      forall i | 0 <= i < |ps|
        ensures Same(ps[i], qs[i])
      {
        if i > 0 {
          assert Same(ps[1..][i - 1], qs[1..][i - 1]);
        }
      }
    }
    if AllSame(ps, qs) {
      forall i | 0 <= i < |ps[1..]|
        ensures Same(ps[1..][i], qs[1..][i])
      {
        assert Same(ps[i + 1], qs[i + 1]);
      }
    }
  }

  /** A query string of assignments determines the parameters. */
  lemma {:induction false} QueryInjective(ps: seq<CString>, qs: seq<CString>)
    requires AllAssignments(ps) && AllAssignments(qs)
    requires Query(ps, true) == Query(qs, true)
    ensures ps == qs
  {
    hide Alias, Wire;
    QueryDeterminesWires(ps, qs);
    WiresEqual(ps, qs);
    forall i | 0 <= i < |ps|
      ensures ps[i] == qs[i]
    {
      assert Same(ps[i], qs[i]);
      if Alias(ps[i], qs[i]) { AliasParts(ps[i], qs[i]); }
      if Alias(qs[i], ps[i]) { AliasParts(qs[i], ps[i]); }
    }
  }

  // ----- what a base string determines -----

  lemma SortedParamsOf(ps: seq<CString>)
    ensures multiset(SortedParams(ps)) == multiset(ps)
    ensures SortedBy(ParamLe, SortedParams(ps))
    ensures forall p :: p in SortedParams(ps) ==> p in ps
  {
    hide ParamLe;
    ParamOrderIsTotal();
    SortPermutes(ParamLe, ps);
    SortSorts(ParamLe, ps);
    forall p | p in SortedParams(ps)
      ensures p in ps
    {
      assert p in multiset(SortedParams(ps));
    }
  }

  /** Sorting forgets exactly the order. */
  lemma {:induction false} SortedParamsCanonical(ps: seq<CString>, qs: seq<CString>)
    ensures SortedParams(ps) == SortedParams(qs) <==> multiset(ps) == multiset(qs)
  {
    hide ParamLe, SortedParams;
    SortedParamsOf(ps);
    SortedParamsOf(qs);
    ParamOrderIsTotal();
    if multiset(ps) == multiset(qs) {
      SortedUnique(ParamLe, SortedParams(ps), SortedParams(qs));
    }
  }

  lemma BaseStringParts(m1: CString, a: seq<CString>, m2: CString, b: seq<CString>)
    requires a != [] && b != []
    ensures BaseString(m1, a) == BaseString(m2, b)
       <==> m1 == m2 && a[0] == b[0] && SignedQuery(a[1..]) == SignedQuery(b[1..])
  {
    hide CatEnc, SignedQuery;
    var x, y := [m1, a[0], SignedQuery(a[1..])], [m2, b[0], SignedQuery(b[1..])];
    if CatEnc(x) == CatEnc(y) {
      CatEncInjective(x, y);
      assert x[0] == y[0] && x[1] == y[1] && x[2] == y[2];
    }
  }

  /**
   * For all parameters whatever: two base strings are equal exactly when method and URL are, and
   * the sorted parameters are, place by place, equal or aliases.
   */
  lemma {:induction false} BaseStringExactly(m1: CString, a: seq<CString>, m2: CString, b: seq<CString>)
    requires a != [] && b != []
    ensures BaseString(m1, a) == BaseString(m2, b)
       <==> m1 == m2 && a[0] == b[0] && AllSame(SortedParams(a[1..]), SortedParams(b[1..]))
  {
    hide BaseString, SortedParams, Query, Wires, AllSame;
    var ps, qs := SortedParams(a[1..]), SortedParams(b[1..]);
    BaseStringParts(m1, a, m2, b);
    WiresEqual(ps, qs);
    if SignedQuery(a[1..]) == SignedQuery(b[1..]) {
      QueryDeterminesWires(ps, qs);
    }
    if Wires(ps) == Wires(qs) {
      WiresDetermineQuery(ps, qs, true);
    }
  }

  predicate NoAliases(ps: seq<CString>) {
    forall p, q :: p in ps && q in ps ==> !Alias(p, q)
  }

  lemma SameWithoutAliases(ps: seq<CString>, qs: seq<CString>)
    requires NoAliases(ps + qs)
    ensures AllSame(SortedParams(ps), SortedParams(qs)) <==> multiset(ps) == multiset(qs)
  {
    hide SortedParams, Alias;
    var s, t := SortedParams(ps), SortedParams(qs);
    SortedParamsOf(ps);
    SortedParamsOf(qs);
    SortedParamsCanonical(ps, qs);
    if AllSame(s, t) {
      forall i | 0 <= i < |s|
        ensures s[i] == t[i]
      {
        assert Same(s[i], t[i]) && s[i] in ps + qs && t[i] in ps + qs;
      }
    }
  }

  /**
   * If no two of the parameters are aliases, two base strings are equal exactly when the method,
   * the URL and the multiset of parameters are.
   */
  lemma {:induction false} BaseStringIdentifies(m1: CString, a: seq<CString>, m2: CString, b: seq<CString>)
    requires a != [] && b != [] && NoAliases(a[1..] + b[1..])
    ensures BaseString(m1, a) == BaseString(m2, b)
       <==> m1 == m2 && a[0] == b[0] && multiset(a[1..]) == multiset(b[1..])
  {
    hide BaseString, SortedParams, AllSame;
    BaseStringExactly(m1, a, m2, b);
    SameWithoutAliases(a[1..], b[1..]);
  }

  /** In particular if they all have an '='. */
  lemma {:induction false} BaseStringIdentifiesRequest(m1: CString, a: seq<CString>, m2: CString, b: seq<CString>)
    requires a != [] && b != [] && AllAssignments(a[1..]) && AllAssignments(b[1..])
    ensures BaseString(m1, a) == BaseString(m2, b)
       <==> m1 == m2 && a[0] == b[0] && multiset(a[1..]) == multiset(b[1..])
  {
    hide BaseString, SortedParams, Alias;
    forall p, q | p in a[1..] + b[1..] && q in a[1..] + b[1..]
      ensures !Alias(p, q)
    {
      if Alias(p, q) {
        AliasParts(p, q);
      }
    }
    BaseStringIdentifies(m1, a, m2, b);
  }

  /** Every pair of aliases is confused. */
  lemma {:induction false} AliasesCollide(m: CString, url: CString, n: CString, a: CString)
    requires Alias(n, a)
    ensures BaseString(m, [url, n]) == BaseString(m, [url, a]) && n != a
  {
    hide BaseString, Alias;
    AliasParts(n, a);
    BaseStringExactly(m, [url, n], m, [url, a]);
    assert [url, n][1..] == [n] && [url, a][1..] == [a];
    assert SortedParams([n]) == [n] && SortedParams([a]) == [a];
  }

  /** Requests with parameters of this kind are told apart by what is signed. */
  ghost predicate Identified(params: iset<CString>) {
    forall m, a, b ::
      a != [] && b != [] && Over(a, params) && Over(b, params) && BaseString(m, a) == BaseString(m, b) ==>
      multiset(a[1..]) == multiset(b[1..])
  }

  ghost predicate Over(a: seq<CString>, params: iset<CString>)
    requires a != []
  {
    forall p :: p in a[1..] ==> p in params
  }

  lemma AliasNotIdentified(params: iset<CString>, n: CString, a: CString)
    requires n in params && a in params && Alias(n, a)
    ensures !Identified(params)
  {
    hide BaseString, Alias;
    var x, y := [[], n], [[], a];
    AliasesCollide([], [], n, a);
    assert x[1..] == [n] && y[1..] == [a];
    assert Over(x, params) && Over(y, params);
    assert multiset([n])[n] == 1 && multiset([a])[n] == 0;
  }

  /** Exactly which kinds of parameters: those without aliases among them. */
  lemma {:induction false} IdentifiedExactly(params: iset<CString>)
    ensures Identified(params) <==> forall n, a :: n in params && a in params ==> !Alias(n, a)
  {
    hide BaseString, Alias;
    forall n, a | n in params && a in params && Alias(n, a)
      ensures !Identified(params)
    {
      AliasNotIdentified(params, n, a);
    }
    if forall n, a :: n in params && a in params ==> !Alias(n, a) {
      forall m, a, b | a != [] && b != [] && Over(a, params) && Over(b, params) && BaseString(m, a) == BaseString(m, b)
        ensures multiset(a[1..]) == multiset(b[1..])
      {
        BaseStringIdentifies(m, a, m, b);
      }
    }
  }

  // ----- parameters without '=' -----

  /** The assignment that a bare name is written as when encoding would not change it. */
  function Assigned(p: CString): CString {
    if '=' in p || Escape(p) != p then p else p + "="
  }

  function AssignedAll(ps: seq<CString>): (qs: seq<CString>)
    ensures |qs| == |ps| && forall i :: 0 <= i < |ps| ==> qs[i] == Assigned(ps[i])
  {
    if ps == [] then [] else [Assigned(ps[0])] + AssignedAll(ps[1..])
  }

  lemma {:induction false} AssignedKey(p: CString)
    requires '=' !in p
    ensures KeyOf(p + "=") == SortKey(Escape(p), Some([]))
  {
    hide Escape;
    var q: CString := p + "=";
    assert q[|p|] == '=';
    var k := IndexOf(q, '=').value;
    assert k == |p| && q[..k] == p && q[k + 1..] == [];
    assert Escape([]) == [] by { EscapeUnreserved([]); }
  }

  lemma {:induction false} AssignedKeepsWire(p: CString)
    ensures Wire(Assigned(p)) == Wire(p)
  {
    hide Escape, Unreserved;
    if Assigned(p) != p {
      var q: CString := p + "=";
      assert q[|p|] == '=' && q[..|p|] == p;
      assert Alias(p, q);
      WireEqual(p, q);
    }
  }

  lemma {:induction false} AssignedKeepsQuery(ps: seq<CString>, first: bool)
    ensures Query(AssignedAll(ps), first) == Query(ps, first)
  {
    hide Assigned, Wire;
    if ps != [] {
      AssignedKeepsWire(ps[0]);
      AssignedKeepsQuery(ps[1..], false);
      assert AssignedAll(ps)[1..] == AssignedAll(ps[1..]);
    }
  }

  lemma {:induction false} AssignedMonotone(p: CString, q: CString)
    requires ParamLe(p, q)
    ensures ParamLe(Assigned(p), Assigned(q))
  {
    hide Escape, CmpParam;
    CmpParamIsKeyOrder(p, q);
    CmpParamIsKeyOrder(Assigned(p), Assigned(q));
    if '=' !in p { AssignedKey(p); }
    if '=' !in q { AssignedKey(q); }
    if '=' !in p && '=' !in q && Escape(p) == Escape(q) { EscapeInjective(p, q); }
  }

  lemma {:induction false} AssignedInsert(x: CString, ps: seq<CString>)
    ensures multiset(AssignedAll(Insert(ParamLe, x, ps))) == multiset{Assigned(x)} + multiset(AssignedAll(ps))
  {
    hide Assigned, ParamLe;
    if ps == [] || ParamLe(x, ps[0]) {
      assert ([x] + ps)[1..] == ps;
    } else {
      AssignedInsert(x, ps[1..]);
      assert ([ps[0]] + Insert(ParamLe, x, ps[1..]))[1..] == Insert(ParamLe, x, ps[1..]);
    }
  }

  lemma {:induction false} AssignedSort(ps: seq<CString>)
    ensures multiset(AssignedAll(Sort(ParamLe, ps))) == multiset(AssignedAll(ps))
  {
    hide Assigned, ParamLe;
    if ps != [] {
      AssignedSort(ps[1..]);
      AssignedInsert(ps[0], Sort(ParamLe, ps[1..]));
    }
  }

  /** Bare names sort and serialise as the assignments they are written as. */
  lemma {:induction false} AssignedKeepsSignedQuery(ps: seq<CString>)
    ensures SignedQuery(AssignedAll(ps)) == SignedQuery(ps)
  {
    hide Assigned, ParamLe, Query, Sort;
    var s := SortedParams(ps);
    var t := AssignedAll(s);
    SortedParamsOf(ps);
    AssignedSort(ps);
    forall i, j | 0 <= i < j < |t|
      ensures ParamLe(t[i], t[j])
    {
      AssignedMonotone(s[i], s[j]);
    }
    SortedParamsOf(AssignedAll(ps));
    ParamOrderIsTotal();
    SortedUnique(ParamLe, t, SortedParams(AssignedAll(ps)));
    AssignedKeepsQuery(s, true);
  }

  /**
   * The same up to writing "a" as "a=" where encoding does not change the name: only a bare name
   * that encoding would change can still have an alias.
   */
  lemma {:induction false} BaseStringIdentifiesNames(m1: CString, a: seq<CString>, m2: CString, b: seq<CString>)
    requires a != [] && b != [] && NoAliases(AssignedAll(a[1..]) + AssignedAll(b[1..]))
    ensures BaseString(m1, a) == BaseString(m2, b)
       <==> m1 == m2 && a[0] == b[0] && multiset(AssignedAll(a[1..])) == multiset(AssignedAll(b[1..]))
  {
    hide BaseString, SignedQuery, Assigned, AssignedAll, Alias;
    var c, d := [a[0]] + AssignedAll(a[1..]), [b[0]] + AssignedAll(b[1..]);
    BaseStringParts(m1, a, m2, b);
    BaseStringParts(m1, c, m2, d);
    assert c[1..] == AssignedAll(a[1..]) && d[1..] == AssignedAll(b[1..]);
    AssignedKeepsSignedQuery(a[1..]);
    AssignedKeepsSignedQuery(b[1..]);
    BaseStringIdentifies(m1, c, m2, d);
  }

  /** For example "a%20b" with "a b=". */
  lemma RawNamesCollide(m: CString, url: CString)
    ensures BaseString(m, [url, "a%20b"]) == BaseString(m, [url, "a b="])
    ensures Assigned("a%20b") != Assigned("a b=")
  {
    hide BaseString, Escape;
    var raw: CString, other: CString := "a%20b", "a b=";
    BlankEscapes();
    assert other[3] == '=' && other[..3] == "a b";
    AliasesCollide(m, url, raw, other);
    assert |Assigned(raw)| > 4;
  }

  lemma BlankEscapes()
    ensures Escape("a b") == "a%20b" && Escape([]) == []
  {
    var s: CString := "a b";
    assert s[1..] == " b" && s[1..][1..] == "b" && s[1..][1..][1..] == [];
  }
}
