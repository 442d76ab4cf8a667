/**
 * The signature base string (RFC 5849 section 3.4.1): the parameter order, the concatenation
 * of escaped strings, and why the result identifies the request.
 */
module OAuthSignature {
  import opened Options
  import opened Octets
  import opened PercentCoding
  import opened Sorting

  const EQUALS_CODE: CString := "%3D"

  // ----- oauth_cmpstringp -----

  const THREE_EQUALS: CString := "==="

  /** The name: everything before the first "%3D", which the code overwrites with NUL, '=', '='. */
  function Cut(v: CString): CString {
    var t := Find(v, EQUALS_CODE);
    if t.None? then v else v[..t.value]
  }

  /** What the mark points at once its NUL is an '=' again. */
  function FromMark(v: CString): CString
    requires Find(v, EQUALS_CODE).Some?
  {
    THREE_EQUALS + v[Find(v, EQUALS_CODE).value + 3..]
  }

  /** The comparison as the code makes it, on escaped strings. */
  function CmpEscaped(v1: CString, v2: CString): int {
    var t1, t2 := Find(v1, EQUALS_CODE), Find(v2, EQUALS_CODE);
    var rv := Strcmp(Cut(v1), Cut(v2));
    if rv != 0 then rv
    else if t1.Some? && t2.Some? then Strcmp(FromMark(v1), FromMark(v2))
    else if t1.None? && t2.None? then 0
    else if t1.None? then -1 else 1
  }

  function CmpParam(p: CString, q: CString): int {
    CmpEscaped(Escape(p), Escape(q))
  }

  /** RFC 5849 section 3.4.1.3.2: order by encoded name, then by encoded value. */
  datatype SortKey = SortKey(name: CString, value: Option<CString>)

  function KeyOf(p: CString): SortKey {
    var eq := IndexOf(p, '=');
    if eq.None? then SortKey(Escape(p), None)
    else SortKey(Escape(p[..eq.value]), Some(Escape(p[eq.value + 1..])))
  }

  function CmpKey(a: SortKey, b: SortKey): int {
    if a.name != b.name then Strcmp(a.name, b.name)
    else if a.value.None? then if b.value.None? then 0 else -1
    else if b.value.None? then 1
    else Strcmp(a.value.value, b.value.value)
  }

  lemma FindStep(t: seq<char>, pat: seq<char>)
    requires t != [] && !(pat <= t)
    ensures Find(t, pat) == if Find(t[1..], pat).None? then None else Some(Find(t[1..], pat).value + 1)
  {
  }

  lemma FindPrefix(t: seq<char>, pat: seq<char>)
    requires pat <= t
    ensures Find(t, pat) == Some(0)
  {
  }

  lemma {:induction false} FindShifts(x: seq<char>, s: seq<char>, pat: seq<char>)
    requires pat != [] && forall k :: 0 <= k < |x| ==> !(pat <= (x + s)[k..])
    ensures Find(x + s, pat) == if Find(s, pat).None? then None else Some(|x| + Find(s, pat).value)
  {
    hide Find;
    if x == [] {
      assert x + s == s;
    } else {
      assert (x + s)[0..] == x + s;
      assert (x + s)[1..] == x[1..] + s;
      FindStep(x + s, pat);
      forall k | 0 <= k < |x[1..]|
        ensures !(pat <= (x[1..] + s)[k..])
      {
        assert (x[1..] + s)[k..] == (x + s)[k + 1..];
      }
      FindShifts(x[1..], s, pat);
    }
  }

  lemma NoEqualsCode(c: CChar, s: CString)
    requires c != '='
    ensures forall k :: 0 <= k < |EscapeChar(c)| ==> !(EQUALS_CODE <= (EscapeChar(c) + s)[k..])
  {
    var x, t := EscapeChar(c), EscapeChar(c) + s;
    forall k | 0 <= k < |x|
      ensures !(EQUALS_CODE <= t[k..])
    {
      assert t[k..][0] == t[k] == x[k];
      assert t[0..] == t;
      assert EQUALS_CODE[0] == '%' && EQUALS_CODE[1] == '3' && EQUALS_CODE[2] == 'D';
      assert HexDigit(c as int / 16) != '3' || HexDigit(c as int % 16) != 'D';
    }
  }

  /** The first "%3D" of the escaped text is the first '=' of the text. */
  lemma {:induction false} EqualsCodeMarksEquals(p: CString)
    ensures Find(Escape(p), EQUALS_CODE)
         == if IndexOf(p, '=').None? then None else Some(|Escape(p[..IndexOf(p, '=').value])|)
  {
    hide Unreserved, EscapeChar, Find;
    if p == [] {
      NothingFound();
    } else {
      var x, s := EscapeChar(p[0]), Escape(p[1..]);
      if p[0] == '=' {
        assert x == EQUALS_CODE by { EqualsCode(); }
        assert EQUALS_CODE <= x + s;
        FindPrefix(x + s, EQUALS_CODE);
      } else {
        NoEqualsCode(p[0], s);
        FindShifts(x, s, EQUALS_CODE);
        EqualsCodeMarksEquals(p[1..]);
        var eq := IndexOf(p[1..], '=');
        if eq.Some? {
          assert p[..eq.value + 1][1..] == p[1..][..eq.value];
        }
      }
    }
  }

  lemma NothingFound()
    ensures Find([], EQUALS_CODE) == None
  {
  }

  lemma EqualsCode()
    ensures EscapeChar('=') == EQUALS_CODE
  {
  }

  lemma EscapeAtEquals(p: CString)
    requires '=' in p
    ensures var k := IndexOf(p, '=').value;
      Escape(p) == Escape(p[..k]) + EQUALS_CODE + Escape(p[k + 1..])
  {
    hide Unreserved;
    var k := IndexOf(p, '=').value;
    assert p == p[..k] + p[k..];
    EscapeConcat(p[..k], p[k..]);
    EqualsCode();
    assert p[k..][1..] == p[k + 1..];
  }

  lemma {:induction false} StrcmpSkips(x: CString, a: CString, b: CString)
    ensures Strcmp(x + a, x + b) == Strcmp(a, b)
  {
    if x == [] {
      assert x + a == a && x + b == b;
    } else {
      assert (x + a)[1..] == x[1..] + a && (x + b)[1..] == x[1..] + b;
      StrcmpSkips(x[1..], a, b);
    }
  }

  /** The mark and the two halves of the escaped text, in terms of the parameter. */
  lemma {:induction false} KeyOfHalves(p: CString)
    ensures var v, key := Escape(p), KeyOf(p);
      && Cut(v) == key.name
      && (Find(v, EQUALS_CODE).Some? <==> key.value.Some?)
      && (key.value.Some? ==> FromMark(v) == THREE_EQUALS + key.value.value)
  {
    hide Escape, Find;
    EqualsCodeMarksEquals(p);
    if '=' in p {
      EscapeAtEquals(p);
    }
  }

  /** The code's comparison is the standard's lexicographic order. */
  lemma {:induction false} CmpParamIsKeyOrder(p: CString, q: CString)
    ensures CmpParam(p, q) == CmpKey(KeyOf(p), KeyOf(q))
  {
    hide Escape, Find, Strcmp, Cut, FromMark, KeyOf;
    var a, b := KeyOf(p), KeyOf(q);
    KeyOfHalves(p);
    KeyOfHalves(q);
    StrcmpZero(a.name, b.name);
    if a.value.Some? && b.value.Some? {
      StrcmpSkips(THREE_EQUALS, a.value.value, b.value.value);
    }
  }

  predicate ParamLe(p: CString, q: CString) {
    CmpParam(p, q) <= 0
  }

  /** In words: by encoded name, then a name without a value first, then by encoded value. */
  lemma {:induction false} ParamLeExactly(p: CString, q: CString)
    ensures var a, b := KeyOf(p), KeyOf(q);
      ParamLe(p, q) <==> p == q || Before(a.name, b.name)
                         || (a.name == b.name && b.value.Some?
                             && (a.value.None? || Before(a.value.value, b.value.value)))
  {
    hide Strcmp, CmpParam, KeyOf, Before;
    var a, b := KeyOf(p), KeyOf(q);
    CmpParamIsKeyOrder(p, q);
    CmpParamZero(p, q);
    StrcmpIs(a.name, b.name);
    StrcmpZero(a.name, b.name);
    if a.value.Some? && b.value.Some? {
      StrcmpIs(a.value.value, b.value.value);
    }
  }

  lemma CmpKeyAntisymmetric(a: SortKey, b: SortKey)
    ensures CmpKey(a, b) == -CmpKey(b, a)
  {
    StrcmpAntisymmetric(a.name, b.name);
    if a.value.Some? && b.value.Some? {
      StrcmpAntisymmetric(a.value.value, b.value.value);
    }
  }

  lemma CmpKeyTransitive(a: SortKey, b: SortKey, c: SortKey)
    requires CmpKey(a, b) <= 0 && CmpKey(b, c) <= 0
    ensures CmpKey(a, c) <= 0
  {
    hide Strcmp;
    StrcmpZero(a.name, b.name);
    StrcmpZero(b.name, c.name);
    StrcmpZero(a.name, c.name);
    StrcmpAntisymmetric(a.name, b.name);
    if Strcmp(a.name, b.name) <= 0 && Strcmp(b.name, c.name) <= 0 {
      StrcmpTransitive(a.name, b.name, c.name);
    }
    if a.name == c.name && a.name != b.name {
      StrcmpAntisymmetric(a.name, b.name);
    }
    if a.value.Some? && b.value.Some? && c.value.Some? && a.name == b.name == c.name {
      StrcmpTransitive(a.value.value, b.value.value, c.value.value);
    }
  }

  lemma {:induction false} KeyOfInjective(p: CString, q: CString)
    requires KeyOf(p) == KeyOf(q)
    ensures p == q
  {
    hide Escape;
    var i, j := IndexOf(p, '='), IndexOf(q, '=');
    if i.None? {
      EscapeInjective(p, q);
    } else {
      EscapeInjective(p[..i.value], q[..j.value]);
      EscapeInjective(p[i.value + 1..], q[j.value + 1..]);
      assert p == p[..i.value] + [p[i.value]] + p[i.value + 1..];
      assert q == q[..j.value] + [q[j.value]] + q[j.value + 1..];
    }
  }

  lemma CmpParamZero(p: CString, q: CString)
    ensures CmpParam(p, q) == 0 <==> p == q
  {
    hide Strcmp, CmpParam, KeyOf;
    CmpParamIsKeyOrder(p, q);
    var a, b := KeyOf(p), KeyOf(q);
    StrcmpZero(a.name, b.name);
    if a.value.Some? && b.value.Some? {
      StrcmpZero(a.value.value, b.value.value);
    }
    if a == b {
      KeyOfInjective(p, q);
    }
  }

  /** `oauth_cmpstringp` is a total order that ties only equal strings. */
  lemma {:induction false} ParamOrderIsTotal()
    ensures TotalOrder(ParamLe)
    ensures forall p, q :: CmpParam(p, q) == 0 <==> p == q
  {
    hide CmpKey, CmpParam, KeyOf;
    forall p, q
      ensures CmpParam(p, q) == -CmpParam(q, p)
      ensures CmpParam(p, q) == 0 <==> p == q
    {
      CmpParamIsKeyOrder(p, q);
      CmpParamIsKeyOrder(q, p);
      CmpKeyAntisymmetric(KeyOf(p), KeyOf(q));
      CmpParamZero(p, q);
    }
    forall p, q, r | ParamLe(p, q) && ParamLe(q, r)
      ensures ParamLe(p, r)
    {
      CmpParamIsKeyOrder(p, q);
      CmpParamIsKeyOrder(q, r);
      CmpParamIsKeyOrder(p, r);
      CmpKeyTransitive(KeyOf(p), KeyOf(q), KeyOf(r));
    }
  }

  /** The escaped copy with its mark cut: NUL, '=', '=' in the place of "%3D". */
  function CutText(e: CString, t: Option<nat>): (r: seq<Octet>)
    requires t.Some? ==> t.value + 3 <= |e|
    ensures |r| == |e| + 1
  {
    var text: seq<Octet> := e + [NUL];
    if t.None? then text else text[t.value := NUL][t.value + 1 := '='][t.value + 2 := '=']
  }

  /** `if ((t = strstr(v, "%3D"))) { t[0] = 0; t[1] = '='; t[2] = '='; }` */
  method CutAtMark(v: array<Octet>, n: nat, ghost e: CString) returns (t: Option<nat>)
    requires n < v.Length && v[..n] == e && v[n] == NUL
    modifies v
    ensures t == Find(e, EQUALS_CODE) && (t.Some? ==> t.value + 3 <= n)
    ensures v[..n + 1] == CutText(e, t)
    ensures CStringAt(v[..], 0) == Cut(e)
  {
    hide Find, CStringAt;
    t := Find(v[..n], EQUALS_CODE);
    if t.Some? {
      assert |EQUALS_CODE| <= |e[t.value..]|;
      v[t.value], v[t.value + 1], v[t.value + 2] := NUL, '=', '=';
      assert v[..][0..t.value] == e[..t.value];
    }
    CStringAtIs(v[..], 0, Cut(e));
  }

  /** `*t = '='`, and the string that then starts at the mark. */
  method RestoreMark(v: array<Octet>, n: nat, t: nat, ghost e: CString) returns (s: CString)
    requires n < v.Length && |e| == n && Find(e, EQUALS_CODE) == Some(t) && t + 3 <= n
    requires v[..n + 1] == CutText(e, Some(t))
    modifies v
    ensures s == FromMark(e)
  {
    hide Find;
    ghost var cut := v[..n + 1];
    v[t] := '=';
    assert v[t..n] == THREE_EQUALS + e[t + 3..] by {
      assert v[n] == cut[n] && v[t + 1] == cut[t + 1] && v[t + 2] == cut[t + 2];
      assert forall k :: t + 3 <= k < n ==> v[k] == cut[k] == e[k];
    }
    assert v[n] == cut[n];
    CStringAtIs(v[..], t, FromMark(e));
    s := CStringAt(v[..], t);
  }

  /** `oauth_cmpstringp`, with its in-place cut and restore of the escaped copies. */
  method CmpStringP(p1: CString, p2: CString) returns (rv: int)
    ensures rv == CmpParam(p1, p2)
  {
    hide Escape, Find, CStringAt, CutText, Cut, FromMark, Strcmp;
    var v1, n1 := UrlEscape(p1);
    var v2, n2 := UrlEscape(p2);
    var t1 := CutAtMark(v1, n1, Escape(p1));
    var t2 := CutAtMark(v2, n2, Escape(p2));
    rv := Strcmp(CStringAt(v1[..], 0), CStringAt(v2[..], 0));
    if rv != 0 {
      return;
    }
    if t1.Some? && t2.Some? {
      var s1 := RestoreMark(v1, n1, t1.value, Escape(p1));
      var s2 := RestoreMark(v2, n2, t2.value, Escape(p2));
      rv := Strcmp(s1, s2);
    } else if t1.None? && t2.None? {
      rv := 0;
    } else {
      rv := if t1.None? then -1 else 1;
    }
  }

  // ----- oauth_catenc -----

  function CatEnc(args: seq<CString>): CString {
    if args == [] then []
    else Escape(args[0]) + if |args| == 1 then [] else "&" + CatEnc(args[1..])
  }

  lemma {:induction false} CatEncSnoc(args: seq<CString>, i: nat)
    requires i < |args|
    ensures CatEnc(args[..i + 1]) == CatEnc(args[..i]) + (if i > 0 then "&" else []) + Escape(args[i])
    decreases i
  {
    hide Escape;
    if i == 0 {
      assert args[..1] == [args[0]];
    } else {
      assert args[..i + 1][1..] == args[1..][..i];
      assert args[..i][1..] == args[1..][..i - 1];
      CatEncSnoc(args[1..], i - 1);
    }
  }

  /** `oauth_url_escape` makes an empty string of a null pointer. */
  function Present(args: seq<Option<CString>>): (r: seq<CString>)
    ensures |r| == |args|
  {
    if args == [] then [] else [if args[0].None? then [] else args[0].value] + Present(args[1..])
  }

  lemma {:induction false} PresentAt(args: seq<Option<CString>>, i: nat)
    requires i < |args|
    ensures Present(args)[i] == if args[i].None? then [] else args[i].value
  {
    if i > 0 {
      PresentAt(args[1..], i - 1);
    }
  }

  method CatEncode(args: seq<Option<CString>>) returns (rv: CString)
    ensures rv == CatEnc(Present(args))
  {
    ghost var strings := Present(args);
    rv := [];
    for i := 0 to |args|
      invariant rv == CatEnc(strings[..i])
    {
      hide Escape, CatEnc, Present;
      PresentAt(args, i);
      var enc, len := UrlEscape(if args[i].None? then [] else args[i].value);
      CatEncSnoc(strings, i);
      rv := rv + (if i > 0 then "&" else []) + enc[..len];
    }
    assert strings[..|args|] == strings;
  }

  /** Two texts split alike at the first of their delimiters. */
  lemma FirstPieceIsDelimited(delim: char, x: CString, y: CString, s: CString, t: CString)
    requires delim !in x && delim !in y
    requires (s != [] ==> s[0] == delim) && (t != [] ==> t[0] == delim)
    requires x + s == y + t
    ensures x == y && s == t
  {
    var l, r := x + s, y + t;
    assert |x| < |l| ==> l[|x|] == delim;
    assert |y| < |r| ==> r[|y|] == delim;
    assert |x| == |y|;
    assert l[..|x|] == x && r[..|y|] == y;
    assert l[|x|..] == s && r[|y|..] == t;
  }

  /** The concatenation determines its arguments, and even their number. */
  lemma {:induction false} CatEncInjective(a: seq<CString>, b: seq<CString>)
    requires a != [] && b != [] && CatEnc(a) == CatEnc(b)
    ensures a == b
  {
    hide Escape;
    EscapeAvoids(a[0], '&');
    EscapeAvoids(b[0], '&');
    var s: CString := if |a| == 1 then [] else "&" + CatEnc(a[1..]);
    var t: CString := if |b| == 1 then [] else "&" + CatEnc(b[1..]);
    FirstPieceIsDelimited('&', Escape(a[0]), Escape(b[0]), s, t);
    EscapeInjective(a[0], b[0]);
    if |a| > 1 && |b| > 1 {
      assert s[1..] == CatEnc(a[1..]) && t[1..] == CatEnc(b[1..]);
      CatEncInjective(a[1..], b[1..]);
    }
    assert a == [a[0]] + a[1..] && b == [b[0]] + b[1..];
  }
}
