/** Serialising a selection of the parameters, with a separator and quotes, as for a request header. */
module OAuthSelection {
  import opened Octets
  import opened PercentCoding
  import opened OAuthUrl
  import opened OAuthRoundTrip
  import opened OAuthSignature

  /** The parameters that a mode does not skip; index 0 of the array is not among them. */
  function Selected(ps: seq<CString>, mod: nat): seq<CString> {
    if ps == [] then []
    else (if Skipped(ps[0], 1, mod) then [] else [ps[0]]) + Selected(ps[1..], mod)
  }

  function Written(ps: seq<CString>, first: bool, sep: CString, quoted: bool): CString {
    if ps == [] then []
    else (if first then [] else sep) + Param(ps[0], quoted) + Written(ps[1..], false, sep, quoted)
  }

  /** From index 1 on, every mode writes the selected parameters with the separator between them. */
  lemma {:induction false} SerializeSelected(argv: seq<CString>, start: nat, i: nat, first: bool,
                                             sep: CString, mod: nat)
    requires 1 <= i <= |argv|
    ensures SerializeFrom(argv, start, i, first, sep, mod)
         == Written(Selected(argv[i..], mod), first, sep, mod / 4 % 2 == 1)
    decreases |argv| - i
  {
    hide *;
    SerializeStep(argv, start, i, first, sep, mod);
    if i == |argv| {
      assert argv[i..] == [];
      NothingWritten(first, sep, mod);
    } else {
      var skipped := Skipped(argv[i], 1, mod);
      PieceOf(argv, start, i, first, sep, mod);
      SerializeSelected(argv, start, i + 1, skipped && first, sep, mod);
      assert argv[i..][0] == argv[i] && argv[i..][1..] == argv[i + 1..];
      WrittenStep(argv[i..], first, sep, mod);
      if skipped {
        assert [] + Written(Selected(argv[i + 1..], mod), first, sep, mod / 4 % 2 == 1)
            == Written(Selected(argv[i + 1..], mod), first, sep, mod / 4 % 2 == 1);
      }
    }
  }

  lemma NothingWritten(first: bool, sep: CString, mod: nat)
    ensures Written(Selected([], mod), first, sep, mod / 4 % 2 == 1) == []
  {
  }

  lemma PieceOf(argv: seq<CString>, start: nat, i: nat, first: bool, sep: CString, mod: nat)
    requires 1 <= i < |argv|
    ensures Skipped(argv[i], i, mod) == Skipped(argv[i], 1, mod) && !IsBaseUrl(argv, start, i)
    ensures Piece(argv, start, i, first, sep, mod)
         == if Skipped(argv[i], 1, mod) then []
            else (if first then [] else sep) + Param(argv[i], mod / 4 % 2 == 1)
  {
    hide Param, IsOAuth;
  }

  lemma WrittenStep(ps: seq<CString>, first: bool, sep: CString, mod: nat)
    requires ps != []
    ensures var quoted, rest := mod / 4 % 2 == 1, Selected(ps[1..], mod);
      Written(Selected(ps, mod), first, sep, quoted)
      == if Skipped(ps[0], 1, mod) then Written(rest, first, sep, quoted)
         else (if first then [] else sep) + Param(ps[0], quoted) + Written(rest, false, sep, quoted)
  {
    hide Param, Skipped;
    var rest := Selected(ps[1..], mod);
    if Skipped(ps[0], 1, mod) {
      assert Selected(ps, mod) == rest;
    } else {
      assert Selected(ps, mod) == [ps[0]] + rest;
      assert ([ps[0]] + rest)[1..] == rest;
    }
  }

  /** Mode 1 leaves out the protocol's own parameters and mode 2 all others: each is written once. */
  lemma {:induction false} ModesSplit(ps: seq<CString>)
    ensures multiset(Selected(ps, 1)) + multiset(Selected(ps, 2)) == multiset(ps)
    ensures forall p :: p in Selected(ps, 1) ==> !IsOAuth(p)
    ensures forall p :: p in Selected(ps, 2) ==> IsOAuth(p)
    ensures Selected(ps, 0) == ps && Selected(ps, 3) == []
  {
    hide Skipped, IsOAuth;
    if ps != [] {
      var p := ps[0];
      assert ps == [p] + ps[1..];
      ModesSplit(ps[1..]);
      ModesSkip(p);
    }
  }

  lemma ModesSkip(p: CString)
    ensures !Skipped(p, 1, 0) && Skipped(p, 1, 3)
    ensures (Skipped(p, 1, 1) <==> IsOAuth(p)) && (Skipped(p, 1, 2) <==> !IsOAuth(p))
  {
    hide IsOAuth;
  }

  /** Quoting is no part of the selection. */
  lemma {:induction false} QuotesSelectAlike(ps: seq<CString>, mod: nat)
    requires mod < 4
    ensures Selected(ps, mod + 4) == Selected(ps, mod)
  {
    hide IsOAuth;
    if ps != [] {
      QuotesSelectAlike(ps[1..], mod);
    }
  }

  /** Name with '=', value, and what follows the closing quote. */
  lemma QuotedParts(p: CString, s: CString)
    requires '=' in p
    ensures var i := IndexOf(p, '=').value; var n, v := Escape(p[..i]), Escape(p[i + 1..]);
      && Param(p, true) + s == n + "=" + ("\"" + (v + ("\"" + s)))
      && '"' !in n && '"' !in v
  {
    hide Escape, Unreserved;
    var i := IndexOf(p, '=').value;
    EscapeAvoids(p[..i], '"') by { QuoteIsReserved(); }
    EscapeAvoids(p[i + 1..], '"') by { QuoteIsReserved(); }
  }

  /** The end of a quoted parameter can be told, whatever follows. */
  lemma FirstQuoted(p: CString, q: CString, s: CString, t: CString)
    requires '=' in p && '=' in q && Param(p, true) + s == Param(q, true) + t
    ensures p == q && s == t
  {
    var i, j := IndexOf(p, '=').value, IndexOf(q, '=').value;
    QuotedParts(p, s);
    QuotedParts(q, t);
    hide Escape, Param, IndexOf;
    var n1: CString, n2: CString := Escape(p[..i]) + "=", Escape(q[..j]) + "=";
    var v1, v2 := Escape(p[i + 1..]), Escape(q[j + 1..]);
    var x1: CString, x2: CString := "\"" + s, "\"" + t;
    var y1: CString, y2: CString := "\"" + (v1 + x1), "\"" + (v2 + x2);
    FirstPieceIsDelimited('"', n1, n2, y1, y2);
    assert y1[1..] == v1 + x1 && y2[1..] == v2 + x2;
    FirstPieceIsDelimited('"', v1, v2, x1, x2);
    assert x1[1..] == s && x2[1..] == t;
    SameAssignment(p, q, i, j);
  }

  lemma SameAssignment(p: CString, q: CString, i: nat, j: nat)
    requires i < |p| && p[i] == '=' && j < |q| && q[j] == '='
    requires Escape(p[..i]) + "=" == Escape(q[..j]) + "=" && Escape(p[i + 1..]) == Escape(q[j + 1..])
    ensures p == q
  {
    hide Escape;
    var n1: CString, n2: CString := Escape(p[..i]) + "=", Escape(q[..j]) + "=";
    assert n1[..|n1| - 1] == Escape(p[..i]) && n2[..|n2| - 1] == Escape(q[..j]);
    EscapeInjective(p[..i], q[..j]);
    EscapeInjective(p[i + 1..], q[j + 1..]);
    assert p == p[..i] + [p[i]] + p[i + 1..] && q == q[..j] + [q[j]] + q[j + 1..];
  }

  lemma QuoteIsReserved()
    ensures !Unreserved('"')
  {
  }

  lemma ParamIsNotEmpty(p: CString, quoted: bool)
    ensures Param(p, quoted) != []
  {
    hide Escape;
  }

  lemma WrittenFirst(ps: seq<CString>, first: bool, sep: CString, quoted: bool)
    ensures Written(ps, first, sep, quoted)
         == if ps == [] then [] else (if first then [] else sep) + Param(ps[0], quoted)
                                     + Written(ps[1..], false, sep, quoted)
  {
    hide Param;
  }

  lemma TailWritten(ps: seq<CString>, sep: CString, quoted: bool)
    ensures Written(ps, false, sep, quoted) == if ps == [] then [] else sep + Written(ps, true, sep, quoted)
    ensures Written(ps, true, sep, quoted) == [] <==> ps == []
  {
    hide Param, Written;
    WrittenFirst(ps, false, sep, quoted);
    WrittenFirst(ps, true, sep, quoted);
    if ps != [] {
      ParamIsNotEmpty(ps[0], quoted);
      var rest := Written(ps[1..], false, sep, quoted);
      assert sep + Param(ps[0], quoted) + rest == sep + (Param(ps[0], quoted) + rest);
      assert [] + Param(ps[0], quoted) == Param(ps[0], quoted);
    }
  }

  /** With quotes, any separator will do: the text determines the assignments it is made of. */
  lemma {:induction false} QuotedDetermines(ps: seq<CString>, qs: seq<CString>, sep: CString)
    requires AllAssignments(ps) && AllAssignments(qs)
    requires Written(ps, true, sep, true) == Written(qs, true, sep, true)
    ensures ps == qs
  {
    TailWritten(ps, sep, true);
    TailWritten(qs, sep, true);
    hide Param;
    if ps != [] {
      var s, t := Written(ps[1..], false, sep, true), Written(qs[1..], false, sep, true);
      assert Written(ps, true, sep, true) == Param(ps[0], true) + s;
      assert Written(qs, true, sep, true) == Param(qs[0], true) + t;
      FirstQuoted(ps[0], qs[0], s, t);
      TailWritten(ps[1..], sep, true);
      TailWritten(qs[1..], sep, true);
      assert ps[1..] != [] ==> s[|sep|..] == Written(ps[1..], true, sep, true);
      assert qs[1..] != [] ==> t[|sep|..] == Written(qs[1..], true, sep, true);
      QuotedDetermines(ps[1..], qs[1..], sep);
      assert ps == [ps[0]] + ps[1..] && qs == [qs[0]] + qs[1..];
    }
  }

  /** The protocol's own parameters are those with one of two prefixes. */
  lemma {:induction false} OAuthNames(x: CString, p: CString)
    ensures IsOAuth("oauth_" + x) && IsOAuth("x_oauth_" + x)
    ensures IsOAuth(p) ==> (|p| >= 6 && p == "oauth_" + p[6..]) || (|p| >= 8 && p == "x_oauth_" + p[8..])
  {
    assert "oauth_" <= "oauth_" + x && "x_oauth_" <= "x_oauth_" + x;
  }

  /** The whole array: its URL comes first in every mode that does not take it for a protocol parameter. */
  lemma {:induction false} SerializeWithUrl(argv: seq<CString>, sep: CString, mod: nat)
    requires argv != [] && Find(argv[0], ":/").Some? && !IsOAuth(argv[0])
    ensures SerializeFrom(argv, 0, 0, true, sep, mod)
         == EncodeSpaces(argv[0]) + "?" + Written(Selected(argv[1..], mod), true, sep, mod / 4 % 2 == 1)
  {
    hide SerializeFrom, Find, IsOAuth, EncodeSpaces, Written, Selected, Param;
    SerializeStep(argv, 0, 0, true, sep, mod);
    SerializeSelected(argv, 0, 1, true, sep, mod);
    assert [] + EncodeSpaces(argv[0]) == EncodeSpaces(argv[0]);
  }
}
