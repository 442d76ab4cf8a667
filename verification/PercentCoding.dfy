/** Percent-encoding (RFC 3986 section 2.1) as the OAuth library and the daemon's HTTP tokens use it. */
module PercentCoding {
  import opened Octets

  /** Unreserved characters, RFC 3986 section 2.3. */
  predicate Unreserved(c: char) {
    '0' <= c <= '9' || 'a' <= c <= 'z' || 'A' <= c <= 'Z' || c == '_' || c == '~' || c == '.' || c == '-'
  }

  /** One digit of printf's %02X. */
  function HexDigit(n: nat): (c: CChar)
    requires n < 16
  {
    if n < 10 then ('0' as int + n) as char else ('A' as int + n - 10) as char
  }

  /** `isxdigit`, which also accepts lower case. */
  predicate IsHexDigit(c: char) {
    '0' <= c <= '9' || 'a' <= c <= 'f' || 'A' <= c <= 'F'
  }

  function HexValue(c: char): (n: nat)
    requires IsHexDigit(c)
    ensures n < 16
  {
    if c <= '9' then c as int - '0' as int
    else if c <= 'F' then c as int - 'A' as int + 10
    else c as int - 'a' as int + 10
  }

  function EscapeChar(c: CChar): (t: CString)
    ensures |t| == if Unreserved(c) then 1 else 3
  {
    if Unreserved(c) then [c] else ['%', HexDigit(c as int / 16), HexDigit(c as int % 16)]
  }

  function Escape(s: CString): CString {
    if s == [] then [] else EscapeChar(s[0]) + Escape(s[1..])
  }

  predicate StartsTriple(t: seq<char>) {
    |t| >= 3 && t[0] == '%' && IsHexDigit(t[1]) && IsHexDigit(t[2])
  }

  function TripleValue(t: seq<char>): Octet
    requires StartsTriple(t)
  {
    (16 * HexValue(t[1]) + HexValue(t[2])) as char
  }

  /** What the decoder leaves in its buffer; "%00" puts a NUL there. */
  function Unescape(t: CString): seq<Octet> {
    if t == [] then []
    else if StartsTriple(t) then [TripleValue(t)] + Unescape(t[3..])
    else [t[0]] + Unescape(t[1..])
  }

  /**
   * The output language of the encoder: unreserved characters, and upper-case triples for
   * every other octet but NUL.
   */
  predicate Escaped(t: CString) {
    if t == [] then true
    else if t[0] == '%' then
      && StartsTriple(t)
      && TripleValue(t) != NUL && !Unreserved(TripleValue(t)) && t[..3] == EscapeChar(TripleValue(t))
      && Escaped(t[3..])
    else Unreserved(t[0]) && Escaped(t[1..])
  }

  // ----- the encoder and the decoder are inverse bijections -----

  lemma TripleDecodes(c: CChar, x: CString)
    requires !Unreserved(c)
    ensures StartsTriple(EscapeChar(c) + x)
    ensures Unescape(EscapeChar(c) + x) == [c] + Unescape(x)
  {
    var t := EscapeChar(c) + x;
    assert t[1] == HexDigit(c as int / 16) && t[2] == HexDigit(c as int % 16);
    assert t[3..] == x;
  }

  lemma EscapedCharDecodes(c: CChar, x: CString)
    ensures Unescape(EscapeChar(c) + x) == [c] + Unescape(x)
  {
    if Unreserved(c) {
      assert (EscapeChar(c) + x)[1..] == x;
    } else {
      TripleDecodes(c, x);
    }
  }

  lemma {:induction false} UnescapeEscapePrefix(s: CString, x: CString)
    ensures Unescape(Escape(s) + x) == s + Unescape(x)
  {
    hide Unescape, Unreserved, EscapeChar;
    if s == [] {
      assert Escape(s) + x == x;
    } else {
      calc {
        Unescape(Escape(s) + x);
        { assert Escape(s) + x == EscapeChar(s[0]) + (Escape(s[1..]) + x); }
        Unescape(EscapeChar(s[0]) + (Escape(s[1..]) + x));
        { EscapedCharDecodes(s[0], Escape(s[1..]) + x); }
        [s[0]] + Unescape(Escape(s[1..]) + x);
        { UnescapeEscapePrefix(s[1..], x); }
        [s[0]] + (s[1..] + Unescape(x));
        s + Unescape(x);
      }
    }
  }

  /** Decoding undoes encoding, for every C string. */
  lemma {:induction false} UnescapeEscape(s: CString)
    ensures Unescape(Escape(s)) == s
  {
    UnescapeEscapePrefix(s, []);
    assert Escape(s) + [] == Escape(s);
  }

  lemma {:induction false} EscapeInjective(a: CString, b: CString)
    requires Escape(a) == Escape(b)
    ensures a == b
  {
    UnescapeEscape(a);
    UnescapeEscape(b);
  }

  /** Only unreserved characters and upper-case triples come out. */
  lemma {:induction false} EscapeIsEscaped(s: CString)
    ensures Escaped(Escape(s))
  {
    if s != [] {
      EscapeIsEscaped(s[1..]);
      var t := Escape(s);
      if Unreserved(s[0]) {
        assert t[1..] == Escape(s[1..]);
      } else {
        assert t[..3] == EscapeChar(s[0]) && t[3..] == Escape(s[1..]);
      }
    }
  }

  /** Encoding undoes decoding on that language, so the encoder is onto it. */
  lemma {:induction false} EscapeUnescape(t: CString)
    requires Escaped(t)
    ensures NUL !in Unescape(t)
    ensures Escape(Unescape(t)) == t
  {
    if t == [] {
    } else if t[0] == '%' {
      var c := TripleValue(t);
      EscapeUnescape(t[3..]);
      assert t == EscapeChar(c) + t[3..];
      TripleDecodes(c, t[3..]);
      assert Unescape(t)[1..] == Unescape(t[3..]);
    } else {
      EscapeUnescape(t[1..]);
      assert Unescape(t)[1..] == Unescape(t[1..]);
      assert t == [t[0]] + t[1..];
    }
  }

  /** No reserved character survives encoding. */
  lemma {:induction false} EscapeAvoids(s: CString, c: char)
    requires !Unreserved(c) && c != '%'
    ensures c !in Escape(s)
  {
    if s != [] {
      EscapeAvoids(s[1..], c);
    }
  }

  lemma {:induction false} EscapeConcat(a: CString, b: CString)
    ensures Escape(a + b) == Escape(a) + Escape(b)
  {
    if a == [] {
      assert a + b == b;
    } else {
      assert (a + b)[1..] == a[1..] + b;
      EscapeConcat(a[1..], b);
    }
  }

  lemma {:induction false} EscapeUnreserved(s: CString)
    requires forall i :: 0 <= i < |s| ==> Unreserved(s[i])
    ensures Escape(s) == s
  {
    if s != [] {
      EscapeUnreserved(s[1..]);
    }
  }

  // ----- the loops -----

  lemma EscapeSnoc(s: CString, i: nat)
    requires i < |s|
    ensures Escape(s[..i + 1]) == Escape(s[..i]) + EscapeChar(s[i])
  {
    assert s[..i + 1] == s[..i] + [s[i]];
    EscapeConcat(s[..i], [s[i]]);
    assert Escape([s[i]]) == EscapeChar(s[i]) + Escape([]);
  }

  lemma UnreservedStays(c: CChar)
    requires Unreserved(c)
    ensures EscapeChar(c) == [c]
  {
  }

  lemma NothingToEscape()
    ensures Escape([]) == []
  {
  }

  /** `snprintf(&ns[at], 4, "%%%02X", c)`: three characters and a NUL. */
  method PutTriple(ns: array<Octet>, at: nat, c: CChar)
    requires !Unreserved(c)
    requires at + 4 <= ns.Length
    modifies ns
    ensures ns[..at + 3] == old(ns[..at]) + EscapeChar(c)
  {
    ns[at], ns[at + 1] := '%', HexDigit(c as int / 16);
    ns[at + 2], ns[at + 3] := HexDigit(c as int % 16), NUL;
  }

  /**
   * `oauth_url_escape`. `newlen` always equals what is written plus what is left plus the
   * terminator, and doubling once keeps the block at least that large, so the four-byte
   * write of a triple with its NUL stays inside.
   */
  method UrlEscape(str: CString) returns (ns: array<Octet>, strindex: nat)
    ensures fresh(ns) && strindex < ns.Length
    ensures ns[..strindex] == Escape(str) && ns[strindex] == NUL
  {
    hide Unreserved, Escape, EscapeChar;
    var alloc: nat, newlen: nat := |str| + 1, |str| + 1;
    ns := new Octet[alloc];
    strindex := 0;
    var i := 0;
    NothingToEscape();
    while i < |str|
      invariant 0 <= i <= |str|
      invariant fresh(ns) && ns.Length == alloc
      invariant alloc >= newlen == strindex + (|str| - i) + 1
      invariant ns[..strindex] == Escape(str[..i])
    {
      if Unreserved(str[i]) {
        UnreservedStays(str[i]);
        ns[strindex] := str[i];
        strindex := strindex + 1;
      } else {
        newlen := newlen + 2;
        if newlen > alloc {
          alloc := alloc * 2;
          ns := Realloc(ns, alloc);
        }
        PutTriple(ns, strindex, str[i]);
        strindex := strindex + 3;
      }
      EscapeSnoc(str, i);
      i := i + 1;
    }
    assert str[..i] == str;
    ns[strindex] := NUL;
  }

  lemma UnescapeStep(str: CString, i: nat)
    requires i < |str|
    ensures Unescape(str[i..])
         == if StartsTriple(str[i..]) then [TripleValue(str[i..])] + Unescape(str[i + 3..])
            else [str[i]] + Unescape(str[i + 1..])
    ensures StartsTriple(str[i..]) ==> i + 3 <= |str|
  {
    assert str[i..][1..] == str[i + 1..];
    if StartsTriple(str[i..]) {
      assert str[i..][3..] == str[i + 3..];
    }
  }

  /** `oauth_url_unescape`: the decoded text never outgrows the block sized for the input. */
  method UrlUnescape(str: CString) returns (ns: array<Octet>, olen: nat)
    ensures fresh(ns) && olen < ns.Length == |str| + 1
    ensures ns[..olen] == Unescape(str) && ns[olen] == NUL
  {
    hide Unescape, StartsTriple, TripleValue;
    var alloc: nat := |str| + 1;
    ns := new Octet[alloc];
    olen := 0;
    var i := 0;
    alloc := alloc - 1;
    while alloc > 0
      invariant i + alloc == |str| && olen <= i
      invariant fresh(ns) && ns.Length == |str| + 1
      invariant ns[..olen] + Unescape(str[i..]) == Unescape(str)
    {
      UnescapeStep(str, i);
      if StartsTriple(str[i..]) {
        ns[olen] := TripleValue(str[i..]);
        i := i + 2;
        alloc := alloc - 2;
      } else {
        ns[olen] := str[i];
      }
      olen := olen + 1;
      i := i + 1;
      alloc := alloc - 1;
    }
    assert str[i..] == [];
    NothingToUnescape();
    ns[olen] := NUL;
  }

  lemma NothingToUnescape()
    ensures Unescape([]) == []
  {
  }

  // ----- in figures -----

  const UNRESERVED: CString := UPPER_CASE + LOWER_CASE + DIGITS + "-._~"
  const UPPER_DIGITS: CString := "0123456789ABCDEF"
  const LOWER_DIGITS: CString := "0123456789abcdef"

  lemma DigitAt(i: nat)
    requires i < 16
    ensures HexDigit(i) == UPPER_DIGITS[i] && IsHexDigit(UPPER_DIGITS[i]) && IsHexDigit(LOWER_DIGITS[i])
    ensures HexValue(UPPER_DIGITS[i]) == i == HexValue(LOWER_DIGITS[i])
  {
  }

  /** Exactly the 66 characters of section 2.3 stay; any other is a triple of two upper-case digits. */
  lemma {:induction false} EscapedCharacter(c: CChar)
    ensures EscapeChar(c) == if c in UNRESERVED then [c]
                             else ['%', UPPER_DIGITS[c as int / 16], UPPER_DIGITS[c as int % 16]]
  {
    DigitAt(c as int / 16);
    DigitAt(c as int % 16);
    hide HexDigit;
    UnreservedCharacters(c);
  }

  lemma UnreservedCharacters(c: CChar)
    ensures Unreserved(c) <==> c in UNRESERVED
  {
    LettersAre(c);
    hide UPPER_CASE, LOWER_CASE, DIGITS;
    assert c in "-._~" <==> c == '-' || c == '.' || c == '_' || c == '~';
  }

  /** Digits of either case are decoded. */
  lemma {:induction false} TripleOfDigits(i: nat, j: nat, d: CChar, e: CChar, x: CString)
    requires i < 16 && j < 16
    requires (d == UPPER_DIGITS[i] || d == LOWER_DIGITS[i]) && (e == UPPER_DIGITS[j] || e == LOWER_DIGITS[j])
    ensures Unescape(['%', d, e] + x) == [(16 * i + j) as char] + Unescape(x)
  {
    DigitAt(i);
    DigitAt(j);
    hide HexDigit, HexValue, IsHexDigit;
    assert (['%', d, e] + x)[3..] == x;
  }

  /** Whatever else follows a percent sign, it stands for itself. */
  lemma {:induction false} NoTriple(t: CString)
    requires t != []
    requires t[0] != '%' || |t| < 3
             || (t[1] !in UPPER_DIGITS && t[1] !in LOWER_DIGITS) || (t[2] !in UPPER_DIGITS && t[2] !in LOWER_DIGITS)
    ensures Unescape(t) == [t[0]] + Unescape(t[1..])
  {
    if |t| >= 3 {
      DigitCharacters(t[1]);
      DigitCharacters(t[2]);
    }
  }

  lemma DigitCharacters(c: CChar)
    ensures IsHexDigit(c) ==> c in UPPER_DIGITS || c in LOWER_DIGITS
  {
    if IsHexDigit(c) {
      DigitAt(HexValue(c));
    }
  }
}
