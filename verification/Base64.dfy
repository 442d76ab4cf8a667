/** Base64 (RFC 4648 section 4) as the OAuth library encodes and leniently decodes it. */
module Base64 {
  import opened Bytes
  import opened Octets

  function EncodeChar(u: nat): (c: CChar)
    requires u < 64
  {
    if u < 26 then ('A' as int + u) as char
    else if u < 52 then ('a' as int + u - 26) as char
    else if u < 62 then ('0' as int + u - 52) as char
    else if u == 62 then '+' else '/'
  }

  /** Every other character, '/' and '=' among them, decodes to 63. */
  function DecodeChar(c: char): (u: nat)
    ensures u < 64
  {
    if 'A' <= c <= 'Z' then c as int - 'A' as int
    else if 'a' <= c <= 'z' then c as int - 'a' as int + 26
    else if '0' <= c <= '9' then c as int - '0' as int + 52
    else if c == '+' then 62 else 63
  }

  predicate IsBase64(c: char) {
    'A' <= c <= 'Z' || 'a' <= c <= 'z' || '0' <= c <= '9' || c == '+' || c == '/' || c == '='
  }

  lemma CharRoundTrip(u: nat)
    requires u < 64
    ensures DecodeChar(EncodeChar(u)) == u && IsBase64(EncodeChar(u)) && EncodeChar(u) != '='
  {
  }

  /** The four characters for up to three bytes, padded with '='. */
  function EncodeGroup(g: seq<Byte>): (t: CString)
    requires 1 <= |g| <= 3
    ensures |t| == 4
  {
    var b1, b2, b3 := g[0], if |g| > 1 then g[1] else 0, if |g| > 2 then g[2] else 0;
    [EncodeChar(b1 / 4), EncodeChar(b1 % 4 * 16 + b2 / 16),
     if |g| > 1 then EncodeChar(b2 % 16 * 4 + b3 / 64) else '=',
     if |g| > 2 then EncodeChar(b3 % 64) else '=']
  }

  function Encode(src: seq<Byte>): CString {
    if src == [] then []
    else if |src| <= 3 then EncodeGroup(src)
    else EncodeGroup(src[..3]) + Encode(src[3..])
  }

  function EncodedLength(n: nat): nat {
    4 * ((n + 2) / 3)
  }

  /** The text with everything that is not base64 dropped. */
  function Keep(s: CString): CString {
    if s == [] then [] else (if IsBase64(s[0]) then [s[0]] else []) + Keep(s[1..])
  }

  /** The bytes of up to four characters; missing ones count as 'A'. */
  function DecodeGroup(g: CString): (bs: seq<Byte>)
    requires 1 <= |g| <= 4
  {
    var c2, c3, c4 := if |g| > 1 then g[1] else 'A', if |g| > 2 then g[2] else 'A', if |g| > 3 then g[3] else 'A';
    var b1, b2, b3, b4 := DecodeChar(g[0]), DecodeChar(c2), DecodeChar(c3), DecodeChar(c4);
    [(b1 * 4 + b2 / 16) % 256]
    + (if c3 != '=' then [b2 % 16 * 16 + b3 / 4] else [])
    + (if c4 != '=' then [b3 % 4 * 64 + b4] else [])
  }

  function Decode(t: CString): seq<Byte> {
    if t == [] then []
    else if |t| <= 4 then DecodeGroup(t)
    else DecodeGroup(t[..4]) + Decode(t[4..])
  }

  lemma Regroup(b1: Byte, b2: Byte, b3: Byte)
    ensures var u1, u2, u3, u4 := b1 / 4, b1 % 4 * 16 + b2 / 16, b2 % 16 * 4 + b3 / 64, b3 % 64;
      && u1 < 64 && u2 < 64 && u3 < 64 && u4 < 64
      && (u1 * 4 + u2 / 16) % 256 == b1 && u2 % 16 * 16 + u3 / 4 == b2 && u3 % 4 * 64 + u4 == b3
  {
    assert (b1 % 4 * 16 + b2 / 16) / 16 == b1 % 4;
    assert (b1 % 4 * 16 + b2 / 16) % 16 == b2 / 16;
  }

  lemma DecodeFour(t: CString, n: nat, b1: Byte, b2: Byte, b3: Byte)
    requires |t| == 4 && 1 <= n <= 3
    requires DecodeChar(t[0]) == b1 / 4 && DecodeChar(t[1]) == b1 % 4 * 16 + b2 / 16
    requires if n > 1 then DecodeChar(t[2]) == b2 % 16 * 4 + b3 / 64 && t[2] != '=' else t[2] == '=' && b2 == 0
    requires if n > 2 then DecodeChar(t[3]) == b3 % 64 && t[3] != '=' else t[3] == '=' && b3 == 0
    ensures DecodeGroup(t) == [b1] + (if n > 1 then [b2] else []) + (if n > 2 then [b3] else [])
  {
    Regroup(b1, b2, b3);
    hide DecodeChar;
  }

  lemma GroupRoundTrip(g: seq<Byte>)
    requires 1 <= |g| <= 3
    ensures DecodeGroup(EncodeGroup(g)) == g
  {
    hide EncodeChar, DecodeChar, IsBase64, DecodeGroup;
    var b1, b2, b3 := g[0], if |g| > 1 then g[1] else 0, if |g| > 2 then g[2] else 0;
    CharRoundTrip(b1 / 4);
    CharRoundTrip(b1 % 4 * 16 + b2 / 16);
    CharRoundTrip(b2 % 16 * 4 + b3 / 64);
    CharRoundTrip(b3 % 64);
    DecodeFour(EncodeGroup(g), |g|, b1, b2, b3);
  }

  lemma {:induction false} EncodeLength(src: seq<Byte>)
    ensures |Encode(src)| == EncodedLength(|src|)
  {
    hide EncodeGroup;
    if |src| > 3 {
      EncodeLength(src[3..]);
    }
  }

  lemma {:induction false} DecodeEncode(src: seq<Byte>)
    ensures Decode(Encode(src)) == src
  {
    hide EncodeGroup, DecodeGroup;
    if src == [] {
    } else if |src| <= 3 {
      GroupRoundTrip(src);
    } else {
      GroupRoundTrip(src[..3]);
      DecodeEncode(src[3..]);
      var g, rest := EncodeGroup(src[..3]), Encode(src[3..]);
      assert (g + rest)[..4] == g && (g + rest)[4..] == rest;
      EncodeLength(src[3..]);
    }
  }

  lemma {:induction false} KeepEncode(src: seq<Byte>)
    ensures forall i :: 0 <= i < |Encode(src)| ==> IsBase64(Encode(src)[i])
  {
    hide EncodeChar, IsBase64;
    forall u: nat | u < 64
      ensures IsBase64(EncodeChar(u))
    {
      CharRoundTrip(u);
    }
    assert IsBase64('=') by {
      PaddingIsBase64();
    }
    if |src| > 3 {
      KeepEncode(src[3..]);
    }
  }

  lemma PaddingIsBase64()
    ensures IsBase64('=')
  {
  }

  /**
   * Decoding gives the bytes back from any text whose base64 characters are their encoding,
   * whatever else is interleaved.
   */
  lemma {:induction false} DecodeInterleaved(src: seq<Byte>, text: CString)
    requires Keep(text) == Encode(src)
    ensures Decode(Keep(text)) == src
  {
    DecodeEncode(src);
  }

  lemma {:induction false} KeepAll(t: CString)
    requires forall i :: 0 <= i < |t| ==> IsBase64(t[i])
    ensures Keep(t) == t
  {
    if t != [] {
      KeepAll(t[1..]);
    }
  }

  /** In particular from the encoder's own output. */
  lemma {:induction false} DecodeOwnOutput(src: seq<Byte>)
    ensures Decode(Keep(Encode(src))) == src
  {
    KeepEncode(src);
    KeepAll(Encode(src));
    DecodeEncode(src);
  }

  /** The encoder's block is always large enough, and exactly so when one byte is left over. */
  lemma {:induction false} EncodedFits(n: nat)
    ensures EncodedLength(n) + 1 <= n * 4 / 3 + 4
    ensures EncodedLength(n) + 1 == n * 4 / 3 + 4 <==> n % 3 == 1
  {
    var k, r := n / 3, n % 3;
    assert n == 3 * k + r;
    assert n * 4 / 3 == 4 * k + r * 4 / 3;
  }

  // ----- the loops -----

  lemma EncodeStep(src: seq<Byte>)
    requires src != []
    ensures var n := if |src| < 3 then |src| else 3;
      Encode(src) == EncodeGroup(src[..n]) + Encode(src[n..])
  {
    hide EncodeGroup;
    if |src| <= 3 {
      assert src[..|src|] == src && src[|src|..] == [];
    }
  }

  method PutGroup(out: array<Octet>, p: nat, g: seq<Byte>)
    requires 1 <= |g| <= 3 && p + 4 <= out.Length
    modifies out
    ensures out[..p + 4] == old(out[..p]) + EncodeGroup(g)
    ensures out[p + 4..] == old(out[p + 4..])
  {
    hide EncodeChar;
    var b1, b2, b3 := g[0], if |g| > 1 then g[1] else 0, if |g| > 2 then g[2] else 0;
    out[p], out[p + 1] := EncodeChar(b1 / 4), EncodeChar(b1 % 4 * 16 + b2 / 16);
    out[p + 2] := if |g| > 1 then EncodeChar(b2 % 16 * 4 + b3 / 64) else '=';
    out[p + 3] := if |g| > 2 then EncodeChar(b3 % 64) else '=';
  }

  /** `strlen` of the bytes that a pointer leads to. */
  function StrLen(bytes: seq<Byte>): (n: nat)
    requires 0 in bytes
    ensures n < |bytes| && bytes[n] == 0 && 0 !in bytes[..n]
  {
    if bytes[0] == 0 then 0
    else
      var n := StrLen(bytes[1..]);
      assert bytes[..n + 1] == [bytes[0]] + bytes[1..][..n];
      n + 1
  }

  /** `oauth_encode_base64`; for a size of 0 it measures the data itself, up to a zero byte. */
  method EncodeBase64(size: nat, bytes: seq<Byte>) returns (out: array<Octet>, p: nat)
    requires size <= |bytes| && (size == 0 ==> 0 in bytes)
    ensures var src := bytes[..if size == 0 then StrLen(bytes) else size];
      && fresh(out) && out.Length == |src| * 4 / 3 + 4
      && p == EncodedLength(|src|) && out[..p] == Encode(src) && out[p] == NUL
  {
    hide StrLen;
    var src := bytes[..if size == 0 then StrLen(bytes) else size];
    out, p := EncodeBytes(src);
  }

  /** What is left to encode from index `i` on, which the last step may pass. */
  function Rest(src: seq<Byte>, i: nat): seq<Byte> {
    if i < |src| then src[i..] else []
  }

  lemma RestStep(src: seq<Byte>, i: nat, n: nat)
    requires i < |src| && n == if |src| - i < 3 then |src| - i else 3
    ensures Encode(Rest(src, i)) == EncodeGroup(src[i..i + n]) + Encode(Rest(src, i + 3))
    ensures EncodedLength(|Rest(src, i)|) == 4 + EncodedLength(|Rest(src, i + 3)|)
  {
    hide Encode, EncodeGroup;
    EncodeStep(src[i..]);
    assert src[i..][..n] == src[i..i + n] && src[i..][n..] == Rest(src, i + 3);
  }

  method EncodeBytes(src: seq<Byte>) returns (out: array<Octet>, p: nat)
    ensures fresh(out) && out.Length == |src| * 4 / 3 + 4
    ensures p == EncodedLength(|src|) && out[..p] == Encode(src) && out[p] == NUL
  {
    EncodedFits(|src|);
    assert Rest(src, 0) == src;
    hide EncodeGroup, Encode, EncodedLength, Rest;
    out := new Octet[|src| * 4 / 3 + 4](_ => NUL);
    p := 0;
    assert AllNul(out[p..]);
    hide AllNul;
    var i := 0;
    while i < |src|
      invariant fresh(out) && out.Length == |src| * 4 / 3 + 4 && p <= out.Length
      invariant p + EncodedLength(|Rest(src, i)|) == EncodedLength(|src|)
      invariant out[..p] + Encode(Rest(src, i)) == Encode(src)
      invariant AllNul(out[p..])
      decreases |src| - i
    {
      var n := if |src| - i < 3 then |src| - i else 3;
      ghost var done, was := out[..p], out[p..];
      RestStep(src, i, n);
      NulTail(was, 4);
      assert was[4..] == out[p + 4..];
      PutGroup(out, p, src[i..i + n]);
      Appended(done, EncodeGroup(src[i..i + n]), Encode(Rest(src, i + 3)));
      p := p + 4;
      i := i + 3;
    }
    NothingLeft(src, i);
    FirstNul(out[p..]);
  }

  lemma Appended(a: seq<Octet>, b: CString, c: CString)
    ensures a + (b + c) == (a + b) + c
  {
  }

  lemma NothingLeft(src: seq<Byte>, i: nat)
    requires i >= |src|
    ensures Encode(Rest(src, i)) == [] && EncodedLength(|Rest(src, i)|) == 0
  {
  }

  predicate AllNul(s: seq<Octet>) {
    forall k :: 0 <= k < |s| ==> s[k] == NUL
  }

  lemma NulTail(s: seq<Octet>, n: nat)
    requires AllNul(s) && n <= |s|
    ensures AllNul(s[n..])
  {
  }

  lemma FirstNul(s: seq<Octet>)
    requires AllNul(s) && s != []
    ensures s[0] == NUL
  {
  }

  lemma EncodeEmpty()
    ensures Encode([]) == [] && Decode([]) == []
  {
  }

  lemma KeepStep(s: CString, k: nat)
    requires k < |s|
    ensures Keep(s[k..]) == (if IsBase64(s[k]) then [s[k]] else []) + Keep(s[k + 1..])
  {
    assert s[k..][1..] == s[k + 1..];
  }

  /** The first loop of the decoder. */
  method DropOthers(src: CString) returns (buf: array<CChar>, l: nat)
    ensures fresh(buf) && l < buf.Length == |src| + 1 && buf[..l] == Keep(src)
  {
    hide IsBase64;
    buf := new CChar[|src| + 1];
    l := 0;
    for k := 0 to |src|
      invariant l <= k && fresh(buf) && buf.Length == |src| + 1
      invariant buf[..l] + Keep(src[k..]) == Keep(src)
    {
      KeepStep(src, k);
      if IsBase64(src[k]) {
        buf[l] := src[k];
        l := l + 1;
      }
    }
  }

  lemma DecodeStep(t: CString)
    requires t != []
    ensures var n := if |t| < 4 then |t| else 4;
      Decode(t) == DecodeGroup(t[..n]) + Decode(t[n..])
  {
    hide DecodeGroup;
    if |t| <= 4 {
      assert t[..|t|] == t && t[|t|..] == [];
    }
  }

  method PutBytes(dest: array<Byte>, p: nat, g: CString) returns (q: nat)
    requires 1 <= |g| <= 4 && p + |DecodeGroup(g)| < dest.Length
    modifies dest
    ensures q == p + |DecodeGroup(g)|
    ensures dest[..q] == old(dest[..p]) + DecodeGroup(g)
  {
    hide DecodeChar;
    var c2, c3, c4 := if |g| > 1 then g[1] else 'A', if |g| > 2 then g[2] else 'A', if |g| > 3 then g[3] else 'A';
    var b1, b2, b3, b4 := DecodeChar(g[0]), DecodeChar(c2), DecodeChar(c3), DecodeChar(c4);
    q := p;
    dest[q] := (b1 * 4 + b2 / 16) % 256;
    q := q + 1;
    if c3 != '=' {
      dest[q] := b2 % 16 * 16 + b3 / 4;
      q := q + 1;
    }
    if c4 != '=' {
      dest[q] := b3 % 4 * 64 + b4;
      q := q + 1;
    }
  }

  /** `oauth_decode_base64`, into a buffer that the caller has made large enough. */
  method DecodeBase64(dest: array<Byte>, src: CString) returns (n: nat)
    requires |Decode(Keep(src))| < dest.Length
    modifies dest
    ensures n == |Decode(Keep(src))| && (src != [] ==> dest[n] == 0)
    ensures dest[..n] == Decode(Keep(src))
  {
    hide DecodeGroup, Decode, Keep;
    n := 0;
    if src == [] {
      assert Decode(Keep(src)) == [] by { KeepNothing(); EncodeEmpty(); }
      return;
    }
    var buf, l := DropOthers(src);
    var t: CString := buf[..l];
    while t != []
      invariant n <= |Decode(Keep(src))|
      invariant dest[..n] + Decode(t) == Decode(Keep(src))
      decreases |t|
    {
      var k := if |t| < 4 then |t| else 4;
      DecodeStep(t);
      assert |dest[..n] + Decode(t)| < dest.Length;
      n := PutBytes(dest, n, t[..k]);
      t := t[k..];
    }
    EncodeEmpty();
    dest[n] := 0;
  }

  lemma KeepNothing()
    ensures Keep([]) == []
  {
  }

  // ----- in figures -----

  /** Table 1 of RFC 4648. */
  const ALPHABET: CString := UPPER_CASE + LOWER_CASE + DIGITS + "+/"

  lemma {:induction false} AlphabetAt(u: nat)
    requires u < 64
    ensures |ALPHABET| == 64 && EncodeChar(u) == ALPHABET[u] && DecodeChar(ALPHABET[u]) == u
  {
    LettersAt(if u < 26 then u else if u < 52 then u - 26 else if u < 62 then u - 52 else 0);
    hide UPPER_CASE, LOWER_CASE, DIGITS;
  }

  /** The characters that the decoder keeps are those of the table, and the padding. */
  lemma {:induction false} KeptCharacters(c: char)
    ensures IsBase64(c) <==> c in ALPHABET || c == '='
  {
    LettersAre(c);
    hide UPPER_CASE, LOWER_CASE, DIGITS;
    assert c in "+/" <==> c == '+' || c == '/';
  }

  /** A group is the number that its bytes are, filled up with zeros, in four digits to the base 64. */
  lemma {:induction false} GroupDigits(g: seq<Byte>)
    requires 1 <= |g| <= 3
    ensures exists u1: nat, u2: nat, u3: nat, u4: nat :: IsDigits(g, u1, u2, u3, u4)
  {
    var b1, b2, b3 := g[0], if |g| > 1 then g[1] else 0, if |g| > 2 then g[2] else 0;
    var u1, u2, u3, u4 := b1 / 4, b1 % 4 * 16 + b2 / 16, b2 % 16 * 4 + b3 / 64, b3 % 64;
    hide EncodeChar, ALPHABET, EncodeGroup;
    DigitsOf(b1, b2, b3);
    AlphabetAt(u1);
    AlphabetAt(u2);
    AlphabetAt(u3);
    AlphabetAt(u4);
    GroupText(g, b1, b2, b3);
    assert IsDigits(g, u1, u2, u3, u4);
  }

  lemma GroupText(g: seq<Byte>, b1: Byte, b2: Byte, b3: Byte)
    requires 1 <= |g| <= 3 && b1 == g[0]
    requires b2 == (if |g| > 1 then g[1] else 0) && b3 == (if |g| > 2 then g[2] else 0)
    ensures EncodeGroup(g)
         == [EncodeChar(b1 / 4), EncodeChar(b1 % 4 * 16 + b2 / 16),
             if |g| > 1 then EncodeChar(b2 % 16 * 4 + b3 / 64) else '=', if |g| > 2 then EncodeChar(b3 % 64) else '=']
  {
    hide EncodeChar;
  }

  lemma DigitsOf(b1: Byte, b2: Byte, b3: Byte)
    ensures var u1, u2, u3, u4 := b1 / 4, b1 % 4 * 16 + b2 / 16, b2 % 16 * 4 + b3 / 64, b3 % 64;
      var v: int := b3;
      65536 * (b1 as int) + 256 * (b2 as int) + v == 262144 * u1 + 4096 * u2 + 64 * u3 + u4
  {
  }

  predicate IsDigits(g: seq<Byte>, u1: nat, u2: nat, u3: nat, u4: nat)
    requires 1 <= |g| <= 3
  {
    var b1: nat, b2: nat, b3: nat := g[0], if |g| > 1 then g[1] else 0, if |g| > 2 then g[2] else 0;
    && u1 < 64 && u2 < 64 && u3 < 64 && u4 < 64 && |ALPHABET| == 64
    && 65536 * b1 + 256 * b2 + b3 == 262144 * u1 + 4096 * u2 + 64 * u3 + u4
    && EncodeGroup(g) == [ALPHABET[u1], ALPHABET[u2], if |g| > 1 then ALPHABET[u3] else '=',
                          if |g| > 2 then ALPHABET[u4] else '=']
  }

  /** Characters that are missing at the end count as zeros. */
  lemma {:induction false} ShortGroup(g: CString)
    requires 1 <= |g| < 4
    ensures DecodeGroup(g) == DecodeGroup(g + "A")
  {
  }
}
