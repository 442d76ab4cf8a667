/** Octets, C strings, and the string primitives of the C library that the OAuth code is built on. */
module Octets {
  import opened Options

  type Octet = c: char | c as int < 256

  /** A character of a C string: any octet but the terminator. */
  type CChar = c: char | 1 <= c as int < 256 witness 'a'

  type CString = seq<CChar>

  const NUL := '\0'

  /** The C string that starts at index `from` of a buffer: everything before the first NUL. */
  function CStringAt(buf: seq<Octet>, from: nat): (s: CString)
    requires from <= |buf|
    decreases |buf| - from
  {
    if from == |buf| || buf[from] == NUL then [] else [buf[from]] + CStringAt(buf, from + 1)
  }

  lemma {:induction false} CStringAtIs(buf: seq<Octet>, from: nat, s: CString)
    requires from + |s| < |buf| && buf[from..from + |s|] == s && buf[from + |s|] == NUL
    ensures CStringAt(buf, from) == s
    decreases |s|
  {
    if s != [] {
      assert buf[from] == buf[from..from + |s|][0];
      assert buf[from + 1..from + 1 + |s[1..]|] == buf[from..from + |s|][1..];
      CStringAtIs(buf, from + 1, s[1..]);
    }
  }

  lemma {:induction false} CStringAtAll(buf: seq<Octet>, from: nat)
    requires from <= |buf| && NUL !in buf[from..]
    ensures CStringAt(buf, from) == buf[from..]
    decreases |buf| - from
  {
    if from < |buf| {
      assert buf[from..][1..] == buf[from + 1..];
      assert buf[from] in buf[from..];
      CStringAtAll(buf, from + 1);
    }
  }

  /** `strchr`, as an index; None where C returns NULL. */
  function IndexOf(s: seq<char>, c: char): (r: Option<nat>)
    ensures r.Some? ==> r.value < |s| && s[r.value] == c && c !in s[..r.value]
    ensures r.None? ==> c !in s
  {
    if s == [] then None
    else if s[0] == c then Some(0)
    else
      var r := IndexOf(s[1..], c);
      if r.None? then None
      else
        assert s[..r.value + 1] == [s[0]] + s[1..][..r.value];
        Some(r.value + 1)
  }

  /** `strstr`, as an index; None where C returns NULL. */
  function Find(s: seq<char>, pat: seq<char>): (r: Option<nat>)
    ensures r.Some? ==> r.value <= |s| && pat <= s[r.value..]
    ensures r.Some? ==> forall k :: 0 <= k < r.value ==> !(pat <= s[k..])
    ensures r.None? ==> forall k :: 0 <= k <= |s| ==> !(pat <= s[k..])
  {
    if pat <= s then assert s[0..] == s; Some(0)
    else if s == [] then None
    else
      var r := Find(s[1..], pat);
      assert s[0..] == s;
      assert forall k :: 1 <= k <= |s| ==> s[k..] == s[1..][k - 1..];
      if r.None? then None else Some(r.value + 1)
  }

  function ReplaceChar(s: CString, from: CChar, to: CChar): (r: CString)
    ensures |r| == |s| && forall i :: 0 <= i < |s| ==> r[i] == if s[i] == from then to else s[i]
  {
    seq(|s|, i requires 0 <= i < |s| => if s[i] == from then to else s[i])
  }

  /** `realloc` to a block of `size` characters. */
  method Realloc(a: array<Octet>, size: nat) returns (b: array<Octet>)
    requires a.Length <= size
    ensures fresh(b) && b.Length == size && b[..a.Length] == a[..]
  {
    b := new Octet[size];
    forall i | 0 <= i < a.Length {
      b[i] := a[i];
    }
  }

  // ----- strcmp -----

  /** `strcmp` reduced to its sign; C compares the characters as unsigned. */
  function Strcmp(a: CString, b: CString): (r: int)
    ensures -1 <= r <= 1
  {
    if a == [] then if b == [] then 0 else -1
    else if b == [] then 1
    else if a[0] < b[0] then -1
    else if a[0] > b[0] then 1
    else Strcmp(a[1..], b[1..])
  }

  lemma {:induction false} StrcmpZero(a: CString, b: CString)
    ensures Strcmp(a, b) == 0 <==> a == b
  {
    if a != [] && b != [] && a[0] == b[0] {
      StrcmpZero(a[1..], b[1..]);
      assert a == [a[0]] + a[1..] && b == [b[0]] + b[1..];
    }
  }

  lemma {:induction false} StrcmpAntisymmetric(a: CString, b: CString)
    ensures Strcmp(a, b) == -Strcmp(b, a)
  {
    if a != [] && b != [] && a[0] == b[0] {
      StrcmpAntisymmetric(a[1..], b[1..]);
    }
  }

  lemma {:induction false} StrcmpTransitive(a: CString, b: CString, c: CString)
    requires Strcmp(a, b) <= 0 && Strcmp(b, c) <= 0
    ensures Strcmp(a, c) <= 0
  {
    if a != [] && b != [] && c != [] && a[0] == b[0] == c[0] {
      StrcmpTransitive(a[1..], b[1..], c[1..]);
    }
  }

  const UPPER_CASE: CString := "ABCDEFGHIJKLMNOPQRSTUVWXYZ"
  const LOWER_CASE: CString := "abcdefghijklmnopqrstuvwxyz"
  const DIGITS: CString := "0123456789"

  lemma LettersAt(i: nat)
    ensures i < 26 ==> UPPER_CASE[i] as int == 'A' as int + i && LOWER_CASE[i] as int == 'a' as int + i
    ensures i < 10 ==> DIGITS[i] as int == '0' as int + i
    ensures |UPPER_CASE| == |LOWER_CASE| == 26 && |DIGITS| == 10
  {
  }

  lemma RunOf(s: CString, first: char, c: char)
    requires forall i :: 0 <= i < |s| ==> s[i] as int == first as int + i
    ensures c in s <==> first as int <= c as int < first as int + |s|
  {
    var i := c as int - first as int;
    assert 0 <= i < |s| ==> s[i] == c;
  }

  lemma LettersAre(c: char)
    ensures c in UPPER_CASE <==> 'A' <= c <= 'Z'
    ensures c in LOWER_CASE <==> 'a' <= c <= 'z'
    ensures c in DIGITS <==> '0' <= c <= '9'
  {
    LettersAt(0);
    hide UPPER_CASE, LOWER_CASE, DIGITS;
    forall i | 0 <= i < 26
      ensures UPPER_CASE[i] as int == 'A' as int + i && LOWER_CASE[i] as int == 'a' as int + i
      ensures i < 10 ==> DIGITS[i] as int == '0' as int + i
    {
      LettersAt(i);
    }
    RunOf(UPPER_CASE, 'A', c);
    RunOf(LOWER_CASE, 'a', c);
    RunOf(DIGITS, '0', c);
  }

  /** Lexicographic order: a proper prefix, or smaller where the strings first differ. */
  ghost predicate Before(a: CString, b: CString) {
    exists k :: 0 <= k <= |a| && k < |b| && a[..k] == b[..k] && (k == |a| || a[k] < b[k])
  }

  lemma {:induction false} StrcmpIs(a: CString, b: CString)
    ensures Strcmp(a, b) < 0 <==> Before(a, b)
  {
    if a == [] || b == [] || a[0] != b[0] {
      if b != [] && Strcmp(a, b) < 0 {
        assert a[..0] == b[..0];
      }
    } else {
      StrcmpIs(a[1..], b[1..]);
      BeforeTail(a, b);
    }
  }

  lemma BeforeTail(a: CString, b: CString)
    requires a != [] && b != [] && a[0] == b[0]
    ensures Before(a, b) <==> Before(a[1..], b[1..])
  {
    var x, y := a[1..], b[1..];
    if Before(a, b) {
      var k :| 0 <= k <= |a| && k < |b| && a[..k] == b[..k] && (k == |a| || a[k] < b[k]);
      assert x[..k - 1] == a[..k][1..] && y[..k - 1] == b[..k][1..];
    }
    if Before(x, y) {
      var k :| 0 <= k <= |x| && k < |y| && x[..k] == y[..k] && (k == |x| || x[k] < y[k]);
      assert a[..k + 1] == [a[0]] + x[..k] && b[..k + 1] == [b[0]] + y[..k];
    }
  }
}
