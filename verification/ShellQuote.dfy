/** Escaping a string for use between single quotes on a shell command line. */
module ShellQuote {
  import opened Options
  import opened Octets

  const TICK := '\''
  const BACKSLASH := '\\'

  /** One pass: each tick becomes tick, backslash, tick, tick. */
  function QuoteTicks(s: CString): CString {
    if s == [] then []
    else (if s[0] == TICK then [TICK, BACKSLASH, TICK, TICK] else [s[0]]) + QuoteTicks(s[1..])
  }

  /**
   * A shell word made of single-quoted parts and backslashed characters (IEEE Std 1003.1, Shell
   * Command Language, section 2.2); None if it is unterminated or holds anything else.
   */
  function ReadWord(s: CString, quoted: bool): Option<CString> {
    if s == [] then if quoted then None else Some([])
    else if s[0] == TICK then ReadWord(s[1..], !quoted)
    else if quoted then Prepend(s[0], ReadWord(s[1..], true))
    else if s[0] == BACKSLASH && |s| > 1 && s[1] != '\n' then Prepend(s[1], ReadWord(s[2..], false))
    else None
  }

  function Prepend(c: CChar, r: Option<CString>): Option<CString> {
    if r.None? then None else Some([c] + r.value)
  }

  lemma {:induction false} QuotedReadsBack(s: CString, x: CString, rest: CString)
    requires ReadWord(x, true) == Some(rest)
    ensures ReadWord(QuoteTicks(s) + x, true) == Some(s + rest)
  {
    if s == [] {
      assert QuoteTicks(s) + x == x && s + rest == rest;
    } else {
      var y := QuoteTicks(s[1..]) + x;
      QuotedReadsBack(s[1..], x, rest);
      assert [s[0]] + (s[1..] + rest) == s + rest;
      if s[0] == TICK {
        TickReadsBack(y);
        assert QuoteTicks(s) + x == [TICK, BACKSLASH, TICK, TICK] + y;
      } else {
        assert QuoteTicks(s) + x == [s[0]] + y;
        assert ([s[0]] + y)[1..] == y;
      }
    }
  }

  lemma TickReadsBack(y: CString)
    ensures ReadWord([TICK, BACKSLASH, TICK, TICK] + y, true) == Prepend(TICK, ReadWord(y, true))
  {
    var t1: CString, t2: CString := [BACKSLASH, TICK, TICK] + y, [TICK] + y;
    assert ([TICK, BACKSLASH, TICK, TICK] + y)[1..] == t1;
    assert t1[2..] == t2 && t2[1..] == y;
    assert ReadWord(t2, false) == ReadWord(y, true);
  }

  /** The shell reads the escaped string, between single quotes, as the original. */
  lemma {:induction false} ShellReadsBack(s: CString)
    ensures ReadWord([TICK] + QuoteTicks(s) + [TICK], false) == Some(s)
  {
    var word := [TICK] + QuoteTicks(s) + [TICK];
    assert ReadWord([TICK], true) == Some([]) by {
      assert [TICK][1..] == [];
    }
    QuotedReadsBack(s, [TICK], []);
    assert word[1..] == QuoteTicks(s) + [TICK];
    assert s + [] == s;
  }

  lemma {:induction false} NoTicks(s: CString, t: CString)
    requires TICK !in s
    ensures QuoteTicks(s + t) == s + QuoteTicks(t)
  {
    if s == [] {
      assert s + t == t;
    } else {
      assert (s + t)[1..] == s[1..] + t;
      NoTicks(s[1..], t);
    }
  }

  /** `memmove` within one block. */
  method Memmove(a: array<Octet>, dest: nat, src: nat, n: nat)
    requires dest + n <= a.Length && src + n <= a.Length
    modifies a
    ensures a[..] == old(a[..dest] + a[src..src + n] + a[dest + n..])
  {
    ghost var was := a[..];
    forall k | dest <= k < dest + n {
      a[k] := a[k - dest + src];
    }
    assert a[dest..dest + n] == was[src..src + n];
  }

  /** The body of the loop: open a gap of three after the tick at `idx` and fill it. */
  method SpliceTick(block: array<Octet>, len: nat, idx: nat) returns (esc: array<Octet>)
    requires idx < len < block.Length <= len + 5 && block[idx] == TICK && block[len] == NUL
    ensures fresh(esc) && esc.Length == len + 5 && esc[len + 3] == NUL
    ensures esc[..idx + 4] == old(block[..idx]) + [TICK, BACKSLASH, TICK, TICK]
    ensures esc[idx + 4..len + 3] == old(block[idx + 1..len])
  {
    esc := Realloc(block, len + 5);
    ghost var was := esc[..];
    assert was[..block.Length] == block[..];
    assert was[..idx] == block[..idx] && was[idx + 1..len] == block[idx + 1..len];
    assert was[len] == block[..][len];
    Memmove(esc, idx + 4, idx + 1, len - idx);
    assert esc[idx + 4..len + 3] == was[idx + 1..len];
    esc[idx + 1], esc[idx + 2], esc[idx + 3] := BACKSLASH, TICK, TICK;
  }

  method Strdup(s: CString) returns (b: array<Octet>)
    ensures fresh(b) && b.Length == |s| + 1 && b[..|s|] == s && b[|s|] == NUL
  {
    b := new Octet[|s| + 1];
    forall k | 0 <= k < |s| {
      b[k] := s[k];
    }
    b[|s|] := NUL;
  }

  /** `oauth_escape_shell`: escapes in place, and equals the one-pass replacement. */
  method EscapeShell(cmd: CString) returns (esc: array<Octet>, len: nat)
    ensures fresh(esc) && len < esc.Length
    ensures esc[..len] == QuoteTicks(cmd) && esc[len] == NUL
  {
    hide QuoteTicks, IndexOf;
    esc := Strdup(cmd);
    len := |cmd|;
    var tmp := 0;
    ghost var left := cmd;
    while IndexOf(esc[tmp..len], TICK).Some?
      invariant tmp <= len < esc.Length <= len + 5 && fresh(esc) && esc[len] == NUL
      invariant left == esc[tmp..len]
      invariant esc[..tmp] + QuoteTicks(left) == QuoteTicks(cmd)
      decreases |left|
    {
      var k := IndexOf(esc[tmp..len], TICK).value;
      QuoteStep(esc[..tmp], left, k);
      assert esc[..tmp + k] == esc[..tmp] + left[..k];
      assert left[k + 1..] == esc[tmp + k + 1..len];
      esc := SpliceTick(esc, len, tmp + k);
      left := left[k + 1..];
      len := len + 3;
      tmp := tmp + k + 4;
    }
    NoTicks(left, []);
    assert left + [] == left && QuoteTicks([]) == [] by {
      NothingToQuote();
    }
  }

  lemma NothingToQuote()
    ensures QuoteTicks([]) == []
  {
  }

  lemma QuoteStep(before: seq<Octet>, s: CString, k: nat)
    requires k < |s| && s[k] == TICK && TICK !in s[..k]
    ensures before + QuoteTicks(s) == before + s[..k] + [TICK, BACKSLASH, TICK, TICK] + QuoteTicks(s[k + 1..])
  {
    hide QuoteTicks;
    NoTicks(s[..k], s[k..]);
    assert s == s[..k] + s[k..];
    FirstTick(s[k..]);
    assert s[k..][1..] == s[k + 1..];
  }

  lemma FirstTick(s: CString)
    requires s != [] && s[0] == TICK
    ensures QuoteTicks(s) == [TICK, BACKSLASH, TICK, TICK] + QuoteTicks(s[1..])
  {
  }
}
