/** Network byte order of structure fields on a little-endian host. */
module ByteOrder {
  import opened Bytes

  // ----- words in memory -----

  function LoadWord(b: seq<Byte>): Word
    requires |b| == 4
  {
    var b0: int, b1: int, b2: int, b3: int := b[0], b[1], b[2], b[3];
    b0 + 0x100 * b1 + 0x1_0000 * b2 + 0x100_0000 * b3
  }

  function StoreWord(w: Word): (b: seq<Byte>)
    ensures |b| == 4
  {
    [w % 0x100, w / 0x100 % 0x100, w / 0x1_0000 % 0x100, w / 0x100_0000]
  }

  /** `htonl` and `ntohl`. */
  function Htonl(w: Word): Word {
    w % 0x100 * 0x100_0000 + w / 0x100 % 0x100 * 0x1_0000 + w / 0x1_0000 % 0x100 * 0x100 + w / 0x100_0000
  }

  lemma StoreLoad(b: seq<Byte>)
    requires |b| == 4
    ensures StoreWord(LoadWord(b)) == b
  {
    var b0: int, b1: int, b2: int, b3: int := b[0], b[1], b[2], b[3];
    var w := LoadWord(b);
    assert w / 0x100 == b1 + 0x100 * b2 + 0x1_0000 * b3;
    assert w / 0x1_0000 == b2 + 0x100 * b3;
  }

  lemma LoadStore(w: Word)
    ensures LoadWord(StoreWord(w)) == w
  {
    var x: int := w;
    var q1, q2 := x / 0x100, x / 0x1_0000;
    assert q1 / 0x100 == q2 && q2 / 0x100 == x / 0x100_0000;
    assert x == x % 0x100 + 0x100 * q1;
    assert q1 == q1 % 0x100 + 0x100 * q2;
  }

  lemma HtonlReverses(b: seq<Byte>)
    requires |b| == 4
    ensures Htonl(LoadWord(b)) == LoadWord([b[3], b[2], b[1], b[0]])
  {
    StoreLoad(b);
    assert StoreWord(LoadWord(b))[0] == b[0];
  }

  /** What `ntohl` reads is what `htonl` stored. */
  lemma HtonlInvolution(w: Word)
    ensures Htonl(Htonl(w)) == w
  {
    hide Htonl, LoadWord, StoreWord;
    var b := StoreWord(w);
    LoadStore(w);
    HtonlReverses(b);
    HtonlReverses([b[3], b[2], b[1], b[0]]);
    assert b == [b[0], b[1], b[2], b[3]];
  }

  // ----- wrap_bytes -----

  const MAX_WRAP_WORDS := 1024

  function WrapWords(n: nat): nat {
    if n / 4 < MAX_WRAP_WORDS then n / 4 else MAX_WRAP_WORDS
  }

  /** Where byte `k` of a wrapped field of `n` bytes comes from. */
  function WrapIndex(n: nat, k: nat): (j: nat)
    requires k < n
    ensures j < n
  {
    if n < 2 then k
    else if n < 4 then if k < 2 then 1 - k else k
    else if k < 4 * WrapWords(n) then 4 * WrapWords(n) - 1 - k
    else k
  }

  lemma WrapIndexInvolution(n: nat, k: nat)
    requires k < n
    ensures WrapIndex(n, WrapIndex(n, k)) == k
  {
  }

  function Wrap(bs: seq<Byte>): (r: seq<Byte>)
    ensures |r| == |bs|
  {
    seq(|bs|, k requires 0 <= k < |bs| => bs[WrapIndex(|bs|, k)])
  }

  /** Wrapping twice gives the field back, so `unwrap_bytes`, the same swap, undoes `wrap_bytes`. */
  lemma {:induction false} WrapInvolution(bs: seq<Byte>)
    ensures Wrap(Wrap(bs)) == bs
  {
    hide WrapIndex;
    forall k | 0 <= k < |bs|
      ensures Wrap(Wrap(bs))[k] == bs[k]
    {
      WrapIndexInvolution(|bs|, k);
      assert Wrap(Wrap(bs))[k] == Wrap(bs)[WrapIndex(|bs|, k)];
    }
  }

  function Reverse(bs: seq<Byte>): seq<Byte> {
    if bs == [] then [] else Reverse(bs[1..]) + [bs[0]]
  }

  lemma {:induction false} ReverseAt(bs: seq<Byte>, k: nat)
    requires k < |bs|
    ensures |Reverse(bs)| == |bs| && Reverse(bs)[k] == bs[|bs| - 1 - k]
  {
    if |bs| > 1 {
      ReverseAt(bs[1..], if k < |bs| - 1 then k else 0);
    }
  }

  /** From four bytes on: the whole words, at most 1024 of them, are reversed byte by byte. */
  lemma {:induction false} WrapReverses(bs: seq<Byte>)
    requires |bs| >= 4
    ensures var w := 4 * WrapWords(|bs|); Wrap(bs) == Reverse(bs[..w]) + bs[w..]
  {
    var w := 4 * WrapWords(|bs|);
    ReverseAt(bs[..w], 0);
    forall k | 0 <= k < |bs|
      ensures Wrap(bs)[k] == (Reverse(bs[..w]) + bs[w..])[k]
    {
      if k < w {
        ReverseAt(bs[..w], k);
      }
    }
  }

  /** The first loop: word `i` of the field, swapped, goes to place `tot - i - 1`. */
  method SwapWords(data: array<Byte>, off: nat, tot: nat) returns (nData: array<Word>)
    requires off + 4 * tot <= data.Length && tot <= MAX_WRAP_WORDS
    ensures fresh(nData) && nData.Length == MAX_WRAP_WORDS
    ensures forall j :: 0 <= j < tot ==> nData[j] == Htonl(LoadWord(data[off + 4 * (tot - 1 - j)..off + 4 * (tot - j)]))
  {
    hide Htonl, LoadWord;
    nData := new Word[MAX_WRAP_WORDS];
    for i := 0 to tot
      invariant forall j :: tot - i <= j < tot ==>
        nData[j] == Htonl(LoadWord(data[off + 4 * (tot - 1 - j)..off + 4 * (tot - j)]))
    {
      nData[tot - i - 1] := Htonl(LoadWord(data[off + 4 * i..off + 4 * (i + 1)]));
    }
  }

  lemma SwappedWord(src: seq<Byte>, w: Word)
    requires |src| == 4 && w == Htonl(LoadWord(src))
    ensures StoreWord(w) == [src[3], src[2], src[1], src[0]]
  {
    hide Htonl, LoadWord, StoreWord;
    HtonlReverses(src);
    StoreLoad([src[3], src[2], src[1], src[0]]);
  }

  /** The second loop: the scratch words go back over the field. */
  method CopyBack(data: array<Byte>, off: nat, tot: nat, nData: array<Word>)
    requires off + 4 * tot <= data.Length && tot <= nData.Length
    modifies data
    ensures forall k :: 0 <= k < data.Length && !(off <= k < off + 4 * tot) ==> data[k] == old(data[k])
    ensures forall j :: 0 <= j < tot ==> data[off + 4 * j..off + 4 * (j + 1)] == StoreWord(nData[j])
  {
    hide StoreWord;
    for j := 0 to tot
      invariant forall k :: 0 <= k < data.Length && !(off <= k < off + 4 * j) ==> data[k] == old(data[k])
      invariant forall i :: 0 <= i < j ==> data[off + 4 * i..off + 4 * (i + 1)] == StoreWord(nData[i])
    {
      var b := StoreWord(nData[j]);
      var at := off + 4 * j;
      data[at], data[at + 1], data[at + 2], data[at + 3] := b[0], b[1], b[2], b[3];
      assert data[at..at + 4] == b;
      forall i | 0 <= i < j
        ensures data[off + 4 * i..off + 4 * (i + 1)] == StoreWord(nData[i])
      {
      }
    }
  }

  /**
   * `wrap_bytes` on a field inside a buffer (and `unwrap_bytes`, which differs in the name of
   * the swap only).
   */
  method WrapBytes(data: array<Byte>, off: nat, len: nat, bigEndian: bool)
    requires off + len <= data.Length
    modifies data
    ensures data[..off] == old(data[..off]) && data[off + len..] == old(data[off + len..])
    ensures data[off..off + len] == if bigEndian then old(data[off..off + len]) else Wrap(old(data[off..off + len]))
  {
    hide Htonl, LoadWord, StoreWord, Wrap, WrapIndex;
    if bigEndian {
      return;
    }
    WrapShort(data[off..off + len]);
    if len < 2 {
      return;
    }
    if len < 4 {
      data[off], data[off + 1] := data[off + 1], data[off];
      assert data[off..off + len] == [data[off], data[off + 1]] + data[off + 2..off + len];
      return;
    }
    var tot := WrapWords(len);
    var nData := SwapWords(data, off, tot);
    CopyBack(data, off, tot, nData);
    WrappedField(old(data[..]), data[..], off, len, nData[..]);
  }

  /** Up to three bytes: the first two change places. */
  lemma WrapShort(bs: seq<Byte>)
    ensures |bs| < 2 ==> Wrap(bs) == bs
    ensures 2 <= |bs| < 4 ==> Wrap(bs) == [bs[1], bs[0]] + bs[2..]
  {
  }

  lemma WrappedField(was: seq<Byte>, now: seq<Byte>, off: nat, len: nat, nData: seq<Word>)
    requires 4 <= len && off + len <= |was| == |now| && |nData| == MAX_WRAP_WORDS
    requires forall k :: 0 <= k < |now| && !(off <= k < off + 4 * WrapWords(len)) ==> now[k] == was[k]
    requires var tot := WrapWords(len);
      forall j :: 0 <= j < tot ==> nData[j] == Htonl(LoadWord(was[off + 4 * (tot - 1 - j)..off + 4 * (tot - j)]))
    requires forall j :: 0 <= j < WrapWords(len) ==> now[off + 4 * j..off + 4 * (j + 1)] == StoreWord(nData[j])
    ensures now[off..off + len] == Wrap(was[off..off + len])
  {
    hide Htonl, LoadWord, StoreWord;
    forall k | 0 <= k < len
      ensures now[off + k] == was[off + WrapIndex(len, k)]
    {
      if k < 4 * WrapWords(len) {
        WrappedAt(was, now, off, WrapWords(len), nData, k);
      }
    }
  }

  lemma SliceAt(s: seq<Byte>, a: nat, b: nat, i: nat)
    requires a + i < b <= |s|
    ensures s[a..b][i] == s[a + i]
  {
  }

  lemma WrappedAt(was: seq<Byte>, now: seq<Byte>, off: nat, tot: nat, nData: seq<Word>, k: nat)
    requires off + 4 * tot <= |was| == |now| && tot <= |nData| && k < 4 * tot
    requires forall j :: 0 <= j < tot ==> nData[j] == Htonl(LoadWord(was[off + 4 * (tot - 1 - j)..off + 4 * (tot - j)]))
    requires forall j :: 0 <= j < tot ==> now[off + 4 * j..off + 4 * (j + 1)] == StoreWord(nData[j])
    ensures now[off + k] == was[off + 4 * tot - 1 - k]
  {
    hide Htonl, LoadWord, StoreWord;
    var j, r := k / 4, k % 4;
    var src, dst := was[off + 4 * (tot - 1 - j)..off + 4 * (tot - j)], now[off + 4 * j..off + 4 * (j + 1)];
    SwappedWord(src, nData[j]);
    SliceAt(now, off + 4 * j, off + 4 * (j + 1), r);
    SliceAt(was, off + 4 * (tot - 1 - j), off + 4 * (tot - j), 3 - r);
    assert dst[r] == src[3 - r];
  }
}
