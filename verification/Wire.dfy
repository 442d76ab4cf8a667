/** Frames on the wire: header, byte order of the payload, and what the receiver makes of them. */
module Wire {
  import opened Bytes
  import opened ByteOrder

  const TX_INIT := 1

  // The operations whose rows of the table have an `op_wrap`.
  const TX_SUBSCRIBE := 2
  const TX_ACCOUNT := 4
  const TX_WALLET := 16
  const TX_CONTEXT := 22
  const TX_REFERENCE := 23

  datatype Span = Span(off: nat, len: nat)

  /** Where the share library's structures put the members that are wrapped. */
  datatype Layout = Layout(account: seq<Span>, walType: Span, ctxDataLen: Span, refType: Span, refLevel: Span)

  /**
   * What the share library fixes: the sizes of a key and a hash, the number of operations, the
   * magic word, the checksum, and the layout of its structures.
   */
  datatype Format = Format(
    keySize: nat, hashSize: nat, maxTx: nat, maxVersionTx: nat, magic: Word,
    crc: seq<Byte> -> Word, layout: Layout)
  {
    /** sizeof(tx_t): hash, two keys, a 64-bit stamp, four words. */
    function TxSize(): nat { hashSize + 2 * keySize + 24 }

    /** offsetof(tx_t, tx_op) */
    function OpAt(): nat { hashSize + 2 * keySize + 8 }

    /** sizeof(tx_net_t): a key, a 64-bit stamp, four words. */
    function NetSize(): nat { keySize + 24 }

    /** offsetof(tx_subscribe_t, sub_op): a key follows the tx header. */
    function SubOpAt(): nat { TxSize() + keySize }

    /** The fields that the operation's `op_wrap` passes to `wrap_bytes`, in order. */
    function Wrapped(op: nat): seq<Span> {
      if op == TX_SUBSCRIBE then [Span(SubOpAt(), 4), Span(SubOpAt() + 4, 4)]
      else if op == TX_ACCOUNT then layout.account
      else if op == TX_WALLET then [layout.walType]
      else if op == TX_CONTEXT then [layout.ctxDataLen]
      else if op == TX_REFERENCE then [layout.refType, layout.refLevel]
      else []
    }
  }

  predicate Disjoint(s: Span, t: Span) {
    s.off + s.len <= t.off || t.off + t.len <= s.off
  }

  predicate AllDisjoint(spans: seq<Span>) {
    forall i, j :: 0 <= i < j < |spans| ==> Disjoint(spans[i], spans[j])
  }

  /** The members are different ones, and lie behind those that the structures declare before them. */
  predicate ValidFormat(f: Format) {
    var l := f.layout;
    && TX_REFERENCE < f.maxTx <= 0x8000_0000
    && AllDisjoint(l.account) && (forall s :: s in l.account ==> f.TxSize() + 8 <= s.off)
    && f.TxSize() + 2 * f.hashSize + 5 * f.keySize <= l.walType.off && l.walType.len == 4
    && f.TxSize() + 5 * f.keySize + 8 <= l.ctxDataLen.off && l.ctxDataLen.len == 4
    && f.TxSize() <= l.refType.off && f.TxSize() <= l.refLevel.off && Disjoint(l.refType, l.refLevel)
  }

  lemma TableIsValid(f: Format, op: nat)
    requires ValidFormat(f)
    ensures AllDisjoint(f.Wrapped(op)) && forall s :: s in f.Wrapped(op) ==> f.TxSize() <= s.off
  {
  }

  /** The table by its numbers. */
  lemma TableByNumber(f: Format, op: nat)
    ensures op == 2 ==> f.Wrapped(op) == [Span(f.TxSize() + f.keySize, 4), Span(f.TxSize() + f.keySize + 4, 4)]
    ensures op == 4 ==> f.Wrapped(op) == f.layout.account
    ensures op == 16 ==> f.Wrapped(op) == [f.layout.walType]
    ensures op == 22 ==> f.Wrapped(op) == [f.layout.ctxDataLen]
    ensures op == 23 ==> f.Wrapped(op) == [f.layout.refType, f.layout.refLevel]
    ensures op !in {2, 4, 16, 22, 23} ==> f.Wrapped(op) == []
  {
  }

  predicate Fit(spans: seq<Span>, n: nat) {
    forall s :: s in spans ==> s.off + s.len <= n
  }

  // ----- tx_wrap -----

  function WrapSpan(bs: seq<Byte>, s: Span): (r: seq<Byte>)
    requires s.off + s.len <= |bs|
    ensures |r| == |bs|
  {
    bs[..s.off] + Wrap(bs[s.off..s.off + s.len]) + bs[s.off + s.len..]
  }

  function WrapSpans(bs: seq<Byte>, spans: seq<Span>): (r: seq<Byte>)
    requires Fit(spans, |bs|)
    ensures |r| == |bs|
    decreases |spans|
  {
    if spans == [] then bs else WrapSpans(WrapSpan(bs, spans[0]), spans[1..])
  }

  /** Byte `i` after wrapping one field. */
  function SpanIndex(s: Span, i: nat): nat {
    if s.off <= i < s.off + s.len then s.off + WrapIndex(s.len, i - s.off) else i
  }

  lemma WrapSpanAt(bs: seq<Byte>, s: Span, i: nat)
    requires s.off + s.len <= |bs| && i < |bs|
    ensures SpanIndex(s, i) < |bs| && WrapSpan(bs, s)[i] == bs[SpanIndex(s, i)]
  {
    hide WrapIndex;
  }

  lemma {:induction false} WrapSpanInvolution(bs: seq<Byte>, s: Span)
    requires s.off + s.len <= |bs|
    ensures WrapSpan(WrapSpan(bs, s), s) == bs
  {
    hide Wrap;
    var field := bs[s.off..s.off + s.len];
    var once := WrapSpan(bs, s);
    WrapInvolution(field);
    assert once[s.off..s.off + s.len] == Wrap(field);
    assert once[..s.off] == bs[..s.off] && once[s.off + s.len..] == bs[s.off + s.len..];
  }

  lemma WrapSpansCommute(bs: seq<Byte>, s: Span, t: Span)
    requires s.off + s.len <= |bs| && t.off + t.len <= |bs| && Disjoint(s, t)
    ensures WrapSpan(WrapSpan(bs, s), t) == WrapSpan(WrapSpan(bs, t), s)
  {
    hide WrapSpan, WrapIndex;
    var l, r := WrapSpan(WrapSpan(bs, s), t), WrapSpan(WrapSpan(bs, t), s);
    forall i | 0 <= i < |bs|
      ensures l[i] == r[i]
    {
      WrapSpanAt(WrapSpan(bs, s), t, i);
      WrapSpanAt(bs, s, SpanIndex(t, i));
      WrapSpanAt(WrapSpan(bs, t), s, i);
      WrapSpanAt(bs, t, SpanIndex(s, i));
    }
  }

  lemma {:induction false} WrapMovesIn(bs: seq<Byte>, s: Span, spans: seq<Span>)
    requires s.off + s.len <= |bs| && Fit(spans, |bs|)
    requires forall t :: t in spans ==> Disjoint(s, t)
    ensures WrapSpans(WrapSpan(bs, s), spans) == WrapSpan(WrapSpans(bs, spans), s)
    decreases |spans|
  {
    hide WrapSpan, Disjoint;
    if spans != [] {
      WrapSpansCommute(bs, s, spans[0]);
      WrapMovesIn(WrapSpan(bs, spans[0]), s, spans[1..]);
    }
  }

  /** A byte that no field moves stays. */
  lemma {:induction false} WrapSpansFix(bs: seq<Byte>, spans: seq<Span>, i: nat)
    requires Fit(spans, |bs|) && i < |bs| && forall s :: s in spans ==> SpanIndex(s, i) == i
    ensures WrapSpans(bs, spans)[i] == bs[i]
    decreases |spans|
  {
    hide WrapSpan, SpanIndex;
    if spans != [] {
      WrapSpanAt(bs, spans[0], i);
      WrapSpansFix(WrapSpan(bs, spans[0]), spans[1..], i);
    }
  }

  lemma DisjointIndex(s: Span, t: Span, i: nat)
    requires Disjoint(s, t) && SpanIndex(s, i) != i
    ensures SpanIndex(t, i) == i && SpanIndex(t, SpanIndex(s, i)) == SpanIndex(s, i)
  {
    hide WrapIndex;
  }

  /** A byte that one field moves comes from where that field takes it. */
  lemma {:induction false} WrapSpansMove(bs: seq<Byte>, spans: seq<Span>, k: nat, i: nat)
    requires Fit(spans, |bs|) && AllDisjoint(spans) && i < |bs|
    requires k < |spans| && SpanIndex(spans[k], i) != i
    ensures SpanIndex(spans[k], i) < |bs| && WrapSpans(bs, spans)[i] == bs[SpanIndex(spans[k], i)]
    decreases |spans|
  {
    hide WrapSpan, SpanIndex, Disjoint;
    var s, rest, once := spans[0], spans[1..], WrapSpan(bs, spans[0]);
    WrapSpanAt(bs, spans[k], i);
    if k == 0 {
      forall t | t in rest
        ensures SpanIndex(t, i) == i
      {
        DisjointIndex(s, t, i);
      }
      WrapSpansFix(once, rest, i);
    } else {
      DisjointIndexes(spans[k], s, i);
      WrapSpansMove(once, rest, k - 1, i);
      WrapSpanAt(bs, s, SpanIndex(spans[k], i));
    }
  }

  lemma DisjointIndexes(s: Span, t: Span, i: nat)
    requires Disjoint(t, s) && SpanIndex(s, i) != i
    ensures SpanIndex(t, SpanIndex(s, i)) == SpanIndex(s, i)
  {
    hide WrapIndex;
  }

  /** The receiver's `tx_wrap` undoes the sender's. */
  lemma {:induction false} WrapSpansInvolution(bs: seq<Byte>, spans: seq<Span>)
    requires Fit(spans, |bs|) && AllDisjoint(spans)
    ensures WrapSpans(WrapSpans(bs, spans), spans) == bs
    decreases |spans|
  {
    hide WrapSpan, Disjoint;
    if spans != [] {
      var s, rest := spans[0], spans[1..];
      forall t | t in rest
        ensures Disjoint(s, t)
      {
      }
      calc {
        WrapSpans(WrapSpans(bs, spans), spans);
        WrapSpans(WrapSpan(WrapSpans(WrapSpan(bs, s), rest), s), rest);
        { WrapMovesIn(WrapSpan(bs, s), s, rest); }
        WrapSpans(WrapSpans(WrapSpan(WrapSpan(bs, s), s), rest), rest);
        { WrapSpanInvolution(bs, s); }
        WrapSpans(WrapSpans(bs, rest), rest);
        { WrapSpansInvolution(bs, rest); }
        bs;
      }
    }
  }

  /** Wrapping changes nothing before the first field and nothing after the last. */
  lemma {:induction false} WrapSpansInside(bs: seq<Byte>, more: seq<Byte>, spans: seq<Span>, from: nat)
    requires Fit(spans, |bs|) && from <= |bs| && forall s :: s in spans ==> from <= s.off
    ensures Fit(spans, |bs + more|)
    ensures WrapSpans(bs + more, spans) == WrapSpans(bs, spans) + more
    ensures WrapSpans(bs, spans)[..from] == bs[..from]
    decreases |spans|
  {
    hide Wrap;
    if spans != [] {
      var s := spans[0];
      assert (bs + more)[s.off..s.off + s.len] == bs[s.off..s.off + s.len];
      assert WrapSpan(bs + more, s) == WrapSpan(bs, s) + more;
      assert WrapSpan(bs, s)[..from] == bs[..from];
      WrapSpansInside(WrapSpan(bs, s), more, spans[1..], from);
    }
  }

  // ----- frames -----

  function OpOf(f: Format, tx: seq<Byte>): Word
    requires |tx| >= f.TxSize()
  {
    LoadWord(tx[f.OpAt()..f.OpAt() + 4])
  }

  /** The fields that `tx_wrap` swaps: none for an operation outside the table. */
  function WrappedFields(f: Format, tx: seq<Byte>): seq<Span>
    requires |tx| >= f.TxSize()
  {
    if OpOf(f, tx) < f.maxTx then f.Wrapped(OpOf(f, tx)) else []
  }

  /** A transaction with its payload, as `sched_tx_payload` is given one. */
  datatype Sent = Sent(sink: seq<Byte>, stamp: seq<Byte>, tx: seq<Byte>)

  predicate Sized(f: Format, m: Sent) {
    |m.sink| == f.keySize && |m.stamp| == 8 && f.TxSize() <= |m.tx| < 0x1_0000_0000
  }

  /** The structure of the operation is all there. */
  predicate ValidSent(f: Format, m: Sent) {
    Sized(f, m) && Fit(WrappedFields(f, m.tx), |m.tx|)
  }

  /** `prep_net_tx`: the checksum covers the tx header, and the size is in network order. */
  function NetHeader(f: Format, m: Sent): (h: seq<Byte>)
    requires Sized(f, m)
    ensures |h| == f.NetSize()
  {
    m.sink + m.stamp + StoreWord(f.crc(m.tx[..f.TxSize()])) + StoreWord(f.magic)
    + StoreWord(Htonl(|m.tx|)) + StoreWord(0)
  }

  function Frame(f: Format, m: Sent): (b: seq<Byte>)
    requires ValidSent(f, m)
    ensures |b| == f.NetSize() + |m.tx|
  {
    NetHeader(f, m) + WrapSpans(m.tx, WrappedFields(f, m.tx))
  }

  // ----- cycle_client_request -----

  datatype Verdict =
    | IllegalOp        // SHERR_ILSEQ, an operation of no known version
    | UnsupportedOp    // SHERR_OPNOTSUPP
    | NotInitialized   // SHERR_AGAIN, the AUTH gate
    | Dispatched(tx: seq<Byte>)

  datatype Outcome =
    | Pending
    | Corrupt          // SHERR_ILSEQ: the whole buffer is dropped
    | Taken(verdict: Verdict)
    | OutOfBounds      // a field to be wrapped lies beyond all memory that is modelled

  function NetWord(f: Format, buf: seq<Byte>, at: nat): Word
    requires |buf| >= f.NetSize() && at <= 12
  {
    LoadWord(buf[f.keySize + 8 + at..f.keySize + 12 + at])
  }

  function NetCrc(f: Format, buf: seq<Byte>): Word
    requires |buf| >= f.NetSize()
  {
    NetWord(f, buf, 0)
  }

  function NetMagic(f: Format, buf: seq<Byte>): Word
    requires |buf| >= f.NetSize()
  {
    NetWord(f, buf, 4)
  }

  function NetTxSize(f: Format, buf: seq<Byte>): Word
    requires |buf| >= f.NetSize()
  {
    Htonl(NetWord(f, buf, 8))
  }

  /** Only an initialisation passes while the client still has to authenticate. */
  predicate Admitted(f: Format, auth: bool, op: Word) {
    op < f.maxTx && (op == TX_INIT || !auth)
  }

  /** Why an operation is not admitted; the cast to int makes large operations negative. */
  function Refusal(f: Format, op: Word): Verdict {
    if op < f.maxTx then NotInitialized
    else if f.maxVersionTx <= op < 0x8000_0000 then IllegalOp
    else UnsupportedOp
  }

  /**
   * One call on the buffered bytes, up to the transaction handlers: what happens, and what is
   * buffered afterwards. `beyond` is the memory behind the buffered bytes, which `tx_wrap` does
   * not keep off. If even that ends inside a field, nothing is said of the rest.
   */
  function Receive(f: Format, auth: bool, buf: seq<Byte>, beyond: seq<Byte>): (Outcome, seq<Byte>) {
    if |buf| < f.NetSize() then (Pending, buf)
    else if NetMagic(f, buf) != f.magic || NetTxSize(f, buf) < f.TxSize() then (Corrupt, [])
    else if |buf| < f.NetSize() + NetTxSize(f, buf) then (Pending, buf)
    else
      var size, rest := NetTxSize(f, buf), buf[f.NetSize()..];
      if f.crc(rest[..f.TxSize()]) != NetCrc(f, buf) then (Corrupt, [])
      else if !Admitted(f, auth, OpOf(f, rest)) then (Taken(Refusal(f, OpOf(f, rest))), rest[size..])
      else if !Fit(WrappedFields(f, rest), |rest| + |beyond|) then (OutOfBounds, [])
      else
        var unwrapped := WrapSpans(rest + beyond, WrappedFields(f, rest));
        (Taken(Dispatched(unwrapped[..size])), unwrapped[size..|rest|])
  }
}
