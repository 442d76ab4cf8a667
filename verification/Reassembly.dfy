/** Frames come off the stream one by one and intact, however their bytes are divided over reads. */
module Reassembly {
  import opened Bytes
  import opened ByteOrder
  import opened Wire

  // ----- one frame -----

  lemma HeaderWords(f: Format, m: Sent, x: seq<Byte>)
    requires Sized(f, m)
    ensures var buf := NetHeader(f, m) + x;
      && NetCrc(f, buf) == f.crc(m.tx[..f.TxSize()]) && NetMagic(f, buf) == f.magic && NetTxSize(f, buf) == |m.tx|
  {
    hide Htonl, LoadWord, StoreWord;
    var buf := NetHeader(f, m) + x;
    var crc := StoreWord(f.crc(m.tx[..f.TxSize()]));
    var k := f.keySize + 8;
    assert buf[k..k + 4] == crc;
    assert buf[k + 4..k + 8] == StoreWord(f.magic);
    assert buf[k + 8..k + 12] == StoreWord(Htonl(|m.tx|));
    LoadStore(f.crc(m.tx[..f.TxSize()]));
    LoadStore(f.magic);
    LoadStore(Htonl(|m.tx|));
    HtonlInvolution(|m.tx|);
  }

  /** What the receiver makes of a complete frame of this transaction. */
  function VerdictOn(f: Format, auth: bool, tx: seq<Byte>): Verdict
    requires |tx| >= f.TxSize()
  {
    if Admitted(f, auth, OpOf(f, tx)) then Dispatched(tx) else Refusal(f, OpOf(f, tx))
  }

  lemma WrappedTx(f: Format, m: Sent, more: seq<Byte>)
    requires ValidFormat(f) && ValidSent(f, m)
    ensures var fields := WrappedFields(f, m.tx); var rest := WrapSpans(m.tx, fields) + more;
      && rest[..f.TxSize()] == m.tx[..f.TxSize()] && OpOf(f, rest) == OpOf(f, m.tx)
      && Fit(fields, |rest|) && WrapSpans(rest, fields) == m.tx + more
  {
    hide WrapSpans, LoadWord;
    var fields := WrappedFields(f, m.tx);
    var wrapped := WrapSpans(m.tx, fields);
    TableIsValid(f, OpOf(f, m.tx));
    WrapSpansInside(m.tx, more, fields, f.TxSize());
    WrapSpansInside(wrapped, more, fields, f.TxSize());
    WrapSpansInvolution(m.tx, fields);
    var rest := wrapped + more;
    assert rest[..f.TxSize()] == wrapped[..f.TxSize()];
    assert rest[f.OpAt()..f.OpAt() + 4] == rest[..f.TxSize()][f.OpAt()..f.OpAt() + 4];
    assert m.tx[f.OpAt()..f.OpAt() + 4] == m.tx[..f.TxSize()][f.OpAt()..f.OpAt() + 4];
  }

  /** A complete frame at the front is taken off, exactly, and seen as it was sent, whatever follows it. */
  lemma {:induction false} ReceiveFrame(f: Format, auth: bool, m: Sent, more: seq<Byte>, beyond: seq<Byte>)
    requires ValidFormat(f) && ValidSent(f, m)
    ensures Receive(f, auth, Frame(f, m) + more, beyond) == (Taken(VerdictOn(f, auth, m.tx)), more)
  {
    hide WrapSpans, NetHeader, OpOf, NetCrc, NetMagic, NetTxSize, Admitted, Refusal, Fit;
    var fields := WrappedFields(f, m.tx);
    var wrapped := WrapSpans(m.tx, fields);
    var buf := Frame(f, m) + more;
    assert buf == NetHeader(f, m) + (wrapped + more);
    HeaderWords(f, m, wrapped + more);
    assert buf[f.NetSize()..] == wrapped + more;
    WrappedTx(f, m, more);
    WrappedTx(f, m, more + beyond);
    var all := m.tx + (more + beyond);
    assert (wrapped + more) + beyond == wrapped + (more + beyond);
    assert (wrapped + more)[|m.tx|..] == more;
    assert all[..|m.tx|] == m.tx && all[|m.tx|..|m.tx + more|] == more;
  }

  /** Nothing is consumed while the frame is incomplete. */
  lemma {:induction false} ReceivePartial(f: Format, auth: bool, m: Sent, buf: seq<Byte>, beyond: seq<Byte>)
    requires ValidFormat(f) && ValidSent(f, m) && buf < Frame(f, m)
    ensures Receive(f, auth, buf, beyond) == (Pending, buf)
  {
    hide WrapSpans, NetHeader, OpOf, NetCrc, NetMagic, NetTxSize;
    if |buf| >= f.NetSize() {
      assert buf[..f.NetSize()] == Frame(f, m)[..f.NetSize()] == NetHeader(f, m);
      assert buf == NetHeader(f, m) + buf[f.NetSize()..];
      HeaderWords(f, m, buf[f.NetSize()..]);
    }
  }

  /** The frame at the front of arbitrary bytes is complete and passes the header checks. */
  predicate Intact(f: Format, buf: seq<Byte>) {
    && |buf| >= f.NetSize() && NetMagic(f, buf) == f.magic && NetTxSize(f, buf) >= f.TxSize()
    && |buf| >= f.NetSize() + NetTxSize(f, buf)
    && f.crc(buf[f.NetSize()..][..f.TxSize()]) == NetCrc(f, buf)
  }

  lemma WrapInFront(bs: seq<Byte>, fields: seq<Span>, n: nat)
    requires n <= |bs| && Fit(fields, n)
    ensures Fit(fields, |bs|) && WrapSpans(bs, fields)[n..] == bs[n..]
  {
    hide WrapSpans;
    assert bs == bs[..n] + bs[n..];
    WrapSpansInside(bs[..n], bs[n..], fields, 0);
  }

  /**
   * On arbitrary bytes: only an intact frame is taken; it takes exactly its own bytes; while AUTH
   * is set nothing but an initialisation gets through; and what follows it stays as it was,
   * provided the wrapped fields lie in the transaction that was sent.
   */
  lemma {:induction false} ReceiveAny(f: Format, auth: bool, buf: seq<Byte>, beyond: seq<Byte>)
    ensures var (outcome, left) := Receive(f, auth, buf, beyond);
      && (outcome.Pending? ==> left == buf)
      && (outcome.Corrupt? ==> left == [])
      && (outcome.Taken? || outcome.OutOfBounds? <==> Intact(f, buf))
      && (Intact(f, buf) ==>
            var size, rest := NetTxSize(f, buf), buf[f.NetSize()..];
            var op, fields := OpOf(f, rest), WrappedFields(f, rest);
            && (outcome.Taken? ==> |left| + f.NetSize() + size == |buf|)
            && (outcome.Taken? && outcome.verdict.Dispatched? ==>
                  |outcome.verdict.tx| == size && (auth ==> op == TX_INIT))
            && (Fit(fields, size) || !Admitted(f, auth, op) ==> outcome.Taken? && left == rest[size..]))
  {
    hide WrapSpans, OpOf, NetCrc, NetMagic, NetTxSize, Fit, WrappedFields;
    if Intact(f, buf) {
      var size, rest := NetTxSize(f, buf), buf[f.NetSize()..];
      if Fit(WrappedFields(f, rest), size) {
        WrapInFront(rest + beyond, WrappedFields(f, rest), size);
        assert (rest + beyond)[size..][..|rest| - size] == rest[size..];
      }
    }
  }

  /**
   * What comes of a complete frame, by the number of its operation: a known one is dispatched exactly
   * if it is an initialisation or AUTH is clear; a number from 2^31 on counts as negative.
   */
  lemma {:induction false} VerdictsExactly(f: Format, auth: bool, m: Sent, more: seq<Byte>, beyond: seq<Byte>)
    requires ValidFormat(f) && ValidSent(f, m)
    ensures var outcome, op := Receive(f, auth, Frame(f, m) + more, beyond).0, OpOf(f, m.tx);
      && (outcome == Taken(Dispatched(m.tx)) <==> op < f.maxTx && (op == 1 || !auth))
      && (outcome == Taken(NotInitialized) <==> op < f.maxTx && op != 1 && auth)
      && (outcome == Taken(IllegalOp) <==> f.maxTx <= op < 0x8000_0000 && f.maxVersionTx <= op)
      && (outcome == Taken(UnsupportedOp) <==> op >= f.maxTx && (op >= 0x8000_0000 || op < f.maxVersionTx))
  {
    ReceiveFrame(f, auth, m, more, beyond);
    hide Receive, Frame, OpOf, ValidSent;
  }

  /** Whether the bytes at the front are waited for, thrown away with all that follows, or taken. */
  lemma {:induction false} FrontExactly(f: Format, auth: bool, buf: seq<Byte>, beyond: seq<Byte>)
    ensures var outcome, header := Receive(f, auth, buf, beyond).0, |buf| >= f.keySize + 24;
      && (outcome.Corrupt? <==>
            header && (|| NetMagic(f, buf) != f.magic || NetTxSize(f, buf) < f.TxSize()
                       || (|buf| >= f.NetSize() + NetTxSize(f, buf)
                           && f.crc(buf[f.NetSize()..][..f.TxSize()]) != NetCrc(f, buf))))
      && (outcome.Pending? <==>
            !header || (&& NetMagic(f, buf) == f.magic && NetTxSize(f, buf) >= f.TxSize()
                        && |buf| < f.NetSize() + NetTxSize(f, buf)))
  {
    hide WrapSpans, OpOf, NetCrc, NetMagic, NetTxSize, Fit, WrappedFields, Admitted, Refusal;
  }

  // ----- what follows a frame -----

  /** No wrapped field moves a byte at or beyond `size`. */
  ghost predicate StayIn(fields: seq<Span>, size: nat, n: nat) {
    forall k, i :: 0 <= k < |fields| && size <= i < n ==> SpanIndex(fields[k], i) == i
  }

  lemma SameWord(f: Format, front: seq<Byte>, more: seq<Byte>, at: nat)
    requires |front| >= f.NetSize() && at <= 12
    ensures NetWord(f, front + more, at) == NetWord(f, front, at)
  {
    hide LoadWord;
    assert (front + more)[f.keySize + 8 + at..f.keySize + 12 + at] == front[f.keySize + 8 + at..f.keySize + 12 + at];
  }

  /** A call on an intact frame and `more` leaves what wrapping makes of `more`. */
  lemma ReceiveFront(f: Format, auth: bool, front: seq<Byte>, more: seq<Byte>, beyond: seq<Byte>)
    requires Intact(f, front) && |front| == f.NetSize() + NetTxSize(f, front)
    ensures var tx := front[f.NetSize()..]; var fields, n := WrappedFields(f, tx), |tx + more|;
      var r := Receive(f, auth, front + more, beyond);
      if !Admitted(f, auth, OpOf(f, tx)) then r.0.Taken? && r.1 == more
      else if !Fit(fields, n + |beyond|) then r.0 == OutOfBounds
      else r.0.Taken? && r.1 == WrapSpans(tx + (more + beyond), fields)[|tx|..n]
  {
    hide Receive, Intact, WrapSpans, NetTxSize, OpOf, Fit, Admitted, WrappedFields, Refusal;
    var tx, buf := front[f.NetSize()..], front + more;
    IntactFront(f, front, more);
    ReceiveIntact(f, auth, buf, beyond);
    assert (tx + more)[|tx|..] == more;
    assert (tx + more) + beyond == tx + (more + beyond);
  }

  lemma IntactFront(f: Format, front: seq<Byte>, more: seq<Byte>)
    requires Intact(f, front) && |front| == f.NetSize() + NetTxSize(f, front)
    ensures var tx, buf := front[f.NetSize()..], front + more;
      && Intact(f, buf) && NetTxSize(f, buf) == |tx| >= f.TxSize() && buf[f.NetSize()..] == tx + more
      && OpOf(f, tx + more) == OpOf(f, tx) && WrappedFields(f, tx + more) == WrappedFields(f, tx)
  {
    hide NetCrc, NetMagic, NetTxSize, OpOf, WrappedFields;
    var tx := front[f.NetSize()..];
    assert (front + more)[f.NetSize()..] == tx + more;
    SameHeader(f, front, more);
    SameTx(f, tx, more);
  }

  lemma ReceiveIntact(f: Format, auth: bool, buf: seq<Byte>, beyond: seq<Byte>)
    requires Intact(f, buf)
    ensures var size, rest := NetTxSize(f, buf), buf[f.NetSize()..];
      var fields, r := WrappedFields(f, rest), Receive(f, auth, buf, beyond);
      if !Admitted(f, auth, OpOf(f, rest)) then r == (Taken(Refusal(f, OpOf(f, rest))), rest[size..])
      else if !Fit(fields, |rest| + |beyond|) then r.0 == OutOfBounds
      else r.0.Taken? && r.1 == WrapSpans(rest + beyond, fields)[size..|rest|]
  {
    hide WrapSpans, NetCrc, NetMagic, NetTxSize, OpOf, Fit, Admitted, WrappedFields, Refusal;
  }

  lemma SameHeader(f: Format, front: seq<Byte>, more: seq<Byte>)
    requires |front| >= f.NetSize()
    ensures NetCrc(f, front + more) == NetCrc(f, front) && NetMagic(f, front + more) == NetMagic(f, front)
    ensures NetTxSize(f, front + more) == NetTxSize(f, front)
  {
    hide NetWord, Htonl;
    SameWord(f, front, more, 0);
    SameWord(f, front, more, 4);
    SameWord(f, front, more, 8);
  }

  lemma SameTx(f: Format, tx: seq<Byte>, more: seq<Byte>)
    requires |tx| >= f.TxSize()
    ensures (tx + more)[..f.TxSize()] == tx[..f.TxSize()]
    ensures OpOf(f, tx + more) == OpOf(f, tx) && WrappedFields(f, tx + more) == WrappedFields(f, tx)
  {
    hide LoadWord;
    assert (tx + more)[f.OpAt()..f.OpAt() + 4] == tx[f.OpAt()..f.OpAt() + 4];
  }

  lemma StaysWhole(tx: seq<Byte>, fields: seq<Span>, more: seq<Byte>, beyond: seq<Byte>)
    requires Fit(fields, |tx + more| + |beyond|) && StayIn(fields, |tx|, |tx + more|)
    ensures WrapSpans(tx + (more + beyond), fields)[|tx|..|tx + more|] == more
  {
    hide WrapSpans, SpanIndex;
    var all := tx + (more + beyond);
    forall i | |tx| <= i < |tx + more|
      ensures WrapSpans(all, fields)[i] == more[i - |tx|]
    {
      WrapSpansFix(all, fields, i);
    }
  }

  /** Where all fields end. */
  function End(fields: seq<Span>): (n: nat)
    ensures Fit(fields, n)
  {
    if fields == [] then 0
    else
      var first, rest := fields[0].off + fields[0].len, End(fields[1..]);
      if first < rest then rest else first
  }

  /** If a field moves a byte there, some bytes do not survive, with some memory behind them. */
  lemma SomeChange(tx: seq<Byte>, fields: seq<Span>, n: nat) returns (more: seq<Byte>, beyond: seq<Byte>)
    requires AllDisjoint(fields) && !StayIn(fields, |tx|, |tx| + n)
    ensures |more| == n && Fit(fields, |tx| + n + |beyond|)
    ensures WrapSpans(tx + (more + beyond), fields)[|tx|..|tx| + n] != more
  {
    hide WrapSpans, AllDisjoint;
    var k, i :| 0 <= k < |fields| && |tx| <= i < |tx| + n && SpanIndex(fields[k], i) != i;
    var j := SpanIndex(fields[k], i);
    var c: Byte := if j < |tx| && tx[j] == 1 then 0 else 1;
    var tail: seq<Byte> := seq(n + End(fields), q requires 0 <= q < n + End(fields) =>
      if q == i - |tx| || j < |tx| then c else 1 - c);
    more, beyond := tail[..n], tail[n..];
    assert more + beyond == tail;
    WrapSpansMove(tx + tail, fields, k, i);
    assert (tx + tail)[i] == c && (tx + tail)[j] != c;
    assert WrapSpans(tx + tail, fields)[|tx|..|tx| + n][i - |tx|] != more[i - |tx|];
  }

  /**
   * The bytes that follow a frame survive the wrapping, whatever they are and whatever memory lies
   * behind them, exactly when the frame is refused or no field moves a byte among them.
   */
  lemma {:induction false} FollowingBytes(f: Format, auth: bool, front: seq<Byte>, n: nat)
    requires ValidFormat(f) && Intact(f, front) && |front| == f.NetSize() + NetTxSize(f, front)
    ensures var tx, size := front[f.NetSize()..], NetTxSize(f, front); var fields := WrappedFields(f, tx);
      (forall more: seq<Byte>, beyond: seq<Byte> :: |more| == n && Fit(fields, size + n + |beyond|) ==>
         Receive(f, auth, front + more, beyond).1 == more)
      <==> !Admitted(f, auth, OpOf(f, tx)) || StayIn(fields, size, size + n)
  {
    var tx := front[f.NetSize()..];
    assert |tx| == NetTxSize(f, front) >= f.TxSize();
    hide Receive, WrapSpans, Intact, NetTxSize, Fit, StayIn, OpOf, Admitted, End;
    var fields := WrappedFields(f, tx);
    if Admitted(f, auth, OpOf(f, tx)) && !StayIn(fields, |tx|, |tx| + n) {
      TableIsValid(f, OpOf(f, tx));
      var more, beyond := SomeChange(tx, fields, n);
      ReceiveFront(f, auth, front, more, beyond);
      assert Receive(f, auth, front + more, beyond).1 != more;
    } else {
      forall more: seq<Byte>, beyond: seq<Byte> | |more| == n && Fit(fields, |tx| + n + |beyond|)
        ensures Receive(f, auth, front + more, beyond).1 == more
      {
        ReceiveFront(f, auth, front, more, beyond);
        if StayIn(fields, |tx|, |tx + more|) {
          StaysWhole(tx, fields, more, beyond);
        }
      }
    }
  }

  /** While AUTH is set they survive: the one operation that is admitted wraps nothing. */
  lemma {:induction false} AuthKeepsRest(f: Format, front: seq<Byte>, more: seq<Byte>, beyond: seq<Byte>)
    requires Intact(f, front) && |front| == f.NetSize() + NetTxSize(f, front)
    ensures Receive(f, true, front + more, beyond).0.Taken? && Receive(f, true, front + more, beyond).1 == more
  {
    hide Receive, OpOf;
    var tx := front[f.NetSize()..];
    ReceiveFront(f, true, front, more, beyond);
    if OpOf(f, tx) == TX_INIT {
      assert (tx + (more + beyond))[|tx|..|tx + more|] == more;
    }
  }

  /** A subscription spares the bytes that follow exactly if they end before its two words or start behind them. */
  lemma {:induction false} SubscriptionSpares(f: Format, size: nat, n: nat)
    ensures StayIn(f.Wrapped(TX_SUBSCRIBE), size, size + n)
       <==> n == 0 || size + n <= f.SubOpAt() || f.SubOpAt() + 8 <= size
  {
    var at, fields := f.SubOpAt(), f.Wrapped(TX_SUBSCRIBE);
    assert forall i :: at <= i < at + 4 ==> SpanIndex(fields[0], i) == 2 * at + 3 - i;
    assert forall i :: at + 4 <= i < at + 8 ==> SpanIndex(fields[1], i) == 2 * at + 11 - i;
    if n > 0 && size + n > at && at + 8 > size {
      var i := if size < at then at else size;
      assert SpanIndex(fields[if i < at + 4 then 0 else 1], i) != i;
    }
  }

  /** What a subscription does to byte `i` of what follows a bare transaction header. */
  function SubIndex(f: Format, i: nat): nat {
    var k := f.keySize;
    if k <= i < k + 4 then 2 * k + 3 - i else if k + 4 <= i < k + 8 then 2 * k + 11 - i else i
  }

  lemma SubIndexIs(f: Format, i: nat)
    ensures var at := f.TxSize();
      var fields := f.Wrapped(TX_SUBSCRIBE);
      at + SubIndex(f, i) == (if i < f.keySize + 4 then SpanIndex(fields[0], at + i) else SpanIndex(fields[1], at + i))
    ensures i < f.keySize + 4 ==> SpanIndex(f.Wrapped(TX_SUBSCRIBE)[1], f.TxSize() + i) == f.TxSize() + i
    ensures i >= f.keySize + 4 ==> SpanIndex(f.Wrapped(TX_SUBSCRIBE)[0], f.TxSize() + i) == f.TxSize() + i
  {
  }

  lemma SubscriptionAt(f: Format, bs: seq<Byte>, i: nat)
    requires f.SubOpAt() + 8 <= |bs| && f.TxSize() + i < |bs|
    ensures f.TxSize() + SubIndex(f, i) < |bs|
    ensures WrapSpans(bs, f.Wrapped(TX_SUBSCRIBE))[f.TxSize() + i] == bs[f.TxSize() + SubIndex(f, i)]
  {
    SubIndexIs(f, i);
    hide WrapSpans, SpanIndex, SubIndex;
    var fields, at := f.Wrapped(TX_SUBSCRIBE), f.TxSize() + i;
    var k := if i < f.keySize + 4 then 0 else 1;
    if SpanIndex(fields[k], at) != at {
      WrapSpansMove(bs, fields, k, at);
    } else {
      WrapSpansFix(bs, fields, at);
    }
  }

  lemma SentIsIntact(f: Format, m: Sent)
    requires Sized(f, m)
    ensures var front := NetHeader(f, m) + m.tx;
      && Intact(f, front) && |front| == f.NetSize() + NetTxSize(f, front) && front[f.NetSize()..] == m.tx
  {
    HeaderWords(f, m, m.tx);
    hide NetHeader, NetCrc, NetMagic, NetTxSize;
    assert (NetHeader(f, m) + m.tx)[f.NetSize()..] == m.tx;
  }

  predicate BareSubscribe(f: Format, m: Sent) {
    Sized(f, m) && |m.tx| == f.TxSize() && OpOf(f, m.tx) == TX_SUBSCRIBE
  }

  lemma SubscribeFields(f: Format, m: Sent)
    requires ValidFormat(f) && BareSubscribe(f, m)
    ensures WrappedFields(f, m.tx) == f.Wrapped(TX_SUBSCRIBE) && Admitted(f, false, OpOf(f, m.tx))
    ensures forall n :: n >= f.SubOpAt() + 8 ==> Fit(f.Wrapped(TX_SUBSCRIBE), n)
  {
    hide OpOf;
  }

  /** A subscription that is a bare transaction header, and what a call on it leaves of what follows. */
  lemma {:induction false} BareSubscription(f: Format, m: Sent, more: seq<Byte>, beyond: seq<Byte>, i: nat)
    requires ValidFormat(f) && BareSubscribe(f, m)
    requires |more| + |beyond| >= f.keySize + 8 && i < |more|
    ensures var (outcome, left) := Receive(f, false, NetHeader(f, m) + m.tx + more, beyond);
      && outcome.Taken? && |left| == |more|
      && SubIndex(f, i) < |more + beyond| && left[i] == (more + beyond)[SubIndex(f, i)]
  {
    SentIsIntact(f, m);
    SubscribeFields(f, m);
    hide NetHeader, Intact, NetTxSize, OpOf, Receive, SubIndex, WrappedFields, Fit, Admitted;
    SubscribeFront(f, NetHeader(f, m) + m.tx, more, beyond, i);
  }

  lemma SubscribeFront(f: Format, front: seq<Byte>, more: seq<Byte>, beyond: seq<Byte>, i: nat)
    requires Intact(f, front) && |front| == f.NetSize() + NetTxSize(f, front) == f.NetSize() + f.TxSize()
    requires var tx := front[f.NetSize()..];
      WrappedFields(f, tx) == f.Wrapped(TX_SUBSCRIBE) && Admitted(f, false, OpOf(f, tx))
    requires Fit(f.Wrapped(TX_SUBSCRIBE), f.TxSize() + |more| + |beyond|)
    requires |more| + |beyond| >= f.keySize + 8 && i < |more|
    ensures var (outcome, left) := Receive(f, false, front + more, beyond);
      && outcome.Taken? && |left| == |more|
      && SubIndex(f, i) < |more + beyond| && left[i] == (more + beyond)[SubIndex(f, i)]
  {
    hide Intact, NetTxSize, OpOf, Receive, WrapSpans, SubIndex, WrappedFields, Fit, Admitted;
    var tx := front[f.NetSize()..];
    var bs := tx + (more + beyond);
    ReceiveFront(f, false, front, more, beyond);
    SubscriptionAt(f, bs, i);
    var wrapped := WrapSpans(bs, f.Wrapped(TX_SUBSCRIBE));
    assert wrapped[|tx|..|tx + more|][i] == wrapped[|tx| + i];
  }

  /** The stamp of a frame that follows has the bytes of each of its two words reversed. */
  lemma {:induction false} NextFrameChanged(f: Format, m: Sent, next: seq<Byte>, beyond: seq<Byte>, i: nat)
    requires ValidFormat(f) && BareSubscribe(f, m)
    requires |next| >= f.NetSize() && i < 4
    ensures var left := Receive(f, false, NetHeader(f, m) + m.tx + next, beyond).1; var k := f.keySize;
      && |left| == |next|
      && left[k + i] == next[k + 3 - i] && left[k + 4 + i] == next[k + 7 - i]
  {
    hide Receive, NetHeader, BareSubscribe, ValidFormat;
    BareSubscription(f, m, next, beyond, f.keySize + i);
    BareSubscription(f, m, next, beyond, f.keySize + 4 + i);
  }

  /** Where only two bytes of that stamp have arrived, they are replaced by what lay in memory behind them. */
  lemma {:induction false} PartialFrameChanged(f: Format, m: Sent, next: seq<Byte>, beyond: seq<Byte>)
    requires ValidFormat(f) && BareSubscribe(f, m)
    requires |next| == f.keySize + 2 && |beyond| >= 6
    ensures var left := Receive(f, false, NetHeader(f, m) + m.tx + next, beyond).1; var k := f.keySize;
      |left| == |next| && left[k] == beyond[1] && left[k + 1] == beyond[0]
  {
    BareSubscription(f, m, next, beyond, f.keySize);
    BareSubscription(f, m, next, beyond, f.keySize + 1);
  }

  // ----- runs -----

  /**
   * Bytes arrive, or the server looks at the client; `auth` is the flag at that moment, and `beyond`
   * what then lies in memory behind the buffered bytes.
   */
  datatype Event = Read(bytes: seq<Byte>) | Cycle(auth: bool, beyond: seq<Byte>)

  datatype Taking = Taking(auth: bool, outcome: Outcome)

  /** What a run takes off, and what it leaves buffered. */
  function Run(f: Format, buf: seq<Byte>, es: seq<Event>): (seq<Taking>, seq<Byte>)
    decreases |es|
  {
    if es == [] then ([], buf)
    else
      match es[0]
      case Read(bytes) => Run(f, buf + bytes, es[1..])
      case Cycle(auth, beyond) =>
        var (outcome, left) := Receive(f, auth, buf, beyond);
        var (takings, end) := Run(f, left, es[1..]);
        (if outcome == Pending then takings else [Taking(auth, outcome)] + takings, end)
  }

  function Reads(es: seq<Event>): seq<Byte> {
    if es == [] then [] else (if es[0].Read? then es[0].bytes else []) + Reads(es[1..])
  }

  ghost predicate AllValid(f: Format, ms: seq<Sent>) {
    ValidFormat(f) && forall i :: 0 <= i < |ms| ==> ValidSent(f, ms[i])
  }

  ghost function Stream(f: Format, ms: seq<Sent>): seq<Byte>
    requires AllValid(f, ms)
  {
    if ms == [] then [] else Frame(f, ms[0]) + Stream(f, ms[1..])
  }

  /** The takings are the first messages, in order, each with the verdict it deserves. */
  ghost predicate InOrder(f: Format, takings: seq<Taking>, ms: seq<Sent>)
    requires AllValid(f, ms)
  {
    && |takings| <= |ms|
    && forall i :: 0 <= i < |takings| ==>
      takings[i].outcome == Taken(VerdictOn(f, takings[i].auth, ms[i].tx))
  }

  lemma {:induction false} ReceiveFromStream(f: Format, auth: bool, buf: seq<Byte>, beyond: seq<Byte>,
                                             ms: seq<Sent>, later: seq<Byte>)
    requires AllValid(f, ms) && buf + later == Stream(f, ms)
    ensures var (outcome, left) := Receive(f, auth, buf, beyond);
      if ms != [] && |buf| >= |Frame(f, ms[0])|
      then outcome == Taken(VerdictOn(f, auth, ms[0].tx)) && left + later == Stream(f, ms[1..])
      else outcome == Pending && left == buf
  {
    hide Receive, Frame, VerdictOn, ValidFormat, ValidSent;
    if ms == [] {
      NothingBuffered(f, auth, buf, beyond);
    } else {
      var frame, rest := Frame(f, ms[0]), Stream(f, ms[1..]);
      if |buf| >= |frame| {
        var more := buf[|frame|..];
        assert (buf + later)[..|frame|] == (frame + rest)[..|frame|] == frame;
        assert buf == frame + more;
        assert more + later == (buf + later)[|frame|..] == rest;
        ReceiveFrame(f, auth, ms[0], more, beyond);
      } else {
        assert buf == (buf + later)[..|buf|] == (frame + rest)[..|buf|] == frame[..|buf|];
        ReceivePartial(f, auth, ms[0], buf, beyond);
      }
    }
  }

  lemma NothingBuffered(f: Format, auth: bool, buf: seq<Byte>, beyond: seq<Byte>)
    requires buf == []
    ensures Receive(f, auth, buf, beyond) == (Pending, buf)
  {
    assert f.NetSize() > 0;
  }

  /**
   * Over every run: whatever part of the stream has arrived, in whatever pieces, the frames
   * taken off are the first ones, and what is buffered is the rest of what arrived.
   */
  lemma {:induction false} RunTakesInOrder(f: Format, buf: seq<Byte>, es: seq<Event>, ms: seq<Sent>, later: seq<Byte>)
    requires AllValid(f, ms) && buf + Reads(es) + later == Stream(f, ms)
    ensures var (takings, left) := Run(f, buf, es);
      InOrder(f, takings, ms) && left + later == Stream(f, ms[|takings|..])
    decreases |es|
  {
    hide Receive, Frame, VerdictOn, ValidFormat, ValidSent;
    if es == [] {
      assert buf + Reads(es) == buf;
      assert ms[0..] == ms;
    } else if es[0].Read? {
      assert buf + Reads(es) == buf + es[0].bytes + Reads(es[1..]);
      RunTakesInOrder(f, buf + es[0].bytes, es[1..], ms, later);
    } else {
      assert Reads(es) == Reads(es[1..]);
      assert buf + (Reads(es) + later) == Stream(f, ms);
      ReceiveFromStream(f, es[0].auth, buf, es[0].beyond, ms, Reads(es) + later);
      var (outcome, left) := Receive(f, es[0].auth, buf, es[0].beyond);
      assert left + Reads(es) + later == left + (Reads(es) + later);
      if outcome == Pending {
        RunTakesInOrder(f, left, es[1..], ms, later);
      } else {
        RunTakesInOrder(f, left, es[1..], ms[1..], later);
        var n := |Run(f, left, es[1..]).0|;
        assert ms[1..][n..] == ms[n + 1..];
      }
    }
  }

  predicate OnlyCycles(es: seq<Event>) {
    forall e :: e in es ==> e.Cycle?
  }

  /** Progress: once the whole stream is buffered, every cycle takes a frame. */
  lemma {:induction false} CyclesDrain(f: Format, es: seq<Event>, ms: seq<Sent>)
    requires AllValid(f, ms) && OnlyCycles(es) && |es| >= |ms|
    ensures var (takings, left) := Run(f, Stream(f, ms), es); |takings| == |ms| && left == []
    decreases |es|
  {
    hide Receive, VerdictOn, ValidFormat, ValidSent;
    if es != [] {
      var buf := Stream(f, ms);
      assert buf + [] == buf;
      ReceiveFromStream(f, es[0].auth, buf, es[0].beyond, ms, []);
      var (outcome, left) := Receive(f, es[0].auth, buf, es[0].beyond);
      assert left + [] == left;
      CyclesDrain(f, es[1..], if ms == [] then [] else ms[1..]);
    }
  }

  lemma {:induction false} RunAppend(f: Format, buf: seq<Byte>, es: seq<Event>, more: seq<Event>)
    ensures var (t1, mid) := Run(f, buf, es); var (t2, end) := Run(f, mid, more);
      Run(f, buf, es + more).0 == t1 + t2 && Run(f, buf, es + more).1 == end
    decreases |es|
  {
    hide Receive;
    if es == [] {
      assert es + more == more;
    } else {
      assert (es + more)[1..] == es[1..] + more;
      match es[0]
      case Read(bytes) => RunAppend(f, buf + bytes, es[1..], more);
      case Cycle(auth, beyond) =>
        RunAppend(f, Receive(f, auth, buf, beyond).1, es[1..], more);
    }
  }

  /**
   * The division into reads does not matter: once all bytes have arrived, one cycle per message
   * is enough, and then exactly the messages have been taken, in order, with nothing left.
   */
  lemma {:induction false} ChunkingDoesNotMatter(f: Format, es: seq<Event>, cycles: seq<Event>, ms: seq<Sent>)
    requires AllValid(f, ms) && Reads(es) == Stream(f, ms)
    requires OnlyCycles(cycles) && |cycles| >= |ms|
    ensures var (takings, left) := Run(f, [], es + cycles);
      |takings| == |ms| && InOrder(f, takings, ms) && left == []
  {
    hide Receive, Frame, VerdictOn, ValidFormat, ValidSent, Run, Reads;
    assert [] + Reads(es) + [] == Stream(f, ms);
    RunTakesInOrder(f, [], es, ms, []);
    RunAppend(f, [], es, cycles);
    var (t1, mid) := Run(f, [], es);
    assert mid + [] == mid;
    CyclesDrain(f, cycles, ms[|t1|..]);
    CyclesRead(cycles);
    assert mid + Reads(cycles) + [] == mid;
    RunTakesInOrder(f, mid, cycles, ms[|t1|..], []);
  }

  lemma {:induction false} CyclesRead(es: seq<Event>)
    requires OnlyCycles(es)
    ensures Reads(es) == []
  {
    if es != [] {
      assert es[0] in es;
      CyclesRead(es[1..]);
    }
  }
}
