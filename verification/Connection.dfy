/** The daemon's buffers and the two ends of a connection, as the code updates them in place. */
module Connection {
  import opened Bytes
  import opened ByteOrder
  import opened Wire

  /** A growable byte buffer of the share library, whose block may be longer than what it holds. */
  class SharedBuffer {
    const slack: nat
    var data: array<Byte>
    var size: nat

    ghost predicate Valid()
      reads this
    {
      size <= data.Length
    }

    ghost function Contents(): (s: seq<Byte>)
      requires Valid()
      reads this, data
      ensures |s| == size
    {
      data[..size]
    }

    /** What lies in the block behind the contents. */
    ghost function Spare(): (s: seq<Byte>)
      requires Valid()
      reads this, data
    {
      data[size..]
    }

    constructor (slack: nat)
      ensures Valid() && fresh(data) && Contents() == []
    {
      this.slack := slack;
      data := new Byte[0];
      size := 0;
    }

    method Cat(bytes: seq<Byte>)
      requires Valid()
      modifies this, data
      ensures Valid() && (data == old(data) || fresh(data))
      ensures Contents() == old(Contents()) + bytes
    {
      var block := data;
      if size + |bytes| > data.Length {
        block := new Byte[size + |bytes| + slack];
        forall i | 0 <= i < size {
          block[i] := data[i];
        }
      }
      forall i | 0 <= i < |bytes| {
        block[size + i] := bytes[i];
      }
      data := block;
      size := size + |bytes|;
    }

    /** Drop the first `n` bytes. */
    method Trim(n: nat)
      requires Valid()
      modifies this, data
      ensures Valid() && data == old(data)
      ensures Contents() == if n <= old(size) then old(Contents())[n..] else []
    {
      var left := if n <= size then size - n else 0;
      forall i | 0 <= i < left {
        data[i] := data[n + i];
      }
      size := left;
    }

    method Clear()
      requires Valid()
      modifies this
      ensures Valid() && data == old(data) && Contents() == []
    {
      size := 0;
    }

    /** One `wrap_bytes` call of an `op_wrap`, which knows nothing of where the contents end. */
    method WrapField(at: nat, s: Span)
      requires at + s.off + s.len <= data.Length
      modifies data
      ensures data[..at] == old(data[..at])
      ensures data[at..] == WrapSpan(old(data[at..]), s)
    {
      hide Wrap;
      ghost var was := data[..];
      var from := at + s.off;
      WrapBytes(data, from, s.len, false);
      assert data[at..] == data[at..from] + data[from..from + s.len] + data[from + s.len..];
      assert was[at..][s.off..s.off + s.len] == was[from..from + s.len];
      assert data[at..from] == was[..from][at..] && was[at..][..s.off] == was[..from][at..];
    }

    /** `tx_wrap` on the transaction that starts at `at`: each field in turn, in place. */
    method TxWrap(at: nat, fields: seq<Span>)
      requires Valid() && at <= size && Fit(fields, data.Length - at)
      modifies data
      ensures var all := WrapSpans(old(Contents()[at..] + Spare()), fields);
        Contents() == old(Contents()[..at]) + all[..size - at] && Spare() == all[size - at..]
    {
      hide WrapSpans, WrapSpan;
      ghost var was := data[..];
      for i := 0 to |fields|
        invariant data[..at] == was[..at]
        invariant WrapSpans(data[at..], fields[i..]) == WrapSpans(was[at..], fields)
      {
        WrapSpansStep(data[at..], fields[i..]);
        assert fields[i] in fields && fields[i..][1..] == fields[i + 1..];
        WrapField(at, fields[i]);
      }
      WrapNothing(data[at..]);
      assert was[..size][..at] == was[..at] && was[at..] == was[..size][at..] + was[size..];
      assert data[..size] == data[..at] + data[at..][..size - at] && data[size..] == data[at..][size - at..];
    }
  }

  lemma WrapSpansStep(bs: seq<Byte>, fields: seq<Span>)
    requires fields != [] && Fit(fields, |bs|)
    ensures WrapSpans(bs, fields) == WrapSpans(WrapSpan(bs, fields[0]), fields[1..])
  {
  }

  lemma WrapNothing(bs: seq<Byte>)
    ensures WrapSpans(bs, []) == bs
  {
  }

  /**
   * `sched_tx_payload`: the frame that is broadcast, built in a buffer and wrapped there. Nothing
   * is built for less than a transaction header. The fields are wrapped wherever they lie, in the
   * transaction or in what the block holds behind it; if one lies beyond the block, which `inside`
   * denies, nothing is said of the contents.
   */
  method SchedTxPayload(f: Format, slack: nat, sink: seq<Byte>, stamp: seq<Byte>, data: seq<Byte>,
                        payload: seq<Byte>)
    returns (buff: SharedBuffer?, inside: bool, ghost spare: seq<Byte>)
    requires |sink| == f.keySize && |stamp| == 8 && |data| + |payload| < 0x1_0000_0000
    ensures buff == null <==> |data| < f.TxSize()
    ensures buff != null ==>
      var m := Sent(sink, stamp, data + payload);
      var fields := WrappedFields(f, m.tx);
      && fresh(buff) && fresh(buff.data) && buff.Valid()
      && |buff.Contents()| == f.NetSize() + |m.tx| && |spare| == |buff.Spare()|
      && (inside <==> Fit(fields, |m.tx| + |spare|))
      && (inside ==> buff.Contents() == NetHeader(f, m) + WrapSpans(m.tx + spare, fields)[..|m.tx|])
      && (ValidSent(f, m) ==> inside && buff.Contents() == Frame(f, m))
  {
    hide NetHeader, WrapSpans, WrappedFields, Fit;
    if |data| < f.TxSize() {
      return null, true, [];
    }
    var m := Sent(sink, stamp, data + payload);
    buff := Assemble(slack, NetHeader(f, m), data, payload);
    assert buff.Contents()[f.NetSize()..] == m.tx && buff.Contents()[..f.NetSize()] == NetHeader(f, m);
    spare := buff.Spare();
    var fields := WrappedFields(f, m.tx);
    inside := Fit(fields, buff.data.Length - f.NetSize());
    FitsLonger(fields, |m.tx|, |m.tx| + |spare|);
    if inside {
      buff.TxWrap(f.NetSize(), fields);
      if Fit(fields, |m.tx|) {
        SpareStays(m.tx, spare, fields);
      }
    }
  }

  /** The three `shbuf_cat` calls; without a payload there are two. */
  method Assemble(slack: nat, header: seq<Byte>, data: seq<Byte>, payload: seq<Byte>) returns (buff: SharedBuffer)
    ensures fresh(buff) && fresh(buff.data) && buff.Valid()
    ensures buff.Contents() == header + (data + payload)
  {
    buff := new SharedBuffer(slack);
    buff.Cat(header);
    buff.Cat(data);
    if payload != [] {
      buff.Cat(payload);
    }
  }

  lemma FitsLonger(fields: seq<Span>, n: nat, k: nat)
    requires n <= k
    ensures Fit(fields, n) ==> Fit(fields, k)
  {
  }

  lemma SpareStays(tx: seq<Byte>, spare: seq<Byte>, fields: seq<Span>)
    requires Fit(fields, |tx|)
    ensures Fit(fields, |tx + spare|) && WrapSpans(tx + spare, fields)[..|tx|] == WrapSpans(tx, fields)
  {
    hide WrapSpans;
    WrapSpansInside(tx, spare, fields, 0);
  }

  class Receiver {
    const buffIn: SharedBuffer
    var auth: bool

    constructor (slack: nat, auth: bool)
      ensures buffIn.Valid() && fresh(buffIn) && fresh(buffIn.data)
      ensures buffIn.Contents() == [] && this.auth == auth
    {
      buffIn := new SharedBuffer(slack);
      this.auth := auth;
    }

    /** The append of `cycle_socket`. */
    method Incoming(bytes: seq<Byte>)
      requires buffIn.Valid()
      modifies buffIn, buffIn.data
      ensures buffIn.Valid() && (buffIn.data == old(buffIn.data) || fresh(buffIn.data))
      ensures buffIn.Contents() == old(buffIn.Contents()) + bytes
    {
      buffIn.Cat(bytes);
    }

    /**
     * `cycle_client_request` up to the transaction handlers. Where a field lies beyond the block,
     * nothing is said of what is buffered afterwards.
     */
    method CycleClientRequest(f: Format) returns (outcome: Outcome)
      requires buffIn.Valid()
      modifies buffIn, buffIn.data
      ensures buffIn.Valid() && buffIn.data == old(buffIn.data)
      ensures var r := Receive(f, auth, old(buffIn.Contents()), old(buffIn.Spare()));
        outcome == r.0 && (outcome != OutOfBounds ==> buffIn.Contents() == r.1)
    {
      hide WrapSpans, NetWord, OpOf, Refusal, WrappedFields, Fit, Htonl;
      ghost var beyond := buffIn.Spare();
      var raw := buffIn.data[..buffIn.size];
      assert raw == buffIn.Contents();
      if |raw| < f.NetSize() {
        return Pending;
      }
      if NetMagic(f, raw) != f.magic {
        buffIn.Clear();
        return Corrupt;
      }
      var size := NetTxSize(f, raw);
      if size < f.TxSize() {
        buffIn.Clear();
        return Corrupt;
      }
      if |raw| < f.NetSize() + size {
        return Pending;
      }
      var tx := raw[f.NetSize()..];
      if f.crc(tx[..f.TxSize()]) != NetCrc(f, raw) {
        buffIn.Clear();
        return Corrupt;
      }
      if !Admitted(f, auth, OpOf(f, tx)) {
        outcome := Taken(Refusal(f, OpOf(f, tx)));
      } else if !Fit(WrappedFields(f, tx), buffIn.data.Length - f.NetSize()) {
        outcome := OutOfBounds;
      } else {
        buffIn.TxWrap(f.NetSize(), WrappedFields(f, tx));
        var unwrapped := buffIn.data[f.NetSize()..buffIn.size];
        ghost var all := WrapSpans(tx + beyond, WrappedFields(f, tx));
        assert unwrapped == buffIn.Contents()[f.NetSize()..] == all[..|tx|];
        assert unwrapped[..size] == all[..size] && unwrapped[size..] == all[size..|tx|];
        outcome := Taken(Dispatched(unwrapped[..size]));
      }
      ghost var rest := buffIn.Contents()[f.NetSize()..];
      buffIn.Trim(f.NetSize() + size);
      assert buffIn.Contents() == rest[size..];
    }
  }
}
