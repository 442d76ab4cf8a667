/** The descriptor tree as bytes, and why the parser inverts it. */
module UsbSerializer {
  import opened Options
  import opened Bytes
  import opened UsbDescriptor

  // ----- fields -----

  function WordBytes(v: nat, order: Order): (bs: seq<Byte>)
    requires v < 65536
    ensures |bs| == 2
  {
    if order.LittleEndian? then [v % 256, v / 256] else [v / 256, v % 256]
  }

  /** Values fit a format of 'b' and 'w' fields. */
  predicate Fits(format: string, values: seq<nat>) {
    if format == "" then values == []
    else
      && values != [] && (format[0] == 'b' || format[0] == 'w')
      && values[0] < (if format[0] == 'b' then 256 else 65536)
      && Fits(format[1..], values[1..])
  }

  /** The inverse of `usbi_parse_descriptor`. */
  function Pack(format: string, values: seq<nat>, order: Order): (bs: seq<Byte>)
    requires Fits(format, values)
    ensures |bs| == Width(format)
  {
    if format == "" then []
    else (if format[0] == 'b' then [values[0]] else WordBytes(values[0], order)) + Pack(format[1..], values[1..], order)
  }

  lemma HoldsConcat(mem: Memory, at: nat, a: seq<Byte>, b: seq<Byte>)
    ensures Holds(mem, at, a + b) <==> Holds(mem, at, a) && Holds(mem, at + |a|, b)
  {
    var s := Slice(mem, at, |a + b|);
    assert s[..|a|] == Slice(mem, at, |a|);
    assert s[|a|..] == Slice(mem, at + |a|, |b|);
    assert s == s[..|a|] + s[|a|..];
    assert a + b == (a + b)[..|a|] + (a + b)[|a|..];
    if Holds(mem, at, a + b) {
      assert (a + b)[..|a|] == a && (a + b)[|a|..] == b;
    }
  }

  lemma HeadHolds(mem: Memory, at: nat, format: string, values: seq<nat>, order: Order)
    requires format != "" && Fits(format, values)
    ensures var n := if format[0] == 'b' then 1 else 2;
      Holds(mem, at, Pack(format, values, order))
      <==> (Fields(mem, at, format, order)[0] == values[0] && Holds(mem, at + n, Pack(format[1..], values[1..], order)))
  {
    var head := if format[0] == 'b' then [values[0]] else WordBytes(values[0], order);
    HoldsConcat(mem, at, head, Pack(format[1..], values[1..], order));
    var s := Slice(mem, at, |head|);
    if format[0] == 'b' {
      assert s == [mem(at)];
    } else {
      assert s == [mem(at), mem(at + 1)];
      var v := WordOf(mem(at), mem(at + 1), order);
      assert v % 256 == if order.LittleEndian? then mem(at) else mem(at + 1);
      assert WordBytes(v, order) == s;
    }
  }

  /** Memory holds the packed values exactly when they are what is parsed. */
  lemma {:induction false} FieldsPack(mem: Memory, at: nat, format: string, values: seq<nat>, order: Order)
    requires Fits(format, values)
    ensures Holds(mem, at, Pack(format, values, order)) <==> Fields(mem, at, format, order) == values
    decreases |format|
  {
    if format == "" {
      assert Slice(mem, at, 0) == [];
    } else {
      var n := if format[0] == 'b' then 1 else 2;
      HeadHolds(mem, at, format, values, order);
      FieldsPack(mem, at + n, format[1..], values[1..], order);
      var fs := Fields(mem, at, format, order);
      assert fs[1..] == Fields(mem, at + n, format[1..], order);
      assert values == [values[0]] + values[1..];
    }
  }

  // ----- extra bytes -----

  /** A run of class and vendor descriptors. */
  predicate ExtraOk(e: seq<Byte>)
    decreases |e|
  {
    e == [] || (|e| >= 2 && 2 <= e[0] <= |e| && !Proper(e[1]) && ExtraOk(e[e[0]..]))
  }

  /** A place where such a run ends: no header fits, or a proper descriptor starts. */
  predicate Ends(mem: Memory, at: nat, size: int, bounded: bool) {
    size < HEADER_LENGTH || (mem(at) >= 2 && (bounded ==> mem(at) <= size) && Proper(mem(at + 1)))
  }

  lemma HoldsPrefix(mem: Memory, at: nat, bytes: seq<Byte>, n: nat)
    requires n <= |bytes| && Holds(mem, at, bytes)
    ensures Holds(mem, at + n, bytes[n..])
    ensures forall i :: 0 <= i < |bytes| ==> mem(at + i) == bytes[i]
  {
    HoldsConcat(mem, at, bytes[..n], bytes[n..]);
    assert bytes == bytes[..n] + bytes[n..];
    forall i | 0 <= i < |bytes|
      ensures mem(at + i) == bytes[i]
    {
      assert Slice(mem, at, |bytes|)[i] == mem(at + i);
    }
  }

  lemma {:induction false} SkipPasses(mem: Memory, at: nat, size: int, bounded: bool, extra: seq<Byte>)
    requires ExtraOk(extra) && |extra| <= size && Holds(mem, at, extra)
    requires Ends(mem, at + |extra|, size - |extra|, bounded)
    ensures Skip(mem, at, size, bounded) == Some(|extra|)
    decreases |extra|
  {
    if extra != [] {
      HoldsPrefix(mem, at, extra, extra[0]);
      assert mem(at + 0) == extra[0] && mem(at + 1) == extra[1];
      SkipPasses(mem, at + extra[0], size - extra[0], bounded, extra[extra[0]..]);
    }
  }

  lemma {:induction false} SkippedIsExtra(mem: Memory, at: nat, size: int, bounded: bool)
    requires Skip(mem, at, size, bounded).Some?
    ensures var n := Skip(mem, at, size, bounded).value;
      ExtraOk(Slice(mem, at, n)) && Ends(mem, at + n, size - n, bounded)
    decreases if size < 0 then 0 else size
  {
    var n := Skip(mem, at, size, bounded).value;
    if n > 0 {
      SkippedIsExtra(mem, at + mem(at), size - mem(at), bounded);
      var s := Slice(mem, at, n);
      assert s[0] == mem(at + 0) && s[1] == mem(at + 1);
      assert s[s[0]..] == Slice(mem, at + mem(at), n - mem(at));
    }
  }

  // ----- endpoints -----

  function EndpointFormat(e: Endpoint): string {
    if e.bLength == ENDPOINT_AUDIO_LENGTH then ENDPOINT_AUDIO_FORMAT else ENDPOINT_FORMAT
  }

  function EndpointValues(e: Endpoint): seq<nat> {
    var vs := [e.bLength, e.bDescriptorType, e.bEndpointAddress, e.bmAttributes, e.wMaxPacketSize, e.bInterval];
    if e.bLength == ENDPOINT_AUDIO_LENGTH then vs + [e.bRefresh, e.bSynchAddress] else vs
  }

  predicate EndpointOk(e: Endpoint) {
    && e.bDescriptorType == DT_ENDPOINT && Fits(EndpointFormat(e), EndpointValues(e)) && ExtraOk(e.extra)
    && (e.bLength == ENDPOINT_AUDIO_LENGTH || (e.bLength == ENDPOINT_LENGTH && e.bRefresh == e.bSynchAddress == 0))
  }

  function SerializeEndpoint(e: Endpoint, order: Order): seq<Byte>
    requires EndpointOk(e)
  {
    Pack(EndpointFormat(e), EndpointValues(e), order) + e.extra
  }

  lemma EndpointWidths()
    ensures Width(ENDPOINT_FORMAT) == 7 && Width(ENDPOINT_AUDIO_FORMAT) == 9
    ensures Width(INTERFACE_FORMAT) == 9 && Width(CONFIG_FORMAT) == 9
  {
    WidthOf(ENDPOINT_FORMAT, 4);
    WidthOf(ENDPOINT_AUDIO_FORMAT, 4);
    WidthOf(CONFIG_FORMAT, 2);
    WidthOf(INTERFACE_FORMAT, 9);
  }

  /** A format of bytes with at most one word in it, at index `w`. */
  lemma {:induction false} WidthOf(format: string, w: nat)
    requires forall i :: 0 <= i < |format| ==> format[i] == if i == w then 'w' else 'b'
    ensures Width(format) == |format| + if w < |format| then 1 else 0
    decreases |format|
  {
    if format != "" {
      if w == 0 {
        WidthOf(format[1..], |format|);
      } else {
        WidthOf(format[1..], w - 1);
      }
    }
  }

  /** Every descriptor starts with its length and type. */
  lemma FieldsStart(mem: Memory, at: nat, format: string, order: Order)
    requires |format| >= 2 && format[0] == 'b' && format[1] == 'b'
    requires forall i :: 0 <= i < |format| ==> format[i] == 'b' || format[i] == 'w'
    ensures var fs := Fields(mem, at, format, order); |fs| == |format| && fs[0] == mem(at) && fs[1] == mem(at + 1)
  {
    FieldsLength(mem, at, format, order);
    assert format[1..][0] == 'b';
  }

  lemma EndpointValuesOf(e: Endpoint, fs: seq<nat>)
    requires e.bLength == ENDPOINT_AUDIO_LENGTH || (e.bLength == ENDPOINT_LENGTH && e.bRefresh == e.bSynchAddress == 0)
    requires |fs| == if e.bLength == ENDPOINT_AUDIO_LENGTH then 8 else 6
    ensures EndpointOf(fs) == e.(extra := []) <==> fs == EndpointValues(e)
  {
    if EndpointOf(fs) == e.(extra := []) {
      assert fs == EndpointValues(e);
    }
  }

  lemma EndpointFieldsExactly(mem: Memory, at: nat, e: Endpoint, order: Order)
    requires EndpointOk(e)
    ensures Holds(mem, at, Pack(EndpointFormat(e), EndpointValues(e), order))
       <==> mem(at) == e.bLength && EndpointFields(mem, at, order) == e.(extra := [])
  {
    hide Pack, Fits, ExtraOk, Fields, EndpointOf, Holds;
    var format := EndpointFormat(e);
    FieldsPack(mem, at, format, EndpointValues(e), order);
    FieldsStart(mem, at, format, order);
    EndpointValuesOf(e, Fields(mem, at, format, order));
  }

  lemma {:induction false} EndpointParses(mem: Memory, at: nat, size: int, e: Endpoint, order: Order)
    requires EndpointOk(e)
    requires var n := |SerializeEndpoint(e, order)|; n <= size && Ends(mem, at + n, size - n, false)
    requires Holds(mem, at, SerializeEndpoint(e, order))
    ensures ParseEndpoint(mem, at, size, order) == Ok(e, |SerializeEndpoint(e, order)|)
  {
    hide Pack, Fits, ExtraOk, EndpointFields, Skip;
    EndpointWidths();
    var fields := Pack(EndpointFormat(e), EndpointValues(e), order);
    HoldsConcat(mem, at, fields, e.extra);
    EndpointFieldsExactly(mem, at, e, order);
    EndpointTypeAt(mem, at, e, order);
    SkipPasses(mem, at + e.bLength, size - e.bLength, false, e.extra);
  }

  lemma EndpointTypeAt(mem: Memory, at: nat, e: Endpoint, order: Order)
    requires EndpointOk(e)
    requires Holds(mem, at, Pack(EndpointFormat(e), EndpointValues(e), order))
    ensures mem(at) == e.bLength && mem(at + 1) == DT_ENDPOINT
  {
    hide Pack, Fits, ExtraOk, Fields, Holds;
    var format := EndpointFormat(e);
    FieldsPack(mem, at, format, EndpointValues(e), order);
    FieldsStart(mem, at, format, order);
  }

  lemma {:induction false} ParsedEndpoint(mem: Memory, at: nat, size: int, e: Endpoint, order: Order)
    requires ParseEndpoint(mem, at, size, order).Ok? && ParseEndpoint(mem, at, size, order).value == e
    requires EndpointOk(e)
    ensures Holds(mem, at, SerializeEndpoint(e, order))
    ensures ParseEndpoint(mem, at, size, order).used == |SerializeEndpoint(e, order)|
    ensures var n := |SerializeEndpoint(e, order)|; Ends(mem, at + n, size - n, false)
  {
    hide Pack, Fits, ExtraOk, Skip, EndpointFields, Slice, Ends;
    EndpointWidths();
    EndpointLengthIs(mem, at, order);
    assert EndpointFields(mem, at, order) == e.(extra := []);
    EndpointFieldsExactly(mem, at, e, order);
    HoldsConcat(mem, at, Pack(EndpointFormat(e), EndpointValues(e), order), e.extra);
    SkippedIsExtra(mem, at + e.bLength, size - e.bLength, false);
  }

  lemma EndpointLengthIs(mem: Memory, at: nat, order: Order)
    ensures var e := EndpointFields(mem, at, order);
      e.extra == [] && (e.bDescriptorType == DT_ENDPOINT ==> e.bLength == mem(at))
  {
    hide Fields;
    FieldsStart(mem, at, ENDPOINT_FORMAT, order);
    FieldsStart(mem, at, ENDPOINT_AUDIO_FORMAT, order);
  }
}
