/** How far the descriptor parser reads, and exactly when that is no further than its buffer. */
module UsbReads {
  import opened Options
  import opened Bytes
  import opened UsbDescriptor
  import opened UsbSerializer
  import opened UsbOverrun

  function Max(a: nat, b: nat): nat {
    if a < b then b else a
  }

  // ----- where reading ends -----

  // Each function gives the address behind the last byte that the step reads, or 0 if it reads none.

  /** The headers that the skipping loop looks at. */
  function HeadersEnd(mem: Memory, at: nat, size: int, bounded: bool): nat
    decreases if size < 0 then 0 else size
  {
    if size < HEADER_LENGTH then 0
    else if mem(at) < 2 || (bounded && mem(at) > size) || Proper(mem(at + 1)) then at + 2
    else Max(at + 2, HeadersEnd(mem, at + mem(at), size - mem(at), bounded))
  }

  /** What it has passed over is copied when it ends well. */
  function CopyEnd(mem: Memory, at: nat, size: int, bounded: bool): nat {
    var n := Skip(mem, at, size, bounded);
    if n.Some? && n.value > 0 then at + n.value else 0
  }

  function SkipEnd(mem: Memory, at: nat, size: int, bounded: bool): nat {
    Max(HeadersEnd(mem, at, size, bounded), CopyEnd(mem, at, size, bounded))
  }

  function EndpointFieldsEnd(mem: Memory, at: nat): nat {
    at + if mem(at) >= ENDPOINT_AUDIO_LENGTH then Width(ENDPOINT_AUDIO_FORMAT)
         else if mem(at) >= ENDPOINT_LENGTH then Width(ENDPOINT_FORMAT) else 0
  }

  /** The header is read twice, whatever is left; the rest only of an endpoint that fits. */
  function EndpointEnd(mem: Memory, at: nat, size: int): nat {
    if mem(at) > size || mem(at + 1) != DT_ENDPOINT then at + 2
    else Max(at + 2, Max(EndpointFieldsEnd(mem, at), SkipEnd(mem, at + mem(at), size - mem(at), false)))
  }

  function EndpointsEnd(mem: Memory, at: nat, size: int, count: nat, order: Order): nat
    decreases count
  {
    if count == 0 then 0
    else
      var here, first := EndpointEnd(mem, at, size), ParseEndpoint(mem, at, size, order);
      if first.Err? then here
      else Max(here, EndpointsEnd(mem, at + first.used, size - first.used, count - 1, order))
  }

  function AltEnd(mem: Memory, at: nat, size: int, order: Order): nat {
    var len := mem(at);
    var skipped := Skip(mem, at + len, size - len, false);
    var here := Max(at + Width(INTERFACE_FORMAT), SkipEnd(mem, at + len, size - len, false));
    if skipped.None? then here
    else
      var next, left := at + len + skipped.value, size - len - skipped.value;
      var count := AltSettingOf(InterfaceFields(mem, at)).bNumEndpoints;
      var tested := Max(here, if left >= HEADER_LENGTH then next + 2 else 0);
      if StopsInterface(mem, next, left) || count > MAX_ENDPOINTS then tested
      else Max(tested, EndpointsEnd(mem, next, left, count, order))
  }

  /** The look at the descriptor that may be another alternate setting. */
  function FollowsEnd(mem: Memory, at: nat, size: int): nat {
    if size < INTERFACE_LENGTH then 0 else at + if mem(at + 1) == DT_INTERFACE then 4 else 2
  }

  function InterfaceEnd(mem: Memory, at: nat, size: int, order: Order): nat
    decreases if size < 0 then 0 else size
  {
    if size < INTERFACE_LENGTH then 0
    else
      var here, first := AltEnd(mem, at, size, order), ParseAlt(mem, at, size, order);
      if first.Err? || first.value.1 then here
      else
        AltUsesBytes(mem, at, size, order);
        var next, left := at + first.used, size - first.used;
        var tested := Max(here, FollowsEnd(mem, next, left));
        if AlternateFollows(mem, next, left) then Max(tested, InterfaceEnd(mem, next, left, order)) else tested
  }

  /** `extra` is what has been kept so far: only the first run of other descriptors is copied. */
  function InterfacesEnd(mem: Memory, at: nat, size: int, count: nat, extra: seq<Byte>, order: Order): nat
    decreases count
  {
    if count == 0 then 0
    else
      var skipped := Skip(mem, at, size, true);
      var here := Max(HeadersEnd(mem, at, size, true), if extra == [] then CopyEnd(mem, at, size, true) else 0);
      if skipped.None? then here
      else
        var next, left := at + skipped.value, size - skipped.value;
        var kept := if extra == [] then Slice(mem, at, skipped.value) else extra;
        var first := ParseInterface(mem, next, left, order);
        var both := Max(here, InterfaceEnd(mem, next, left, order));
        if first.Err? then both
        else Max(both, InterfacesEnd(mem, next + first.used, left - first.used, count - 1, kept, order))
  }

  function ConfigEnd(mem: Memory, at: nat, order: Order): nat {
    var c := ConfigOf(ConfigFields(mem, at, order));
    var here := at + Width(CONFIG_FORMAT);
    if c.bNumInterfaces > MAX_INTERFACES then here
    else Max(here, InterfacesEnd(mem, at + mem(at), c.wTotalLength - mem(at), c.bNumInterfaces, [], order))
  }

  // ----- nothing else is read -----

  ghost predicate Agree(m1: Memory, m2: Memory, from: nat, to: nat) {
    forall i: nat :: from <= i < to ==> m1(i) == m2(i)
  }

  lemma AgreeInside(m1: Memory, m2: Memory, from: nat, to: nat, a: nat, b: nat)
    requires Agree(m1, m2, from, to) && from <= a && b <= to
    ensures Agree(m1, m2, a, b)
  {
  }

  lemma {:induction false} FieldsLocal(m1: Memory, m2: Memory, at: nat, format: string, order: Order)
    requires Agree(m1, m2, at, at + Width(format))
    ensures Fields(m1, at, format, order) == Fields(m2, at, format, order)
    decreases |format|
  {
    if format != "" {
      FieldsLocal(m1, m2, at + Width(format) - Width(format[1..]), format[1..], order);
    }
  }

  lemma {:induction false} HeadersLocal(m1: Memory, m2: Memory, at: nat, size: int, bounded: bool)
    requires Agree(m1, m2, at, HeadersEnd(m1, at, size, bounded))
    ensures Skip(m1, at, size, bounded) == Skip(m2, at, size, bounded)
    decreases if size < 0 then 0 else size
  {
    if size >= HEADER_LENGTH {
      assert m1(at) == m2(at) && m1(at + 1) == m2(at + 1);
      if m1(at) >= 2 && !(bounded && m1(at) > size) && !Proper(m1(at + 1)) {
        HeadersLocal(m1, m2, at + m1(at), size - m1(at), bounded);
      }
    }
  }

  lemma CopyLocal(m1: Memory, m2: Memory, at: nat, size: int, bounded: bool)
    requires Agree(m1, m2, at, CopyEnd(m1, at, size, bounded)) && Skip(m1, at, size, bounded).Some?
    ensures var n := Skip(m1, at, size, bounded).value; Slice(m1, at, n) == Slice(m2, at, n)
  {
    hide Skip;
  }

  lemma SkipLocal(m1: Memory, m2: Memory, at: nat, size: int, bounded: bool)
    requires Agree(m1, m2, at, SkipEnd(m1, at, size, bounded))
    ensures var n := Skip(m1, at, size, bounded);
      n == Skip(m2, at, size, bounded) && (n.Some? ==> Slice(m1, at, n.value) == Slice(m2, at, n.value))
  {
    hide Skip, HeadersEnd, CopyEnd;
    HeadersLocal(m1, m2, at, size, bounded);
    if Skip(m1, at, size, bounded).Some? {
      CopyLocal(m1, m2, at, size, bounded);
    }
  }

  lemma EndpointLocal(m1: Memory, m2: Memory, at: nat, size: int, order: Order)
    requires Agree(m1, m2, at, EndpointEnd(m1, at, size))
    ensures ParseEndpoint(m1, at, size, order) == ParseEndpoint(m2, at, size, order)
  {
    hide Fields, Width, SkipEnd, Skip, Slice, EndpointOf;
    assert m1(at) == m2(at) && m1(at + 1) == m2(at + 1);
    if m1(at) <= size && m1(at + 1) == DT_ENDPOINT {
      SkipLocal(m1, m2, at + m1(at), size - m1(at), false);
      if m1(at) >= ENDPOINT_AUDIO_LENGTH {
        FieldsLocal(m1, m2, at, ENDPOINT_AUDIO_FORMAT, order);
      } else if m1(at) >= ENDPOINT_LENGTH {
        FieldsLocal(m1, m2, at, ENDPOINT_FORMAT, order);
      }
    }
  }

  lemma SameLength(m1: Memory, m2: Memory, at: nat, size: int)
    requires Agree(m1, m2, at, EndpointEnd(m1, at, size))
    ensures m1(at) == m2(at)
  {
  }

  lemma {:induction false} EndpointsLocal(m1: Memory, m2: Memory, at: nat, size: int, count: nat, order: Order)
    requires Agree(m1, m2, at, EndpointsEnd(m1, at, size, count, order))
    ensures ParseEndpoints(m1, at, size, count, order) == ParseEndpoints(m2, at, size, count, order)
    decreases count
  {
    hide ParseEndpoint, EndpointEnd, Agree;
    if count > 0 {
      var first := ParseEndpoint(m1, at, size, order);
      var end := EndpointsEnd(m1, at, size, count, order);
      AgreeInside(m1, m2, at, end, at, EndpointEnd(m1, at, size));
      EndpointLocal(m1, m2, at, size, order);
      SameLength(m1, m2, at, size);
      if first.Ok? {
        AgreeInside(m1, m2, at, end, at + first.used,
                    EndpointsEnd(m1, at + first.used, size - first.used, count - 1, order));
        EndpointsLocal(m1, m2, at + first.used, size - first.used, count - 1, order);
      }
    }
  }

  lemma AltLocal(m1: Memory, m2: Memory, at: nat, size: int, order: Order)
    requires Agree(m1, m2, at, AltEnd(m1, at, size, order))
    ensures ParseAlt(m1, at, size, order) == ParseAlt(m2, at, size, order)
  {
    hide Fields, SkipEnd, EndpointsEnd, Skip, ParseEndpoints, AltSettingOf, Slice;
    EndpointWidths();
    hide Width;
    FieldsLocal(m1, m2, at, INTERFACE_FORMAT, LittleEndian);
    assert m1(at) == m2(at);
    var len := m1(at);
    SkipLocal(m1, m2, at + len, size - len, false);
    var skipped := Skip(m1, at + len, size - len, false);
    if skipped.Some? {
      var next, left := at + len + skipped.value, size - len - skipped.value;
      var count := AltSettingOf(InterfaceFields(m1, at)).bNumEndpoints;
      if !StopsInterface(m1, next, left) && count <= MAX_ENDPOINTS {
        EndpointsLocal(m1, m2, next, left, count, order);
      }
    }
  }

  lemma FollowsLocal(m1: Memory, m2: Memory, at: nat, size: int)
    requires Agree(m1, m2, at, FollowsEnd(m1, at, size))
    ensures AlternateFollows(m1, at, size) == AlternateFollows(m2, at, size)
  {
  }

  lemma {:induction false} InterfaceLocal(m1: Memory, m2: Memory, at: nat, size: int, order: Order)
    requires Agree(m1, m2, at, InterfaceEnd(m1, at, size, order))
    ensures ParseInterface(m1, at, size, order) == ParseInterface(m2, at, size, order)
    decreases if size < 0 then 0 else size
  {
    hide ParseAlt, AltEnd, Agree, AlternateFollows, FollowsEnd;
    if size >= INTERFACE_LENGTH {
      var first, end := ParseAlt(m1, at, size, order), InterfaceEnd(m1, at, size, order);
      AgreeInside(m1, m2, at, end, at, AltEnd(m1, at, size, order));
      AltLocal(m1, m2, at, size, order);
      if first.Ok? && !first.value.1 {
        AltUsesBytes(m1, at, size, order);
        var next, left := at + first.used, size - first.used;
        AgreeInside(m1, m2, at, end, next, FollowsEnd(m1, next, left));
        FollowsLocal(m1, m2, next, left);
        if AlternateFollows(m1, next, left) {
          AgreeInside(m1, m2, at, end, next, InterfaceEnd(m1, next, left, order));
          InterfaceLocal(m1, m2, next, left, order);
        }
      }
    }
  }

  lemma {:induction false} InterfacesLocal(m1: Memory, m2: Memory, at: nat, size: int, count: nat, extra: seq<Byte>,
                                           order: Order)
    requires Agree(m1, m2, at, InterfacesEnd(m1, at, size, count, extra, order))
    ensures ParseInterfaces(m1, at, size, count, extra, order) == ParseInterfaces(m2, at, size, count, extra, order)
    decreases count
  {
    hide Skip, HeadersEnd, CopyEnd, ParseInterface, InterfaceEnd, Slice, Agree;
    if count > 0 {
      var end := InterfacesEnd(m1, at, size, count, extra, order);
      AgreeInside(m1, m2, at, end, at, HeadersEnd(m1, at, size, true));
      HeadersLocal(m1, m2, at, size, true);
      var skipped := Skip(m1, at, size, true);
      if skipped.Some? {
        if extra == [] {
          AgreeInside(m1, m2, at, end, at, CopyEnd(m1, at, size, true));
          CopyLocal(m1, m2, at, size, true);
        }
        var next, left := at + skipped.value, size - skipped.value;
        var kept := if extra == [] then Slice(m1, at, skipped.value) else extra;
        AgreeInside(m1, m2, at, end, next, InterfaceEnd(m1, next, left, order));
        InterfaceLocal(m1, m2, next, left, order);
        var first := ParseInterface(m1, next, left, order);
        if first.Ok? {
          AgreeInside(m1, m2, at, end, next + first.used,
                      InterfacesEnd(m1, next + first.used, left - first.used, count - 1, kept, order));
          InterfacesLocal(m1, m2, next + first.used, left - first.used, count - 1, kept, order);
        }
      }
    }
  }

  /** The parse depends on no byte beyond where reading ends, whether it succeeds or not. */
  lemma {:induction false} ConfigLocal(m1: Memory, m2: Memory, at: nat, order: Order)
    requires Agree(m1, m2, at, ConfigEnd(m1, at, order))
    ensures ParseConfiguration(m1, at, order) == ParseConfiguration(m2, at, order)
  {
    hide Fields, InterfacesEnd, ParseInterfaces, ConfigOf;
    EndpointWidths();
    hide Width;
    FieldsLocal(m1, m2, at, CONFIG_FORMAT, order);
    assert m1(at) == m2(at);
    var c := ConfigOf(ConfigFields(m1, at, order));
    if c.bNumInterfaces <= MAX_INTERFACES {
      InterfacesLocal(m1, m2, at + m1(at), c.wTotalLength - m1(at), c.bNumInterfaces, [], order);
    }
  }

  // ----- exactly when it stays inside -----

  /** Headers are looked at inside; what is copied is inside if the descriptors passed over are. */
  lemma {:induction false} HeadersInside(mem: Memory, at: nat, size: int, bounded: bool)
    requires at + size >= 0
    ensures HeadersEnd(mem, at, size, bounded) <= at + size
    ensures Skip(mem, at, size, false).None? ==> SkipWithin(mem, at, size)
    decreases if size < 0 then 0 else size
  {
    if size >= HEADER_LENGTH && mem(at) >= 2 {
      assert mem(at) > size ==> Skip(mem, at + mem(at), size - mem(at), false) == Some(0);
      HeadersInside(mem, at + mem(at), size - mem(at), bounded);
    }
  }

  lemma SkipReads(mem: Memory, at: nat, size: int)
    requires at + size >= 0
    ensures SkipEnd(mem, at, size, false) <= at + size <==> SkipWithin(mem, at, size)
  {
    HeadersInside(mem, at, size, false);
    if size >= 0 {
      hide Skip, HeadersEnd, SkipWithin;
      if Skip(mem, at, size, false).Some? {
        SkipInside(mem, at, size);
        if Skip(mem, at, size, false).value == 0 {
          NothingSkipped(mem, at, size);
        }
      }
    }
  }

  lemma NothingSkipped(mem: Memory, at: nat, size: int)
    requires Skip(mem, at, size, false) == Some(0)
    ensures SkipWithin(mem, at, size)
  {
  }

  /** The test that the endpoint loop lacks: there is room for the header it reads. */
  predicate EndpointReads(mem: Memory, at: nat, size: int) {
    size >= HEADER_LENGTH
    && (mem(at) <= size && mem(at + 1) == DT_ENDPOINT ==> SkipWithin(mem, at + mem(at), size - mem(at)))
  }

  lemma EndpointReadsInside(mem: Memory, at: nat, size: int)
    requires at + size >= 0
    ensures EndpointEnd(mem, at, size) <= at + size <==> EndpointReads(mem, at, size)
  {
    EndpointWidths();
    hide Width, SkipWithin, SkipEnd;
    SkipReads(mem, at + mem(at), size - mem(at));
  }

  predicate EndpointsReads(mem: Memory, at: nat, size: int, count: nat, order: Order)
    decreases count
  {
    var first := ParseEndpoint(mem, at, size, order);
    count > 0 ==>
      && EndpointReads(mem, at, size)
      && (first.Ok? ==> EndpointsReads(mem, at + first.used, size - first.used, count - 1, order))
  }

  lemma {:induction false} EndpointsReadsInside(mem: Memory, at: nat, size: int, count: nat, order: Order)
    requires at + size >= 0
    ensures EndpointsEnd(mem, at, size, count, order) <= at + size <==> EndpointsReads(mem, at, size, count, order)
    decreases count
  {
    hide ParseEndpoint, EndpointEnd, EndpointReads;
    if count > 0 {
      var first := ParseEndpoint(mem, at, size, order);
      EndpointReadsInside(mem, at, size);
      if first.Ok? {
        EndpointsReadsInside(mem, at + first.used, size - first.used, count - 1, order);
      }
    }
  }

  predicate AltReads(mem: Memory, at: nat, size: int, order: Order) {
    var len := mem(at);
    var skipped := Skip(mem, at + len, size - len, false);
    SkipWithin(mem, at + len, size - len)
    && (skipped.Some? ==>
      var next, left := at + len + skipped.value, size - len - skipped.value;
      var count := AltSettingOf(InterfaceFields(mem, at)).bNumEndpoints;
      StopsInterface(mem, next, left) || count > MAX_ENDPOINTS || EndpointsReads(mem, next, left, count, order))
  }

  lemma AltReadsInside(mem: Memory, at: nat, size: int, order: Order)
    requires size >= INTERFACE_LENGTH
    ensures AltEnd(mem, at, size, order) <= at + size <==> AltReads(mem, at, size, order)
  {
    EndpointWidths();
    hide Width, SkipWithin, SkipEnd, Skip, EndpointsEnd, EndpointsReads, InterfaceFields, AltSettingOf;
    var len := mem(at);
    SkipReads(mem, at + len, size - len);
    var skipped := Skip(mem, at + len, size - len, false);
    if skipped.Some? {
      var count := AltSettingOf(InterfaceFields(mem, at)).bNumEndpoints;
      EndpointsReadsInside(mem, at + len + skipped.value, size - len - skipped.value, count, order);
    }
  }

  predicate InterfaceReads(mem: Memory, at: nat, size: int, order: Order)
    decreases if size < 0 then 0 else size
  {
    var first := ParseAlt(mem, at, size, order);
    size >= INTERFACE_LENGTH ==>
      && AltReads(mem, at, size, order)
      && (first.Ok? && !first.value.1 ==>
            (AltUsesBytes(mem, at, size, order);
             AlternateFollows(mem, at + first.used, size - first.used) ==>
               InterfaceReads(mem, at + first.used, size - first.used, order)))
  }

  lemma {:induction false} InterfaceReadsInside(mem: Memory, at: nat, size: int, order: Order)
    requires at + size >= 0
    ensures InterfaceEnd(mem, at, size, order) <= at + size <==> InterfaceReads(mem, at, size, order)
    decreases if size < 0 then 0 else size
  {
    hide ParseAlt, AltEnd, AltReads, AlternateFollows;
    if size >= INTERFACE_LENGTH {
      var first := ParseAlt(mem, at, size, order);
      AltReadsInside(mem, at, size, order);
      if first.Ok? && !first.value.1 {
        AltUsesBytes(mem, at, size, order);
        if AlternateFollows(mem, at + first.used, size - first.used) {
          InterfaceReadsInside(mem, at + first.used, size - first.used, order);
        }
      }
    }
  }

  predicate InterfacesReads(mem: Memory, at: nat, size: int, count: nat, order: Order)
    decreases count
  {
    var skipped := Skip(mem, at, size, true);
    count > 0 && skipped.Some? ==>
      var next, left := at + skipped.value, size - skipped.value;
      var first := ParseInterface(mem, next, left, order);
      && InterfaceReads(mem, next, left, order)
      && (first.Ok? ==> InterfacesReads(mem, next + first.used, left - first.used, count - 1, order))
  }

  lemma BoundedCopyInside(mem: Memory, at: nat, size: int)
    requires at + size >= 0
    ensures CopyEnd(mem, at, size, true) <= at + size
  {
    if size >= 0 && Skip(mem, at, size, true).Some? {
      BoundedSkipInside(mem, at, size);
    }
  }

  lemma {:induction false} InterfacesReadsInside(mem: Memory, at: nat, size: int, count: nat, extra: seq<Byte>,
                                                 order: Order)
    requires at + size >= 0
    ensures InterfacesEnd(mem, at, size, count, extra, order) <= at + size
       <==> InterfacesReads(mem, at, size, count, order)
    decreases count
  {
    hide Skip, HeadersEnd, CopyEnd, ParseInterface, InterfaceEnd, InterfaceReads, Slice;
    if count > 0 {
      HeadersInside(mem, at, size, true);
      BoundedCopyInside(mem, at, size);
      var skipped := Skip(mem, at, size, true);
      if skipped.Some? {
        var next, left := at + skipped.value, size - skipped.value;
        var kept := if extra == [] then Slice(mem, at, skipped.value) else extra;
        var first := ParseInterface(mem, next, left, order);
        InterfaceReadsInside(mem, next, left, order);
        if first.Ok? {
          InterfacesReadsInside(mem, next + first.used, left - first.used, count - 1, kept, order);
        }
      }
    }
  }

  /** The tests that would keep every read of the parser inside `wTotalLength`, up to an error if there is one. */
  predicate ConfigReads(mem: Memory, at: nat, order: Order) {
    var c := ConfigOf(ConfigFields(mem, at, order));
    CONFIG_LENGTH <= c.wTotalLength
    && (c.bNumInterfaces <= MAX_INTERFACES ==>
          InterfacesReads(mem, at + mem(at), c.wTotalLength - mem(at), c.bNumInterfaces, order))
  }

  /** Reading ends inside the buffer exactly when these tests hold, whether the parse succeeds or not. */
  lemma {:induction false} ReadsInside(mem: Memory, at: nat, order: Order)
    ensures ConfigEnd(mem, at, order) <= at + ConfigOf(ConfigFields(mem, at, order)).wTotalLength
       <==> ConfigReads(mem, at, order)
  {
    hide ConfigFields, ConfigOf, InterfacesEnd, InterfacesReads;
    EndpointWidths();
    hide Width;
    var c := ConfigOf(ConfigFields(mem, at, order));
    InterfacesReadsInside(mem, at + mem(at), c.wTotalLength - mem(at), c.bNumInterfaces, [], order);
  }

  /** Then the bytes of the buffer alone determine the parse. */
  lemma {:induction false} BufferDetermines(m1: Memory, m2: Memory, at: nat, order: Order)
    requires ConfigReads(m1, at, order)
    requires Agree(m1, m2, at, at + ConfigOf(ConfigFields(m1, at, order)).wTotalLength)
    ensures ParseConfiguration(m1, at, order) == ParseConfiguration(m2, at, order)
  {
    hide ConfigFields, ConfigOf, ConfigEnd, ConfigReads, ParseConfiguration;
    ReadsInside(m1, at, order);
    ConfigLocal(m1, m2, at, order);
  }

  // ----- bytes that are cut into descriptors -----

  lemma WholeSkipEnd(mem: Memory, at: nat, size: nat)
    requires Whole(mem, at, size)
    ensures SkipEnd(mem, at, size, false) <= at + size
  {
    HeadersInside(mem, at, size, false);
    SkipReads(mem, at, size);
    if Skip(mem, at, size, false).Some? {
      WholeSkip(mem, at, size, false);
    }
  }

  lemma {:induction false} WholeEndpointsEnd(mem: Memory, at: nat, size: nat, count: nat, order: Order)
    requires Whole(mem, at, size)
    ensures EndpointsEnd(mem, at, size, count, order) <= at + size + 2
    decreases count
  {
    hide ParseEndpoint, EndpointEnd, Whole;
    if count > 0 {
      var first := ParseEndpoint(mem, at, size, order);
      WholeEndpointEnd(mem, at, size);
      if first.Ok? {
        WholeEndpoint(mem, at, size, order);
        WholeEndpointsEnd(mem, at + first.used, size - first.used, count - 1, order);
      }
    }
  }

  lemma WholeEndpointEnd(mem: Memory, at: nat, size: nat)
    requires Whole(mem, at, size)
    ensures EndpointEnd(mem, at, size) <= at + size + 2
  {
    EndpointWidths();
    hide Width, SkipEnd;
    if mem(at) <= size && mem(at + 1) == DT_ENDPOINT {
      assert mem(at) == 0 ==> at + mem(at) == at && size - mem(at) == size;
      WholeSkipEnd(mem, at + mem(at), size - mem(at));
    }
  }

  lemma WholeAltEnd(mem: Memory, at: nat, size: nat, order: Order)
    requires Whole(mem, at, size) && size >= INTERFACE_LENGTH
    ensures AltEnd(mem, at, size, order) <= at + size + 2
  {
    EndpointWidths();
    hide Width, SkipEnd, Skip, EndpointsEnd, InterfaceFields, AltSettingOf;
    var len := mem(at);
    WholeSkipEnd(mem, at + len, size - len);
    var skipped := Skip(mem, at + len, size - len, false);
    if skipped.Some? {
      WholeSkip(mem, at + len, size - len, false);
      var count := AltSettingOf(InterfaceFields(mem, at)).bNumEndpoints;
      WholeEndpointsEnd(mem, at + len + skipped.value, size - len - skipped.value, count, order);
    }
  }

  lemma {:induction false} WholeInterfaceEnd(mem: Memory, at: nat, size: nat, order: Order)
    requires Whole(mem, at, size)
    ensures InterfaceEnd(mem, at, size, order) <= at + size + 2
    decreases size
  {
    hide ParseAlt, AltEnd, AlternateFollows, Whole;
    if size >= INTERFACE_LENGTH {
      var first := ParseAlt(mem, at, size, order);
      WholeAltEnd(mem, at, size, order);
      if first.Ok? && !first.value.1 {
        AltUsesBytes(mem, at, size, order);
        WholeAlt(mem, at, size, order);
        if AlternateFollows(mem, at + first.used, size - first.used) {
          WholeInterfaceEnd(mem, at + first.used, size - first.used, order);
        }
      }
    }
  }

  lemma {:induction false} WholeInterfacesEnd(mem: Memory, at: nat, size: nat, count: nat, extra: seq<Byte>,
                                              order: Order)
    requires Whole(mem, at, size)
    ensures InterfacesEnd(mem, at, size, count, extra, order) <= at + size + 2
    decreases count
  {
    hide Skip, HeadersEnd, CopyEnd, ParseInterface, InterfaceEnd, Slice, Whole, SkipWithin;
    if count > 0 {
      HeadersInside(mem, at, size, true);
      BoundedCopyInside(mem, at, size);
      var skipped := Skip(mem, at, size, true);
      if skipped.Some? {
        WholeSkip(mem, at, size, true);
        var next, left: nat := at + skipped.value, size - skipped.value;
        var kept := if extra == [] then Slice(mem, at, skipped.value) else extra;
        WholeInterfaceEnd(mem, next, left, order);
        if ParseInterface(mem, next, left, order).Ok? {
          WholeInterface(mem, next, left, order);
          var used: nat := ParseInterface(mem, next, left, order).used;
          WholeInterfacesEnd(mem, next + used, left - used, count - 1, kept, order);
        }
      }
    }
  }

  /** At most the header of a missing endpoint is read beyond them. */
  lemma {:induction false} WholeConfigEnd(mem: Memory, at: nat, order: Order)
    requires var n := ConfigOf(ConfigFields(mem, at, order)).wTotalLength; n >= CONFIG_LENGTH && Whole(mem, at, n)
    ensures ConfigEnd(mem, at, order) <= at + ConfigOf(ConfigFields(mem, at, order)).wTotalLength + 2
  {
    hide ConfigFields, ConfigOf, InterfacesEnd;
    EndpointWidths();
    hide Width;
    var c := ConfigOf(ConfigFields(mem, at, order));
    WholeInterfacesEnd(mem, at + mem(at), c.wTotalLength - mem(at), c.bNumInterfaces, [], order);
  }

  // ----- an input -----

  /** 18 bytes: a configuration, and an interface that announces one endpoint. */
  predicate MissingEndpoint(mem: Memory, at: nat) {
    && mem(at) == 9 && mem(at + 2) == 18 && mem(at + 3) == 0 && mem(at + 4) == 1
    && mem(at + 9) == 9 && mem(at + 10) == DT_INTERFACE && mem(at + 13) == 1
  }

  lemma MissingEndpoints(mem: Memory, at: nat, size: int, count: nat, order: Order)
    requires size == 0 && count == 1
    ensures mem(at) > 0 ==> ParseEndpoints(mem, at, size, count, order) == Err(ERROR_IO)
    ensures mem(at) == 0 && mem(at + 1) != DT_ENDPOINT ==>
      ParseEndpoints(mem, at, size, count, order) == Ok([ZERO_ENDPOINT], 0)
      && EndpointsWithin(mem, at, size, count, order)
    ensures !EndpointsReads(mem, at, size, count, order)
  {
    if mem(at) == 0 && mem(at + 1) != DT_ENDPOINT {
      assert ParseEndpoint(mem, at, size, order) == Ok(ZERO_ENDPOINT, 0);
      assert at + 0 == at && size - 0 == size;
      assert ParseEndpoints(mem, at, size, count - 1, order) == Ok([], 0);
      assert EndpointsWithin(mem, at, size, count - 1, order);
      hide ParseEndpoint;
      assert [ZERO_ENDPOINT] + [] == [ZERO_ENDPOINT];
    }
  }

  lemma MissingAlt(mem: Memory, at: nat, size: int, order: Order)
    requires size == 9 && mem(at) == 9 && mem(at + 4) == 1
    ensures var r := ParseAlt(mem, at, size, order);
      && (mem(at + 9) > 0 ==> r.Err?)
      && (mem(at + 9) == 0 && mem(at + 10) != DT_ENDPOINT ==>
            r.Ok? && r.used == 9 && !r.value.1 && AltWithin(mem, at, size, order))
    ensures !AltReads(mem, at, size, order)
  {
    EndpointCount(mem, at);
    hide AltSettingOf, InterfaceFields, Slice, ParseEndpoints, EndpointsReads, EndpointsWithin;
    assert Skip(mem, at + 9, size - 9, false) == Some(0) && SkipWithin(mem, at + 9, size - 9);
    assert !StopsInterface(mem, at + 9, size - 9);
    MissingEndpoints(mem, at + 9, size - 9, mem(at + 4), order);
  }

  lemma MissingInterface(mem: Memory, at: nat, size: int, order: Order)
    requires size == 9 && mem(at) == 9 && mem(at + 4) == 1
    ensures var r := ParseInterface(mem, at, size, order);
      && (mem(at + 9) > 0 ==> r.Err?)
      && (mem(at + 9) == 0 && mem(at + 10) != DT_ENDPOINT ==>
            r.Ok? && r.used == 9 && InterfaceWithin(mem, at, size, order))
    ensures !InterfaceReads(mem, at, size, order)
  {
    hide ParseAlt, AltReads, AltWithin;
    MissingAlt(mem, at, size, order);
  }

  lemma MissingInterfaces(mem: Memory, at: nat, size: int, count: nat, order: Order)
    requires size == 9 && count == 1 && mem(at) == 9 && mem(at + 1) == DT_INTERFACE && mem(at + 4) == 1
    ensures var r := ParseInterfaces(mem, at, size, count, [], order);
      && (mem(at + 9) > 0 ==> r.Err?)
      && (mem(at + 9) == 0 && mem(at + 10) != DT_ENDPOINT ==>
            r.Ok? && r.used == 9 && InterfacesWithin(mem, at, size, count, order))
    ensures !InterfacesReads(mem, at, size, count, order)
  {
    hide ParseInterface, InterfaceReads, InterfaceWithin, Slice;
    assert Skip(mem, at, size, true) == Some(0);
    assert at + 0 == at && size - 0 == size;
    MissingInterface(mem, at, size, order);
    if mem(at + 9) == 0 && mem(at + 10) != DT_ENDPOINT {
      var kept := Slice(mem, at, 0);
      assert ParseInterfaces(mem, at + 9, size - 9, count - 1, kept, order) == Ok(([], kept), 0);
      assert InterfacesWithin(mem, at + 9, size - 9, count - 1, order);
    }
  }

  /**
   * They are cut into descriptors and the pointer stays inside, yet the parser reads on: with 0, 0
   * behind them they are a configuration, with anything but 0 first they are an error.
   */
  lemma {:induction false} MissingEndpointInput(mem: Memory, at: nat)
    requires MissingEndpoint(mem, at)
    ensures Whole(mem, at, 18) && !ConfigReads(mem, at, LittleEndian)
    ensures var r := ParseConfiguration(mem, at, LittleEndian);
      && (mem(at + 18) > 0 ==> r.Err?)
      && (mem(at + 18) == 0 && mem(at + 19) != DT_ENDPOINT ==>
            r.Ok? && Leftover(r) == 0 && ConfigWithin(mem, at, LittleEndian))
  {
    hide ConfigOf, ConfigFields, ParseInterfaces, InterfacesReads, InterfacesWithin;
    ConfigHead(mem, at, LittleEndian);
    MissingInterfaces(mem, at + 9, 9, 1, LittleEndian);
  }
}
