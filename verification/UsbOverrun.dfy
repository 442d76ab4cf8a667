/**
 * How far the descriptor parser can move its pointer past its buffer, and exactly when a successful
 * parse does. What it reads on the way is the subject of `UsbReads`.
 */
module UsbOverrun {
  import opened Options
  import opened Bytes
  import opened UsbDescriptor
  import opened UsbSerializer

  // ----- how far -----

  function Min(a: int, b: int): int {
    if a < b then a else b
  }

  /** The loop may run past its buffer, but only by part of one descriptor. */
  lemma {:induction false} SkipOverrun(mem: Memory, at: nat, size: int, bounded: bool)
    requires Skip(mem, at, size, bounded).Some?
    ensures size - Skip(mem, at, size, bounded).value >= Min(size, -253)
    decreases if size < 0 then 0 else size
  {
    if Skip(mem, at, size, bounded).value > 0 {
      SkipOverrun(mem, at + mem(at), size - mem(at), bounded);
    }
  }

  lemma {:induction false} EndpointsOverrun(mem: Memory, at: nat, size: int, count: nat, order: Order)
    requires ParseEndpoints(mem, at, size, count, order).Ok?
    ensures size - ParseEndpoints(mem, at, size, count, order).used >= Min(size, -253)
    decreases count
  {
    hide Skip, EndpointFields;
    if count > 0 {
      var first := ParseEndpoint(mem, at, size, order);
      if first.used > 0 {
        SkipOverrun(mem, at + mem(at), size - mem(at), false);
      }
      EndpointsOverrun(mem, at + first.used, size - first.used, count - 1, order);
    }
  }

  lemma {:induction false} InterfaceOverrun(mem: Memory, at: nat, size: int, order: Order)
    requires ParseInterface(mem, at, size, order).Ok?
    ensures size - ParseInterface(mem, at, size, order).used >= Min(size, -253)
    decreases if size < 0 then 0 else size
  {
    hide Skip, ParseEndpoints, InterfaceFields, AltSettingOf;
    if size >= INTERFACE_LENGTH {
      var first := ParseAlt(mem, at, size, order);
      SkipOverrun(mem, at + mem(at), size - mem(at), false);
      var used := mem(at) + Skip(mem, at + mem(at), size - mem(at), false).value;
      if !first.value.1 {
        EndpointsOverrun(mem, at + used, size - used, AltSettingOf(InterfaceFields(mem, at)).bNumEndpoints, order);
      }
      AltUsesBytes(mem, at, size, order);
      if !first.value.1 && AlternateFollows(mem, at + first.used, size - first.used) {
        InterfaceOverrun(mem, at + first.used, size - first.used, order);
      }
    }
  }

  lemma {:induction false} InterfacesOverrun(mem: Memory, at: nat, size: int, count: nat, extra: seq<Byte>,
                                             order: Order)
    requires ParseInterfaces(mem, at, size, count, extra, order).Ok?
    ensures size - ParseInterfaces(mem, at, size, count, extra, order).used >= Min(size, -253)
    decreases count
  {
    hide Skip, ParseInterface;
    if count > 0 {
      var n := Skip(mem, at, size, true).value;
      SkipOverrun(mem, at, size, true);
      InterfaceOverrun(mem, at + n, size - n, order);
      var used := n + ParseInterface(mem, at + n, size - n, order).used;
      InterfacesOverrun(mem, at + used, size - used, count - 1,
                        if extra == [] then Slice(mem, at, n) else extra, order);
    }
  }

  /**
   * On arbitrary bytes: a parse that succeeds accounts for `wTotalLength` up to an overrun of
   * less than one descriptor.
   */
  lemma {:induction false} ConfigOverrun(mem: Memory, at: nat, order: Order)
    ensures var r := ParseConfiguration(mem, at, order);
      r.Ok? ==> Leftover(r) >= -255 && (r.value.bLength <= r.value.wTotalLength ==> Leftover(r) >= -253)
  {
    hide ParseInterfaces, ConfigOf, ConfigFields;
    var c := ConfigOf(ConfigFields(mem, at, order));
    ConfigLengthIs(mem, at, order);
    if ParseConfiguration(mem, at, order).Ok? {
      InterfacesOverrun(mem, at + mem(at), c.wTotalLength - mem(at), c.bNumInterfaces, [], order);
    }
  }

  lemma ConfigLengthIs(mem: Memory, at: nat, order: Order)
    ensures ConfigOf(ConfigFields(mem, at, order)).bLength == mem(at)
  {
    hide Fields;
    FieldsStart(mem, at, CONFIG_FORMAT, order);
  }

  // ----- exactly when -----

  /** The test that two of the three loops lack: a descriptor passed over fits in what is left. */
  predicate SkipWithin(mem: Memory, at: nat, size: int)
    decreases if size < 0 then 0 else size
  {
    size >= HEADER_LENGTH && mem(at) >= 2 && !Proper(mem(at + 1)) ==>
      mem(at) <= size && SkipWithin(mem, at + mem(at), size - mem(at))
  }

  lemma {:induction false} SkipInside(mem: Memory, at: nat, size: nat)
    requires Skip(mem, at, size, false).Some?
    ensures Skip(mem, at, size, false).value <= size <==> SkipWithin(mem, at, size)
    decreases size
  {
    if Skip(mem, at, size, false).value > 0 && mem(at) <= size {
      SkipInside(mem, at + mem(at), size - mem(at));
    }
  }

  /** The configuration's own loop has the test, and stays inside. */
  lemma {:induction false} BoundedSkipInside(mem: Memory, at: nat, size: nat)
    requires Skip(mem, at, size, true).Some?
    ensures Skip(mem, at, size, true).value <= size
    decreases size
  {
    if Skip(mem, at, size, true).value > 0 {
      BoundedSkipInside(mem, at + mem(at), size - mem(at));
    }
  }

  predicate EndpointWithin(mem: Memory, at: nat, size: int) {
    mem(at + 1) == DT_ENDPOINT ==> SkipWithin(mem, at + mem(at), size - mem(at))
  }

  lemma {:induction false} EndpointInside(mem: Memory, at: nat, size: nat, order: Order)
    ensures var r := ParseEndpoint(mem, at, size, order);
      r.Ok? ==> (r.used <= size <==> EndpointWithin(mem, at, size))
  {
    hide Skip, SkipWithin, EndpointFields;
    if ParseEndpoint(mem, at, size, order).Ok? && mem(at + 1) == DT_ENDPOINT {
      SkipInside(mem, at + mem(at), size - mem(at));
    }
  }

  predicate EndpointsWithin(mem: Memory, at: nat, size: int, count: nat, order: Order)
    decreases count
  {
    var first := ParseEndpoint(mem, at, size, order);
    count > 0 && first.Ok? ==>
      EndpointWithin(mem, at, size) && EndpointsWithin(mem, at + first.used, size - first.used, count - 1, order)
  }

  lemma {:induction false} EndpointsInside(mem: Memory, at: nat, size: nat, count: nat, order: Order)
    ensures var r := ParseEndpoints(mem, at, size, count, order);
      r.Ok? ==> (r.used <= size <==> EndpointsWithin(mem, at, size, count, order))
    decreases count
  {
    hide ParseEndpoint, EndpointWithin;
    if count > 0 {
      var first := ParseEndpoint(mem, at, size, order);
      EndpointInside(mem, at, size, order);
      if first.Ok? && first.used <= size {
        EndpointsInside(mem, at + first.used, size - first.used, count - 1, order);
      }
    }
  }

  /** An alternate setting: its own descriptor, which is not tested either, its extra bytes, its endpoints. */
  predicate AltWithin(mem: Memory, at: nat, size: int, order: Order) {
    var len := mem(at);
    var skipped := Skip(mem, at + len, size - len, false);
    len <= size && skipped.Some? && SkipWithin(mem, at + len, size - len)
    && var used := len + skipped.value;
       StopsInterface(mem, at + used, size - used)
       || EndpointsWithin(mem, at + used, size - used, AltSettingOf(InterfaceFields(mem, at)).bNumEndpoints, order)
  }

  lemma {:induction false} AltInside(mem: Memory, at: nat, size: nat, order: Order)
    ensures var r := ParseAlt(mem, at, size, order);
      r.Ok? ==> (r.used <= size <==> AltWithin(mem, at, size, order))
  {
    hide Skip, SkipWithin, ParseEndpoints, EndpointsWithin, InterfaceFields, AltSettingOf;
    var len := mem(at);
    var skipped := Skip(mem, at + len, size - len, false);
    if ParseAlt(mem, at, size, order).Ok? && len <= size {
      SkipInside(mem, at + len, size - len);
      var used := len + skipped.value;
      if used <= size {
        EndpointsInside(mem, at + used, size - used, AltSettingOf(InterfaceFields(mem, at)).bNumEndpoints, order);
      }
    }
  }

  predicate InterfaceWithin(mem: Memory, at: nat, size: int, order: Order)
    decreases if size < 0 then 0 else size
  {
    var first := ParseAlt(mem, at, size, order);
    size >= INTERFACE_LENGTH && first.Ok? ==>
      && AltWithin(mem, at, size, order)
      && (AltUsesBytes(mem, at, size, order);
          !first.value.1 && AlternateFollows(mem, at + first.used, size - first.used) ==>
            InterfaceWithin(mem, at + first.used, size - first.used, order))
  }

  lemma InterfaceWithinStep(mem: Memory, at: nat, size: int, order: Order)
    ensures size < INTERFACE_LENGTH ==> InterfaceWithin(mem, at, size, order)
    ensures size >= INTERFACE_LENGTH && ParseAlt(mem, at, size, order).Ok? ==>
      var first := ParseAlt(mem, at, size, order); var next, left := at + first.used, size - first.used;
      (InterfaceWithin(mem, at, size, order)
       <==> AltWithin(mem, at, size, order)
            && (!first.value.1 && AlternateFollows(mem, next, left) ==> InterfaceWithin(mem, next, left, order)))
  {
    hide ParseAlt, AltWithin, AlternateFollows;
  }

  lemma NoAlternate(mem: Memory, at: nat, size: int)
    requires size < 0
    ensures !AlternateFollows(mem, at, size)
  {
  }

  lemma {:induction false} InterfaceInside(mem: Memory, at: nat, size: nat, order: Order)
    ensures var r := ParseInterface(mem, at, size, order);
      r.Ok? ==> (r.used <= size <==> InterfaceWithin(mem, at, size, order))
    decreases size
  {
    hide ParseAlt, AltWithin, AlternateFollows, InterfaceWithin;
    InterfaceWithinStep(mem, at, size, order);
    if size >= INTERFACE_LENGTH {
      var first := ParseAlt(mem, at, size, order);
      AltInside(mem, at, size, order);
      if first.Ok? {
        AltUsesBytes(mem, at, size, order);
        if first.used <= size {
          if !first.value.1 && AlternateFollows(mem, at + first.used, size - first.used) {
            InterfaceInside(mem, at + first.used, size - first.used, order);
          }
        } else {
          NoAlternate(mem, at + first.used, size - first.used);
        }
      }
    }
  }

  predicate InterfacesWithin(mem: Memory, at: nat, size: int, count: nat, order: Order)
    decreases count
  {
    var skipped := Skip(mem, at, size, true);
    count > 0 && skipped.Some? ==>
      var next, left := at + skipped.value, size - skipped.value;
      var first := ParseInterface(mem, next, left, order);
      first.Ok? ==>
        InterfaceWithin(mem, next, left, order)
        && InterfacesWithin(mem, next + first.used, left - first.used, count - 1, order)
  }

  /** Once nothing is left, nothing more is read. */
  lemma {:induction false} NothingMore(mem: Memory, at: nat, size: int, count: nat, extra: seq<Byte>, order: Order)
    requires size < 0
    ensures ParseInterfaces(mem, at, size, count, extra, order).Ok?
    ensures ParseInterfaces(mem, at, size, count, extra, order).used == 0
    decreases count
  {
    if count > 0 {
      NothingMore(mem, at, size, count - 1, if extra == [] then Slice(mem, at, 0) else extra, order);
    }
  }

  lemma {:induction false} InterfacesInside(mem: Memory, at: nat, size: nat, count: nat, extra: seq<Byte>, order: Order)
    ensures var r := ParseInterfaces(mem, at, size, count, extra, order);
      r.Ok? ==> (r.used <= size <==> InterfacesWithin(mem, at, size, count, order))
    decreases count
  {
    hide Skip, ParseInterface, InterfaceWithin;
    var skipped := Skip(mem, at, size, true);
    if count > 0 && skipped.Some? {
      BoundedSkipInside(mem, at, size);
      var next, left := at + skipped.value, size - skipped.value;
      var kept := if extra == [] then Slice(mem, at, skipped.value) else extra;
      var first := ParseInterface(mem, next, left, order);
      InterfaceInside(mem, next, left, order);
      if first.Ok? {
        if first.used <= left {
          InterfacesInside(mem, next + first.used, left - first.used, count - 1, kept, order);
        } else {
          NothingMore(mem, next + first.used, left - first.used, count - 1, kept, order);
        }
      }
    }
  }

  predicate ConfigWithin(mem: Memory, at: nat, order: Order) {
    var c := ConfigOf(ConfigFields(mem, at, order));
    mem(at) <= c.wTotalLength
    && InterfacesWithin(mem, at + mem(at), c.wTotalLength - mem(at), c.bNumInterfaces, order)
  }

  /**
   * The pointer of a successful parse ends inside `wTotalLength` exactly when every descriptor it
   * moves past fits in what is left there. This is about where the pointer goes, not about what is read.
   */
  lemma {:induction false} ConfigInside(mem: Memory, at: nat, order: Order)
    ensures var r := ParseConfiguration(mem, at, order);
      r.Ok? ==> (Leftover(r) >= 0 <==> ConfigWithin(mem, at, order))
  {
    hide ParseInterfaces, InterfacesWithin, ConfigOf, ConfigFields;
    var c := ConfigOf(ConfigFields(mem, at, order));
    var size := c.wTotalLength - mem(at);
    ConfigLengthIs(mem, at, order);
    if size >= 0 {
      InterfacesInside(mem, at + mem(at), size, c.bNumInterfaces, [], order);
    } else {
      NothingMore(mem, at + mem(at), size, c.bNumInterfaces, [], order);
    }
  }

  // ----- a test on the bytes alone -----

  /** The bytes are cut into descriptors, the last of which ends where they end. */
  predicate Whole(mem: Memory, at: nat, size: int)
    decreases if size < 0 then 0 else size
  {
    size == 0 || (0 < mem(at) <= size && Whole(mem, at + mem(at), size - mem(at)))
  }

  lemma {:induction false} WholeSkip(mem: Memory, at: nat, size: nat, bounded: bool)
    requires Whole(mem, at, size) && Skip(mem, at, size, bounded).Some?
    ensures var n := Skip(mem, at, size, bounded).value;
      n <= size && Whole(mem, at + n, size - n) && SkipWithin(mem, at, size)
    decreases size
  {
    if Skip(mem, at, size, bounded).value > 0 {
      WholeSkip(mem, at + mem(at), size - mem(at), bounded);
    }
  }

  lemma WholeEndpoint(mem: Memory, at: nat, size: nat, order: Order)
    requires Whole(mem, at, size) && ParseEndpoint(mem, at, size, order).Ok?
    ensures var n := ParseEndpoint(mem, at, size, order).used; n <= size && Whole(mem, at + n, size - n)
  {
    hide EndpointFields, Skip;
    if mem(at + 1) == DT_ENDPOINT {
      assert mem(at) == 0 ==> Whole(mem, at + mem(at), size - mem(at));
      WholeSkip(mem, at + mem(at), size - mem(at), false);
    }
  }

  lemma {:induction false} WholeEndpoints(mem: Memory, at: nat, size: nat, count: nat, order: Order)
    requires Whole(mem, at, size) && ParseEndpoints(mem, at, size, count, order).Ok?
    ensures var n := ParseEndpoints(mem, at, size, count, order).used; n <= size && Whole(mem, at + n, size - n)
    decreases count
  {
    hide ParseEndpoint, Whole;
    if count > 0 {
      var first := ParseEndpoint(mem, at, size, order);
      WholeEndpoint(mem, at, size, order);
      WholeEndpoints(mem, at + first.used, size - first.used, count - 1, order);
    }
  }

  lemma {:induction false} WholeAlt(mem: Memory, at: nat, size: nat, order: Order)
    requires Whole(mem, at, size) && size > 0 && ParseAlt(mem, at, size, order).Ok?
    ensures var n := ParseAlt(mem, at, size, order).used; n <= size && Whole(mem, at + n, size - n)
  {
    hide Skip, ParseEndpoints, InterfaceFields, AltSettingOf;
    var len := mem(at);
    WholeSkip(mem, at + len, size - len, false);
    var used := len + Skip(mem, at + len, size - len, false).value;
    if !StopsInterface(mem, at + used, size - used) {
      WholeEndpoints(mem, at + used, size - used, AltSettingOf(InterfaceFields(mem, at)).bNumEndpoints, order);
    }
  }

  lemma {:induction false} WholeInterface(mem: Memory, at: nat, size: nat, order: Order)
    requires Whole(mem, at, size) && ParseInterface(mem, at, size, order).Ok?
    ensures var n := ParseInterface(mem, at, size, order).used; n <= size && Whole(mem, at + n, size - n)
    decreases size
  {
    hide ParseAlt, Whole;
    if size >= INTERFACE_LENGTH {
      var first := ParseAlt(mem, at, size, order);
      WholeAlt(mem, at, size, order);
      AltUsesBytes(mem, at, size, order);
      if !first.value.1 && AlternateFollows(mem, at + first.used, size - first.used) {
        WholeInterface(mem, at + first.used, size - first.used, order);
      }
    }
  }

  lemma {:induction false} WholeInterfaces(mem: Memory, at: nat, size: nat, count: nat, extra: seq<Byte>, order: Order)
    requires Whole(mem, at, size) && ParseInterfaces(mem, at, size, count, extra, order).Ok?
    ensures ParseInterfaces(mem, at, size, count, extra, order).used <= size
    decreases count
  {
    hide Skip, ParseInterface, Whole;
    if count > 0 {
      WholeSkip(mem, at, size, true);
      var n := Skip(mem, at, size, true).value;
      WholeInterface(mem, at + n, size - n, order);
      var used := n + ParseInterface(mem, at + n, size - n, order).used;
      var kept := if extra == [] then Slice(mem, at, n) else extra;
      WholeInterfaces(mem, at + used, size - used, count - 1, kept, order);
    }
  }

  /** The pointer never leaves bytes that are cut into descriptors, whatever the descriptors hold. */
  lemma {:induction false} WholeConfig(mem: Memory, at: nat, order: Order)
    requires var n := ConfigOf(ConfigFields(mem, at, order)).wTotalLength; n > 0 && Whole(mem, at, n)
    ensures var r := ParseConfiguration(mem, at, order); r.Ok? ==> Leftover(r) >= 0 && ConfigWithin(mem, at, order)
  {
    hide ParseInterfaces, ConfigOf, ConfigFields, ConfigWithin;
    var c := ConfigOf(ConfigFields(mem, at, order));
    if ParseConfiguration(mem, at, order).Ok? {
      WholeInterfaces(mem, at + mem(at), c.wTotalLength - mem(at), c.bNumInterfaces, [], order);
      ConfigInside(mem, at, order);
    }
  }

  // ----- inputs -----

  /** Two bytes are left, and a vendor descriptor claims 255. */
  lemma SkipOverrunInput(mem: Memory)
    requires mem(0) == 255 && mem(1) == 0x24
    ensures Skip(mem, 0, 2, false) == Some(255) && !SkipWithin(mem, 0, 2)
  {
    assert Skip(mem, 255, -253, false) == Some(0);
  }

  lemma ConfigHead(mem: Memory, at: nat, order: Order)
    ensures var c := ConfigOf(ConfigFields(mem, at, order));
      c.wTotalLength == WordOf(mem(at + 2), mem(at + 3), order) && c.bNumInterfaces == mem(at + 4)
  {
    var t1, t2 := CONFIG_FORMAT[1..], CONFIG_FORMAT[1..][1..];
    var t3 := t2[1..];
    assert t1[0] == 'b' && t2[0] == 'w' && t3[0] == 'b';
    assert Fields(mem, at + 4, t3, order)[0] == mem(at + 4);
    assert Fields(mem, at + 2, t2, order)
        == [WordOf(mem(at + 2), mem(at + 3), order)] + Fields(mem, at + 4, t3, order);
    assert Fields(mem, at + 1, t1, order) == [mem(at + 1)] + Fields(mem, at + 2, t2, order);
  }

  lemma EndpointCount(mem: Memory, at: nat)
    ensures AltSettingOf(InterfaceFields(mem, at)).bNumEndpoints == mem(at + 4)
  {
    var t1, t2 := INTERFACE_FORMAT[1..], INTERFACE_FORMAT[1..][1..];
    var t3 := t2[1..];
    var t4 := t3[1..];
    assert t1[0] == 'b' && t2[0] == 'b' && t3[0] == 'b' && t4[0] == 'b';
    assert Fields(mem, at + 4, t4, LittleEndian)[0] == mem(at + 4);
    assert Fields(mem, at + 3, t3, LittleEndian) == [mem(at + 3)] + Fields(mem, at + 4, t4, LittleEndian);
    assert Fields(mem, at + 2, t2, LittleEndian) == [mem(at + 2)] + Fields(mem, at + 3, t3, LittleEndian);
    assert Fields(mem, at + 1, t1, LittleEndian) == [mem(at + 1)] + Fields(mem, at + 2, t2, LittleEndian);
  }

  /** An interface without endpoints, followed by such a descriptor. */
  lemma AltOverrunInput(mem: Memory, at: nat, order: Order)
    requires mem(at) == 9 && mem(at + 4) == 0 && mem(at + 9) == 255 && mem(at + 10) == 0x24
    ensures var r := ParseAlt(mem, at, 11, order); r.Ok? && r.used == 264 && !r.value.1
  {
    EndpointCount(mem, at);
    hide AltSettingOf, InterfaceFields, Slice;
    assert Skip(mem, at + 264, -253, false) == Some(0);
    assert Skip(mem, at + 9, 2, false) == Some(255);
    assert ParseEndpoints(mem, at + 264, -253, 0, order) == Ok([], 0);
  }

  lemma InterfacesOverrunInput(mem: Memory, at: nat, size: nat, count: nat, order: Order)
    requires size == 11 && count == 1 && mem(at) == 9 && mem(at + 1) == DT_INTERFACE && mem(at + 4) == 0
    requires mem(at + 9) == 255 && mem(at + 10) == 0x24
    ensures var r := ParseInterfaces(mem, at, size, count, [], order); r.Ok? && r.used == 264
  {
    AltOverrunInput(mem, at, order);
    hide ParseAlt, ParseInterface, ParseInterfaces;
    assert Skip(mem, at, size, true) == Some(0);
    InterfaceOverrunInput(mem, at, size, order);
    OneInterface(mem, at, size, count, order);
  }

  lemma OneInterface(mem: Memory, at: nat, size: nat, count: nat, order: Order)
    requires count == 1 && Skip(mem, at, size, true) == Some(0) && ParseInterface(mem, at, size, order).Ok?
    requires ParseInterface(mem, at, size, order).used > size
    ensures var r := ParseInterfaces(mem, at, size, count, [], order);
      r.Ok? && r.used == ParseInterface(mem, at, size, order).used
  {
    hide Skip, ParseInterface, Slice;
    var used := ParseInterface(mem, at, size, order).used;
    assert at + 0 == at && size - 0 == size;
    NothingMore(mem, at + used, size - used, 0, Slice(mem, at, 0), order);
    assert ParseInterfaces(mem, at + used, size - used, 0, Slice(mem, at, 0), order)
        == Ok(([], Slice(mem, at, 0)), 0);
  }

  lemma InterfaceOverrunInput(mem: Memory, at: nat, size: nat, order: Order)
    requires size >= INTERFACE_LENGTH && var r := ParseAlt(mem, at, size, order); r.Ok? && !r.value.1 && r.used > size
    ensures var r := ParseInterface(mem, at, size, order); r.Ok? && r.used == ParseAlt(mem, at, size, order).used
  {
    hide ParseAlt;
  }

  /** A configuration of 20 bytes, one interface and such a descriptor: 253 bytes beyond are passed over. */
  lemma {:induction false} ConfigOverrunInput(mem: Memory, at: nat)
    requires mem(at) == 9 && mem(at + 2) == 20 && mem(at + 3) == 0 && mem(at + 4) == 1
    requires mem(at + 9) == 9 && mem(at + 10) == DT_INTERFACE && mem(at + 13) == 0
    requires mem(at + 18) == 255 && mem(at + 19) == 0x24
    ensures var r := ParseConfiguration(mem, at, LittleEndian); r.Ok? && Leftover(r) == -253
  {
    hide ConfigOf, ConfigFields, ParseInterfaces;
    ConfigHead(mem, at, LittleEndian);
    InterfacesOverrunInput(mem, at + 9, 11, 1, LittleEndian);
  }
}
