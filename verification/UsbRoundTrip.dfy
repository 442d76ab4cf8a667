/** Parsing a configuration gives a well-formed tree exactly when memory holds its bytes. */
module UsbRoundTrip {
  import opened Options
  import opened Bytes
  import opened UsbDescriptor
  import opened UsbSerializer

  // ----- lists of endpoints -----

  predicate EndpointsOk(es: seq<Endpoint>) {
    forall i :: 0 <= i < |es| ==> EndpointOk(es[i])
  }

  function SerializeEndpoints(es: seq<Endpoint>, order: Order): seq<Byte>
    requires EndpointsOk(es)
  {
    if es == [] then [] else SerializeEndpoint(es[0], order) + SerializeEndpoints(es[1..], order)
  }

  lemma EndpointStarts(mem: Memory, at: nat, es: seq<Endpoint>, order: Order)
    requires EndpointsOk(es) && es != [] && Holds(mem, at, SerializeEndpoints(es, order))
    ensures mem(at) == es[0].bLength && mem(at + 1) == DT_ENDPOINT
    ensures |SerializeEndpoints(es, order)| >= es[0].bLength >= ENDPOINT_LENGTH
  {
    hide EndpointFormat, EndpointValues, Pack, Fits, ExtraOk, Holds;
    EndpointWidths();
    var e := es[0];
    var fields := Pack(EndpointFormat(e), EndpointValues(e), order);
    HoldsConcat(mem, at, SerializeEndpoint(e, order), SerializeEndpoints(es[1..], order));
    HoldsConcat(mem, at, fields, e.extra);
    EndpointTypeAt(mem, at, e, order);
    assert |fields| == e.bLength by {
      EndpointWidth(e);
    }
  }

  lemma EndpointWidth(e: Endpoint)
    requires EndpointOk(e)
    ensures Width(EndpointFormat(e)) == e.bLength
  {
    EndpointWidths();
  }

  lemma {:induction false} EndpointsParse(mem: Memory, at: nat, size: int, es: seq<Endpoint>, order: Order)
    requires EndpointsOk(es)
    requires var n := |SerializeEndpoints(es, order)|; n <= size && Ends(mem, at + n, size - n, false)
    requires Holds(mem, at, SerializeEndpoints(es, order))
    ensures ParseEndpoints(mem, at, size, |es|, order) == Ok(es, |SerializeEndpoints(es, order)|)
    decreases |es|
  {
    hide EndpointOk, SerializeEndpoint, ParseEndpoint, Holds;
    if es != [] {
      var head, tail := SerializeEndpoint(es[0], order), SerializeEndpoints(es[1..], order);
      HoldsConcat(mem, at, head, tail);
      EndpointStarts(mem, at, es, order);
      if es[1..] != [] {
        EndpointStarts(mem, at + |head|, es[1..], order);
      }
      EndpointParses(mem, at, size, es[0], order);
      EndpointsParse(mem, at + |head|, size - |head|, es[1..], order);
      assert es == [es[0]] + es[1..];
    }
  }

  lemma {:induction false} ParsedEndpoints(mem: Memory, at: nat, size: int, count: nat, order: Order)
    requires var r := ParseEndpoints(mem, at, size, count, order); r.Ok? && EndpointsOk(r.value)
    requires count == 0 ==> Ends(mem, at, size, false)
    ensures var r := ParseEndpoints(mem, at, size, count, order);
      && |r.value| == count && r.used == |SerializeEndpoints(r.value, order)|
      && Holds(mem, at, SerializeEndpoints(r.value, order))
      && Ends(mem, at + r.used, size - r.used, false)
    decreases count
  {
    hide EndpointOk, SerializeEndpoint, ParseEndpoint, Holds, Ends, EndpointsOk;
    if count == 0 {
      assert Holds(mem, at, []) by { EmptyHolds(mem, at); }
    } else {
      var r := ParseEndpoints(mem, at, size, count, order);
      var n := ParseEndpoint(mem, at, size, order).used;
      AllOk(r.value);
      ParsedEndpoint(mem, at, size, r.value[0], order);
      assert r.value[1..] == ParseEndpoints(mem, at + n, size - n, count - 1, order).value;
      ParsedEndpoints(mem, at + n, size - n, count - 1, order);
      HoldsConcat(mem, at, SerializeEndpoint(r.value[0], order), SerializeEndpoints(r.value[1..], order));
    }
  }

  lemma AllOk(es: seq<Endpoint>)
    requires es != [] && EndpointsOk(es)
    ensures EndpointOk(es[0]) && EndpointsOk(es[1..])
  {
    hide EndpointOk;
  }

  lemma EmptyHolds(mem: Memory, at: nat)
    ensures Holds(mem, at, [])
  {
  }

  // ----- alternate settings -----

  function AltValues(a: AltSetting): (vs: seq<nat>)
    ensures |vs| == 9
  {
    [a.bLength, a.bDescriptorType, a.bInterfaceNumber, a.bAlternateSetting, a.bNumEndpoints,
     a.bInterfaceClass, a.bInterfaceSubClass, a.bInterfaceProtocol, a.iInterface]
  }

  predicate AltOk(a: AltSetting) {
    && a.bLength == INTERFACE_LENGTH && a.bDescriptorType == DT_INTERFACE && Fits(INTERFACE_FORMAT, AltValues(a))
    && a.bNumEndpoints == |a.endpoints| <= MAX_ENDPOINTS && EndpointsOk(a.endpoints) && ExtraOk(a.extra)
  }

  function PackAlt(a: AltSetting): seq<Byte>
    requires AltOk(a)
  {
    Pack(INTERFACE_FORMAT, AltValues(a), LittleEndian)
  }

  function SerializeAlt(a: AltSetting, order: Order): seq<Byte>
    requires AltOk(a)
  {
    PackAlt(a) + (a.extra + SerializeEndpoints(a.endpoints, order))
  }

  lemma AltFieldsExactly(mem: Memory, at: nat, a: AltSetting)
    requires AltOk(a)
    ensures |PackAlt(a)| == INTERFACE_LENGTH
    ensures Holds(mem, at, PackAlt(a)) <==> AltSettingOf(InterfaceFields(mem, at)) == a.(extra := [], endpoints := [])
  {
    hide Pack, Fits, ExtraOk, EndpointsOk, Fields, Holds;
    EndpointWidths();
    FieldsPack(mem, at, INTERFACE_FORMAT, AltValues(a), LittleEndian);
    var fs := InterfaceFields(mem, at);
    assert fs == AltValues(AltSettingOf(fs));
    assert AltValues(a) == AltValues(a.(extra := [], endpoints := []));
  }

  lemma InterfaceFieldsStart(mem: Memory, at: nat)
    ensures var a := AltSettingOf(InterfaceFields(mem, at));
      a.bLength == mem(at) && a.bDescriptorType == mem(at + 1) && a.bAlternateSetting == mem(at + 3)
      && a.extra == [] && a.endpoints == []
  {
    FieldsStart(mem, at, INTERFACE_FORMAT, LittleEndian);
    assert INTERFACE_FORMAT[1..][0] == 'b' && INTERFACE_FORMAT[1..][1..][0] == 'b';
    assert INTERFACE_FORMAT[1..][1..][1..][0] == 'b';
    var f1 := Fields(mem, at + 1, INTERFACE_FORMAT[1..], LittleEndian);
    var f2 := Fields(mem, at + 2, INTERFACE_FORMAT[1..][1..], LittleEndian);
    var f3 := Fields(mem, at + 3, INTERFACE_FORMAT[1..][1..][1..], LittleEndian);
    assert f3[0] == mem(at + 3) && f2 == [mem(at + 2)] + f3 && f1 == [mem(at + 1)] + f2;
  }

  /** What may follow an alternate setting: nothing, another interface, or an endpoint. */
  predicate AltEnds(mem: Memory, at: nat, size: int) {
    Ends(mem, at, size, false) && !StopsInterface(mem, at, size)
  }

  lemma {:induction false} AltParses(mem: Memory, at: nat, size: int, a: AltSetting, order: Order)
    requires AltOk(a)
    requires var n := |SerializeAlt(a, order)|; n <= size && AltEnds(mem, at + n, size - n)
    requires Holds(mem, at, SerializeAlt(a, order))
    ensures ParseAlt(mem, at, size, order) == Ok((a, false), |SerializeAlt(a, order)|)
  {
    hide Pack, Fits, ExtraOk, EndpointsOk, Fields, Holds, PackAlt, ParseEndpoints, Skip, SerializeEndpoints,
      AltSettingOf, InterfaceFields;
    var es := SerializeEndpoints(a.endpoints, order);
    HoldsConcat(mem, at, PackAlt(a), a.extra + es);
    AltFieldsExactly(mem, at, a);
    HoldsConcat(mem, at + 9, a.extra, es);
    InterfaceFieldsStart(mem, at);
    var next, left := at + 9 + |a.extra|, size - 9 - |a.extra|;
    if a.endpoints != [] {
      EndpointStarts(mem, next, a.endpoints, order);
    } else {
      NoEndpoints(order);
    }
    SkipPasses(mem, at + 9, size - 9, false, a.extra);
    EndpointsParse(mem, next, left, a.endpoints, order);
    assert Slice(mem, at + 9, |a.extra|) == a.extra by { HoldsSlice(mem, at + 9, a.extra); }
  }

  lemma HoldsSlice(mem: Memory, at: nat, bytes: seq<Byte>)
    ensures Holds(mem, at, bytes) <==> Slice(mem, at, |bytes|) == bytes
  {
  }

  lemma NoEndpoints(order: Order)
    ensures SerializeEndpoints([], order) == []
  {
  }

  lemma {:induction false} ParsedAlt(mem: Memory, at: nat, size: int, order: Order)
    requires var r := ParseAlt(mem, at, size, order); r.Ok? && AltOk(r.value.0)
    ensures var r := ParseAlt(mem, at, size, order); var n := |SerializeAlt(r.value.0, order)|;
      r.used == n && Holds(mem, at, SerializeAlt(r.value.0, order)) && Ends(mem, at + n, size - n, false)
  {
    hide Pack, Fits, ExtraOk, EndpointsOk, Fields, Holds, PackAlt, ParseEndpoints, Skip, SerializeEndpoints,
      AltSettingOf, InterfaceFields, Slice;
    var r := ParseAlt(mem, at, size, order);
    var a := r.value.0;
    InterfaceFieldsStart(mem, at);
    assert AltSettingOf(InterfaceFields(mem, at)) == a.(extra := [], endpoints := []);
    AltFieldsExactly(mem, at, a);
    SkippedIsExtra(mem, at + 9, size - 9, false);
    HoldsSlice(mem, at + 9, a.extra);
    var next, left := at + 9 + |a.extra|, size - 9 - |a.extra|;
    var es := SerializeEndpoints(a.endpoints, order);
    if r.value.1 {
      NoEndpoints(order);
      EmptyHolds(mem, next);
    } else {
      ParsedEndpoints(mem, next, left, a.bNumEndpoints, order);
    }
    HoldsConcat(mem, at + 9, a.extra, es);
    HoldsConcat(mem, at, PackAlt(a), a.extra + es);
  }

  // ----- interfaces -----

  predicate AltsOk(alts: Interface) {
    forall i :: 0 <= i < |alts| ==> AltOk(alts[i])
  }

  predicate Alternates(alts: Interface) {
    forall i :: 1 <= i < |alts| ==> alts[i].bAlternateSetting != 0
  }

  predicate InterfaceOk(alts: Interface) {
    alts != [] && AltsOk(alts) && Alternates(alts)
  }

  function SerializeAlts(alts: Interface, order: Order): seq<Byte>
    requires AltsOk(alts)
  {
    if alts == [] then [] else SerializeAlt(alts[0], order) + SerializeAlts(alts[1..], order)
  }

  lemma AltStarts(mem: Memory, at: nat, alts: Interface, order: Order)
    requires AltsOk(alts) && alts != [] && Holds(mem, at, SerializeAlts(alts, order))
    ensures mem(at) == INTERFACE_LENGTH && mem(at + 1) == DT_INTERFACE && mem(at + 3) == alts[0].bAlternateSetting
    ensures |SerializeAlts(alts, order)| >= |SerializeAlt(alts[0], order)| >= INTERFACE_LENGTH
  {
    hide Pack, Fits, ExtraOk, EndpointsOk, Holds, PackAlt, SerializeEndpoints, AltSettingOf, InterfaceFields;
    var a := alts[0];
    HoldsConcat(mem, at, SerializeAlt(a, order), SerializeAlts(alts[1..], order));
    HoldsConcat(mem, at, PackAlt(a), a.extra + SerializeEndpoints(a.endpoints, order));
    AltFieldsExactly(mem, at, a);
    InterfaceFieldsStart(mem, at);
  }

  /** The end of an interface: nothing follows, or the first setting of another one does. */
  predicate GroupEnds(mem: Memory, at: nat, size: int) {
    AltEnds(mem, at, size) && !AlternateFollows(mem, at, size)
  }

  lemma {:induction false} InterfaceParses(mem: Memory, at: nat, size: int, alts: Interface, order: Order)
    requires InterfaceOk(alts)
    requires var n := |SerializeAlts(alts, order)|; n <= size && GroupEnds(mem, at + n, size - n)
    requires Holds(mem, at, SerializeAlts(alts, order))
    ensures ParseInterface(mem, at, size, order) == Ok(alts, |SerializeAlts(alts, order)|)
    decreases |alts|
  {
    hide AltOk, Holds, SerializeAlt, ParseAlt;
    var head, tail := SerializeAlt(alts[0], order), SerializeAlts(alts[1..], order);
    AltStarts(mem, at, alts, order);
    HoldsConcat(mem, at, head, tail);
    if alts[1..] == [] {
      AltParses(mem, at, size, alts[0], order);
      assert alts == [alts[0]];
    } else {
      AltStarts(mem, at + |head|, alts[1..], order);
      AltParses(mem, at, size, alts[0], order);
      InterfaceParses(mem, at + |head|, size - |head|, alts[1..], order);
      assert alts == [alts[0]] + alts[1..];
    }
  }

  lemma {:induction false} ParsedInterface(mem: Memory, at: nat, size: int, order: Order)
    requires var r := ParseInterface(mem, at, size, order); r.Ok? && AltsOk(r.value)
    requires size >= INTERFACE_LENGTH
    ensures var r := ParseInterface(mem, at, size, order);
      && r.used == |SerializeAlts(r.value, order)| && Holds(mem, at, SerializeAlts(r.value, order))
      && Ends(mem, at + r.used, size - r.used, false)
    decreases size
  {
    hide AltOk, Holds, SerializeAlt, ParseAlt, Ends;
    var r := ParseInterface(mem, at, size, order);
    var first := ParseAlt(mem, at, size, order);
    var next, left := at + first.used, size - first.used;
    assert r.value[0] == first.value.0;
    ParsedAlt(mem, at, size, order);
    AltUsesBytes(mem, at, size, order);
    if first.value.1 || !AlternateFollows(mem, next, left) {
      assert r.value[1..] == [];
      EmptyHolds(mem, next);
    } else {
      assert r.value[1..] == ParseInterface(mem, next, left, order).value;
      ParsedInterface(mem, next, left, order);
    }
    HoldsConcat(mem, at, SerializeAlt(r.value[0], order), SerializeAlts(r.value[1..], order));
  }

  predicate InterfacesOk(fs: seq<Interface>) {
    forall i :: 0 <= i < |fs| ==> InterfaceOk(fs[i])
  }

  /** Every interface but the first starts at alternate setting 0, or the one before would absorb it. */
  predicate Grouped(fs: seq<Interface>)
    requires InterfacesOk(fs)
  {
    forall i :: 1 <= i < |fs| ==> fs[i][0].bAlternateSetting == 0
  }

  function SerializeInterfaces(fs: seq<Interface>, order: Order): seq<Byte>
    requires InterfacesOk(fs)
  {
    if fs == [] then [] else SerializeAlts(fs[0], order) + SerializeInterfaces(fs[1..], order)
  }

  lemma InterfaceStarts(mem: Memory, at: nat, fs: seq<Interface>, order: Order)
    requires InterfacesOk(fs) && fs != [] && Holds(mem, at, SerializeInterfaces(fs, order))
    ensures mem(at) == INTERFACE_LENGTH && mem(at + 1) == DT_INTERFACE && mem(at + 3) == fs[0][0].bAlternateSetting
    ensures |SerializeInterfaces(fs, order)| >= |SerializeAlts(fs[0], order)| >= INTERFACE_LENGTH
  {
    hide AltOk, Holds, SerializeAlts;
    HoldsConcat(mem, at, SerializeAlts(fs[0], order), SerializeInterfaces(fs[1..], order));
    AltStarts(mem, at, fs[0], order);
  }

  lemma FirstInterfaceParses(mem: Memory, at: nat, fs: seq<Interface>, order: Order)
    requires InterfacesOk(fs) && Grouped(fs) && fs != []
    requires Holds(mem, at, SerializeInterfaces(fs, order))
    ensures var n := |SerializeAlts(fs[0], order)|;
      && ParseInterface(mem, at, |SerializeInterfaces(fs, order)|, order) == Ok(fs[0], n)
      && Holds(mem, at + n, SerializeInterfaces(fs[1..], order))
  {
    hide AltsOk, Alternates, Holds, SerializeAlts, ParseInterface;
    var head, tail := SerializeAlts(fs[0], order), SerializeInterfaces(fs[1..], order);
    HoldsConcat(mem, at, head, tail);
    if fs[1..] != [] {
      InterfaceStarts(mem, at + |head|, fs[1..], order);
    }
    InterfaceParses(mem, at, |head| + |tail|, fs[0], order);
  }

  lemma {:induction false} InterfacesParse(mem: Memory, at: nat, fs: seq<Interface>, order: Order,
                                           e: seq<Byte>, extra: seq<Byte>)
    requires InterfacesOk(fs) && Grouped(fs) && ExtraOk(e)
    requires (fs == [] ==> e == []) && (extra == [] || e == [])
    requires Holds(mem, at, e) && Holds(mem, at + |e|, SerializeInterfaces(fs, order))
    ensures var n := |e| + |SerializeInterfaces(fs, order)|;
      ParseInterfaces(mem, at, n, |fs|, extra, order) == Ok((fs, if e == [] then extra else e), n)
    decreases |fs|
  {
    hide InterfacesOk, Grouped, ExtraOk, Holds, SerializeInterfaces, SerializeAlts, ParseInterface, ParseInterfaces,
      Skip, Slice;
    InterfacesCons(fs, order);
    if fs == [] {
      NoneParse(mem, at, extra, order);
    } else {
      var n, rest := |SerializeAlts(fs[0], order)|, fs[1..];
      InterfaceStarts(mem, at + |e|, fs, order);
      SkipPasses(mem, at, |e| + |SerializeInterfaces(fs, order)|, true, e);
      HoldsSlice(mem, at, e);
      FirstInterfaceParses(mem, at + |e|, fs, order);
      EmptyHolds(mem, at + |e| + n);
      NoExtra();
      InterfacesParse(mem, at + |e| + n, rest, order, [], if e == [] then extra else e);
      OneMoreParses(mem, at, |e| + |SerializeInterfaces(fs, order)|, fs, extra, order, |e|, n);
    }
  }

  lemma NoneParse(mem: Memory, at: nat, extra: seq<Byte>, order: Order)
    ensures ParseInterfaces(mem, at, 0, 0, extra, order) == Ok(([], extra), 0)
  {
  }

  lemma OneMoreParses(mem: Memory, at: nat, size: int, fs: seq<Interface>, extra: seq<Byte>, order: Order,
                      m: nat, n: nat)
    requires fs != [] && Skip(mem, at, size, true) == Some(m)
    requires ParseInterface(mem, at + m, size - m, order) == Ok(fs[0], n)
    requires var kept := if extra == [] then Slice(mem, at, m) else extra;
      var r := ParseInterfaces(mem, at + m + n, size - m - n, |fs| - 1, kept, order);
      r.Ok? && r.value.0 == fs[1..]
    ensures var kept := if extra == [] then Slice(mem, at, m) else extra;
      var r := ParseInterfaces(mem, at + m + n, size - m - n, |fs| - 1, kept, order);
      ParseInterfaces(mem, at, size, |fs|, extra, order) == Ok((fs, r.value.1), m + n + r.used)
  {
    hide Skip, ParseInterface, Slice;
    assert fs == [fs[0]] + fs[1..];
  }

  lemma InterfacesCons(fs: seq<Interface>, order: Order)
    requires InterfacesOk(fs) && Grouped(fs)
    ensures fs == [] ==> SerializeInterfaces(fs, order) == []
    ensures fs != [] ==>
      && InterfacesOk(fs[1..]) && Grouped(fs[1..]) && AltsOk(fs[0])
      && SerializeInterfaces(fs, order) == SerializeAlts(fs[0], order) + SerializeInterfaces(fs[1..], order)
  {
  }

  lemma NoExtra()
    ensures ExtraOk([])
  {
  }

  lemma {:induction false} ParsedInterfaces(mem: Memory, at: nat, size: int, count: nat, extra: seq<Byte>, order: Order)
    requires var r := ParseInterfaces(mem, at, size, count, extra, order); r.Ok? && InterfacesOk(r.value.0)
    requires count > 0 ==> Ends(mem, at, size, false)
    ensures var r := ParseInterfaces(mem, at, size, count, extra, order);
      && r.value.1 == extra && r.used == |SerializeInterfaces(r.value.0, order)|
      && Holds(mem, at, SerializeInterfaces(r.value.0, order))
    decreases count
  {
    hide InterfaceOk, Holds, SerializeAlts, ParseInterface;
    if count == 0 {
      EmptyHolds(mem, at);
    } else {
      var r := ParseInterfaces(mem, at, size, count, extra, order);
      var first := ParseInterface(mem, at, size, order);
      var fs := r.value.0;
      assert Skip(mem, at, size, true) == Some(0);
      assert fs[0] == first.value;
      InterfaceNeedsBytes(mem, at, size, order);
      ParsedInterface(mem, at, size, order);
      var kept := if extra == [] then Slice(mem, at, 0) else extra;
      assert kept == extra;
      assert fs[1..] == ParseInterfaces(mem, at + first.used, size - first.used, count - 1, extra, order).value.0;
      ParsedInterfaces(mem, at + first.used, size - first.used, count - 1, extra, order);
      HoldsConcat(mem, at, SerializeAlts(fs[0], order), SerializeInterfaces(fs[1..], order));
    }
  }

  lemma InterfaceNeedsBytes(mem: Memory, at: nat, size: int, order: Order)
    ensures var r := ParseInterface(mem, at, size, order);
      r.Ok? && InterfaceOk(r.value) ==> size >= INTERFACE_LENGTH && AltsOk(r.value)
  {
  }

  // ----- the configuration -----

  function ConfigValues(c: Config): (vs: seq<nat>)
    ensures |vs| == 8
  {
    [c.bLength, c.bDescriptorType, c.wTotalLength, c.bNumInterfaces, c.bConfigurationValue, c.iConfiguration,
     c.bmAttributes, c.MaxPower]
  }

  predicate ConfigFits(c: Config) {
    && c.bLength == CONFIG_LENGTH && Fits(CONFIG_FORMAT, ConfigValues(c)) && InterfacesOk(c.interfaces)
    && c.bNumInterfaces == |c.interfaces| <= MAX_INTERFACES
  }

  function PackConfig(c: Config, order: Order): seq<Byte>
    requires ConfigFits(c)
  {
    Pack(CONFIG_FORMAT, ConfigValues(c), order)
  }

  function SerializeConfig(c: Config, order: Order): seq<Byte>
    requires ConfigFits(c)
  {
    PackConfig(c, order) + (c.extra + SerializeInterfaces(c.interfaces, order))
  }

  /** A well-formed configuration; its extra bytes stand before the first interface. */
  predicate ConfigOk(c: Config) {
    && ConfigFits(c) && Grouped(c.interfaces) && ExtraOk(c.extra)
    && (c.interfaces == [] ==> c.extra == [])
    && c.wTotalLength == |SerializeConfig(c, LittleEndian)|
  }

  lemma ConfigFieldsExactly(mem: Memory, at: nat, c: Config, order: Order)
    requires ConfigFits(c)
    ensures |PackConfig(c, order)| == CONFIG_LENGTH
    ensures Holds(mem, at, PackConfig(c, order))
       <==> ConfigOf(ConfigFields(mem, at, order)) == c.(extra := [], interfaces := [])
    ensures ConfigOf(ConfigFields(mem, at, order)).bLength == mem(at)
  {
    hide Pack, Fits, InterfacesOk, Fields, Holds;
    EndpointWidths();
    FieldsPack(mem, at, CONFIG_FORMAT, ConfigValues(c), order);
    FieldsStart(mem, at, CONFIG_FORMAT, order);
    var fs := ConfigFields(mem, at, order);
    assert fs == ConfigValues(ConfigOf(fs));
    assert ConfigValues(c) == ConfigValues(c.(extra := [], interfaces := []));
  }

  lemma {:induction false} ConfigParses(mem: Memory, at: nat, c: Config, order: Order)
    requires ConfigOk(c) && Holds(mem, at, SerializeConfig(c, order))
    ensures ParseConfiguration(mem, at, order) == Ok(c, |SerializeConfig(c, order)|)
  {
    hide Pack, Fits, InterfacesOk, Grouped, ExtraOk, Holds, PackConfig, ParseInterfaces, SerializeInterfaces,
      ConfigOf, ConfigFields;
    var body := SerializeInterfaces(c.interfaces, order);
    HoldsConcat(mem, at, PackConfig(c, order), c.extra + body);
    HoldsConcat(mem, at + CONFIG_LENGTH, c.extra, body);
    ConfigFieldsExactly(mem, at, c, order);
    SameLength(c, order);
    InterfacesParse(mem, at + CONFIG_LENGTH, c.interfaces, order, c.extra, []);
  }

  lemma SameLength(c: Config, order: Order)
    requires ConfigOk(c)
    ensures |SerializeConfig(c, order)| == c.wTotalLength
  {
    hide Pack, Fits, InterfacesOk, ExtraOk, PackConfig, SerializeInterfaces;
    InterfacesLength(c.interfaces, order);
    PackLength(c, order);
    PackLength(c, LittleEndian);
  }

  lemma PackLength(c: Config, order: Order)
    requires ConfigFits(c)
    ensures |PackConfig(c, order)| == CONFIG_LENGTH
  {
    ConfigFieldsExactly(_ => 0, 0, c, order);
  }

  lemma {:induction false} EndpointsLength(es: seq<Endpoint>, order: Order)
    requires EndpointsOk(es)
    ensures |SerializeEndpoints(es, order)| == |SerializeEndpoints(es, LittleEndian)|
  {
    hide EndpointOk;
    if es != [] {
      EndpointsLength(es[1..], order);
    }
  }

  lemma {:induction false} AltsLength(alts: Interface, order: Order)
    requires AltsOk(alts)
    ensures |SerializeAlts(alts, order)| == |SerializeAlts(alts, LittleEndian)|
  {
    if alts != [] {
      EndpointsLength(alts[0].endpoints, order);
      AltsLength(alts[1..], order);
    }
  }

  lemma {:induction false} InterfacesLength(fs: seq<Interface>, order: Order)
    requires InterfacesOk(fs)
    ensures |SerializeInterfaces(fs, order)| == |SerializeInterfaces(fs, LittleEndian)|
  {
    if fs != [] {
      AltsLength(fs[0], order);
      InterfacesLength(fs[1..], order);
    }
  }

  lemma {:induction false} ParsedConfig(mem: Memory, at: nat, c: Config, order: Order)
    requires ConfigOk(c)
    ensures var r := ParseConfiguration(mem, at, order);
      r.Ok? && r.value == c ==> Holds(mem, at, SerializeConfig(c, order))
  {
    hide Pack, Fits, InterfacesOk, Grouped, ExtraOk, Holds, PackConfig, ParseInterfaces, SerializeInterfaces,
      ConfigOf, ConfigFields;
    var r := ParseConfiguration(mem, at, order);
    if r.Ok? && r.value == c {
      assert ConfigOf(ConfigFields(mem, at, order)).(extra := c.extra, interfaces := c.interfaces) == c;
      ConfigFieldsExactly(mem, at, c, order);
      ConfigFieldsEmpty(mem, at, order);
      var body := SerializeInterfaces(c.interfaces, order);
      ParsedBody(mem, at + CONFIG_LENGTH, c.wTotalLength - CONFIG_LENGTH, c.bNumInterfaces, order);
      HoldsConcat(mem, at + CONFIG_LENGTH, c.extra, body);
      HoldsConcat(mem, at, PackConfig(c, order), c.extra + body);
    }
  }

  lemma ConfigFieldsEmpty(mem: Memory, at: nat, order: Order)
    ensures var c := ConfigOf(ConfigFields(mem, at, order)); c.extra == [] && c.interfaces == []
  {
  }

  /** Passing over the extra bytes first changes nothing but what is used. */
  lemma BodySkips(mem: Memory, at: nat, size: int, n: nat, count: nat, order: Order)
    requires count > 0 && Skip(mem, at, size, true) == Some(n) && Skip(mem, at + n, size - n, true) == Some(0)
    ensures var r := ParseInterfaces(mem, at, size, count, [], order);
      var r' := ParseInterfaces(mem, at + n, size - n, count, Slice(mem, at, n), order);
      r.Ok? ==> r'.Ok? && r'.value == r.value
  {
    hide ParseInterface, Skip;
    var e := Slice(mem, at, n);
    assert e == [] ==> n == 0 && Slice(mem, at + n, 0) == e;
  }

  /** The interfaces of a configuration, with the extra bytes before the first of them. */
  lemma ParsedBody(mem: Memory, at: nat, size: int, count: nat, order: Order)
    requires var r := ParseInterfaces(mem, at, size, count, [], order); r.Ok? && InterfacesOk(r.value.0)
    ensures var v := ParseInterfaces(mem, at, size, count, [], order).value;
      Holds(mem, at, v.1) && Holds(mem, at + |v.1|, SerializeInterfaces(v.0, order))
  {
    hide InterfaceOk, InterfacesOk, Holds, SerializeInterfaces, ParseInterface, Ends, Skip, ExtraOk;
    if count == 0 {
      EmptyHolds(mem, at);
      NoInterfaces(order);
    } else {
      SkippedIsExtra(mem, at, size, true);
      var n := Skip(mem, at, size, true).value;
      var e := Slice(mem, at, n);
      HoldsSlice(mem, at, e);
      SkipAtEnd(mem, at + n, size - n);
      BodySkips(mem, at, size, n, count, order);
      ParsedInterfaces(mem, at + n, size - n, count, e, order);
    }
  }

  lemma NoInterfaces(order: Order)
    ensures SerializeInterfaces([], order) == []
  {
  }

  lemma SkipAtEnd(mem: Memory, at: nat, size: int)
    requires Ends(mem, at, size, true)
    ensures Skip(mem, at, size, true) == Some(0) && Ends(mem, at, size, false)
  {
  }

  /**
   * A well-formed configuration is what the parser returns exactly when memory holds its bytes,
   * whatever lies beyond them; nothing of `wTotalLength` is then left over.
   */
  lemma {:induction false} ParsesExactly(mem: Memory, at: nat, c: Config, order: Order)
    requires ConfigOk(c)
    ensures var r := ParseConfiguration(mem, at, order);
      && (Holds(mem, at, SerializeConfig(c, order)) <==> r.Ok? && r.value == c)
      && (r.Ok? && r.value == c ==> r.used == |SerializeConfig(c, order)| && Leftover(r) == 0)
  {
    hide ConfigFits, Holds, SerializeConfig, ParseConfiguration;
    var r := ParseConfiguration(mem, at, order);
    ParsedConfig(mem, at, c, order);
    if Holds(mem, at, SerializeConfig(c, order)) {
      ConfigParses(mem, at, c, order);
      SameLength(c, order);
    }
  }

  /** Different well-formed configurations have different bytes. */
  lemma {:induction false} SerializeInjective(c: Config, d: Config, order: Order)
    requires ConfigOk(c) && ConfigOk(d) && SerializeConfig(c, order) == SerializeConfig(d, order)
    ensures c == d
  {
    hide ConfigFits, SerializeConfig, ParseConfiguration;
    var bytes := SerializeConfig(c, order);
    var mem: Memory := i => if 0 <= i < |bytes| then bytes[i] else 0;
    assert Holds(mem, 0, bytes);
    ConfigParses(mem, 0, c, order);
    ConfigParses(mem, 0, d, order);
  }
}
