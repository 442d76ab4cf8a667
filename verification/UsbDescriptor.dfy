/**
 * The parser of USB configuration descriptors (USB 2.0 specification, sections 9.6.3, 9.6.5 and
 * 9.6.6): what it computes, as functions of the address space it reads.
 */
module UsbDescriptor {
  import opened Options
  import opened Bytes

  const DT_DEVICE: Byte := 1
  const DT_CONFIG: Byte := 2
  const DT_INTERFACE: Byte := 4
  const DT_ENDPOINT: Byte := 5

  const HEADER_LENGTH := 2
  const CONFIG_LENGTH := 9
  const INTERFACE_LENGTH := 9
  const ENDPOINT_LENGTH := 7
  const ENDPOINT_AUDIO_LENGTH := 9

  const MAX_ENDPOINTS := 32
  const MAX_INTERFACES := 32

  const ERROR_IO := -1

  /** The parser trusts the lengths it reads, so it sees memory and not just its buffer. */
  type Memory = nat -> Byte

  datatype Order = LittleEndian | BigEndian

  function Slice(mem: Memory, at: nat, n: nat): (s: seq<Byte>)
    ensures |s| == n
  {
    seq(n, i requires 0 <= i < n => mem(at + i))
  }

  ghost predicate Holds(mem: Memory, at: nat, bytes: seq<Byte>) {
    Slice(mem, at, |bytes|) == bytes
  }

  // ----- usbi_parse_descriptor -----

  const CONFIG_FORMAT := "bbwbbbbb"
  const INTERFACE_FORMAT := "bbbbbbbbb"
  const ENDPOINT_FORMAT := "bbbbwb"
  const ENDPOINT_AUDIO_FORMAT := "bbbbwbbb"

  function WordOf(b0: Byte, b1: Byte, order: Order): nat {
    if order.LittleEndian? then b1 * 256 + b0 else b0 * 256 + b1
  }

  /** The field values that a format string picks out of memory. */
  function Fields(mem: Memory, at: nat, format: string, order: Order): seq<nat>
    decreases |format|
  {
    if format == "" then []
    else if format[0] == 'b' then [mem(at)] + Fields(mem, at + 1, format[1..], order)
    else if format[0] == 'w' then [WordOf(mem(at), mem(at + 1), order)] + Fields(mem, at + 2, format[1..], order)
    else Fields(mem, at, format[1..], order)
  }

  function Width(format: string): nat {
    if format == "" then 0
    else (if format[0] == 'b' then 1 else if format[0] == 'w' then 2 else 0) + Width(format[1..])
  }

  method ParseDescriptor(mem: Memory, source: nat, descriptor: string, order: Order) returns (dest: seq<nat>, n: nat)
    ensures dest == Fields(mem, source, descriptor, order) && n == Width(descriptor)
  {
    var sp := source;
    dest := [];
    for cp := 0 to |descriptor|
      invariant source <= sp && sp - source + Width(descriptor[cp..]) == Width(descriptor)
      invariant dest + Fields(mem, sp, descriptor[cp..], order) == Fields(mem, source, descriptor, order)
    {
      assert descriptor[cp..][1..] == descriptor[cp + 1..];
      if descriptor[cp] == 'b' {
        dest := dest + [mem(sp)];
        sp := sp + 1;
      } else if descriptor[cp] == 'w' {
        dest := dest + [WordOf(mem(sp), mem(sp + 1), order)];
        sp := sp + 2;
      }
    }
    n := sp - source;
  }

  // ----- the descriptor tree -----

  datatype Endpoint = Endpoint(
    bLength: nat, bDescriptorType: nat, bEndpointAddress: nat, bmAttributes: nat,
    wMaxPacketSize: nat, bInterval: nat, bRefresh: nat, bSynchAddress: nat,
    extra: seq<Byte>)

  datatype AltSetting = AltSetting(
    bLength: nat, bDescriptorType: nat, bInterfaceNumber: nat, bAlternateSetting: nat, bNumEndpoints: nat,
    bInterfaceClass: nat, bInterfaceSubClass: nat, bInterfaceProtocol: nat, iInterface: nat,
    extra: seq<Byte>, endpoints: seq<Endpoint>)

  /** An interface is the sequence of its alternate settings. */
  type Interface = seq<AltSetting>

  datatype Config = Config(
    bLength: nat, bDescriptorType: nat, wTotalLength: nat, bNumInterfaces: nat,
    bConfigurationValue: nat, iConfiguration: nat, bmAttributes: nat, MaxPower: nat,
    extra: seq<Byte>, interfaces: seq<Interface>)

  /** An endpoint as `memset` leaves it. */
  const ZERO_ENDPOINT := Endpoint(0, 0, 0, 0, 0, 0, 0, 0, [])

  function EndpointOf(fs: seq<nat>): Endpoint {
    if |fs| == 8 then Endpoint(fs[0], fs[1], fs[2], fs[3], fs[4], fs[5], fs[6], fs[7], [])
    else if |fs| == 6 then Endpoint(fs[0], fs[1], fs[2], fs[3], fs[4], fs[5], 0, 0, [])
    else ZERO_ENDPOINT
  }

  function AltSettingOf(fs: seq<nat>): AltSetting
    requires |fs| == 9
  {
    AltSetting(fs[0], fs[1], fs[2], fs[3], fs[4], fs[5], fs[6], fs[7], fs[8], [], [])
  }

  function ConfigOf(fs: seq<nat>): Config
    requires |fs| == 8
  {
    Config(fs[0], fs[1], fs[2], fs[3], fs[4], fs[5], fs[6], fs[7], [], [])
  }

  // ----- what is parsed -----

  /** A value and the number of bytes it took, or a negative error code. */
  datatype Result<+T> = Ok(value: T, used: nat) | Err(code: int)

  /** The descriptor types that end a run of class and vendor descriptors. */
  predicate Proper(t: Byte) {
    t == DT_ENDPOINT || t == DT_INTERFACE || t == DT_CONFIG || t == DT_DEVICE
  }

  /**
   * The length of the class and vendor descriptors at `at`; None for a descriptor whose length
   * is invalid. Only the configuration's own loop checks lengths against what is left.
   */
  function Skip(mem: Memory, at: nat, size: int, bounded: bool): Option<nat>
    decreases if size < 0 then 0 else size
  {
    if size < HEADER_LENGTH then Some(0)
    else if mem(at) < 2 || (bounded && mem(at) > size) then None
    else if Proper(mem(at + 1)) then Some(0)
    else
      var rest := Skip(mem, at + mem(at), size - mem(at), bounded);
      if rest.None? then None else Some(mem(at) + rest.value)
  }

  function EndpointFields(mem: Memory, at: nat, order: Order): Endpoint {
    if mem(at) >= ENDPOINT_AUDIO_LENGTH then EndpointOf(Fields(mem, at, ENDPOINT_AUDIO_FORMAT, order))
    else if mem(at) >= ENDPOINT_LENGTH then EndpointOf(Fields(mem, at, ENDPOINT_FORMAT, order))
    else ZERO_ENDPOINT
  }

  function ParseEndpoint(mem: Memory, at: nat, size: int, order: Order): Result<Endpoint> {
    var len := mem(at);
    if len > size then Err(-1)
    else if mem(at + 1) != DT_ENDPOINT then Ok(ZERO_ENDPOINT, 0)
    else
      var skipped := Skip(mem, at + len, size - len, false);
      if skipped.None? then Err(-1)
      else
        var e := EndpointFields(mem, at, order);
        Ok(e.(extra := Slice(mem, at + len, skipped.value)), len + skipped.value)
  }

  function ParseEndpoints(mem: Memory, at: nat, size: int, count: nat, order: Order): Result<seq<Endpoint>>
    decreases count
  {
    if count == 0 then Ok([], 0)
    else if mem(at) > size then Err(ERROR_IO)
    else
      var first := ParseEndpoint(mem, at, size, order);
      if first.Err? then Err(first.code)
      else
        var rest := ParseEndpoints(mem, at + first.used, size - first.used, count - 1, order);
        if rest.Err? then Err(rest.code) else Ok([first.value] + rest.value, first.used + rest.used)
  }

  predicate StopsInterface(mem: Memory, at: nat, size: int) {
    size >= HEADER_LENGTH && (mem(at + 1) == DT_CONFIG || mem(at + 1) == DT_DEVICE)
  }

  /** One alternate setting, and whether a descriptor that belongs elsewhere cut it short. */
  function ParseAlt(mem: Memory, at: nat, size: int, order: Order): Result<(AltSetting, bool)> {
    var alt := AltSettingOf(InterfaceFields(mem, at));
    var len := mem(at);
    var skipped := Skip(mem, at + len, size - len, false);
    if skipped.None? then Err(ERROR_IO)
    else
      var used := len + skipped.value;
      var alt := alt.(extra := Slice(mem, at + len, skipped.value));
      if StopsInterface(mem, at + used, size - used) then Ok((alt, true), used)
      else if alt.bNumEndpoints > MAX_ENDPOINTS then Err(ERROR_IO)
      else
        var eps := ParseEndpoints(mem, at + used, size - used, alt.bNumEndpoints, order);
        if eps.Err? then Err(eps.code) else Ok((alt.(endpoints := eps.value), false), used + eps.used)
  }

  function InterfaceFields(mem: Memory, at: nat): (fs: seq<nat>)
    ensures |fs| == 9
  {
    FieldsLength(mem, at, INTERFACE_FORMAT, LittleEndian);
    Fields(mem, at, INTERFACE_FORMAT, LittleEndian)
  }

  function ConfigFields(mem: Memory, at: nat, order: Order): (fs: seq<nat>)
    ensures |fs| == 8
  {
    FieldsLength(mem, at, CONFIG_FORMAT, order);
    Fields(mem, at, CONFIG_FORMAT, order)
  }

  lemma {:induction false} FieldsLength(mem: Memory, at: nat, format: string, order: Order)
    requires forall i :: 0 <= i < |format| ==> format[i] == 'b' || format[i] == 'w'
    ensures |Fields(mem, at, format, order)| == |format|
    decreases |format|
  {
    if format != "" {
      FieldsLength(mem, at + 1, format[1..], order);
      FieldsLength(mem, at + 2, format[1..], order);
    }
  }

  /** Another alternate setting of the same interface follows. */
  predicate AlternateFollows(mem: Memory, at: nat, size: int) {
    size >= INTERFACE_LENGTH && mem(at + 1) == DT_INTERFACE && mem(at + 3) != 0
  }

  lemma AltUsesBytes(mem: Memory, at: nat, size: int, order: Order)
    requires size >= INTERFACE_LENGTH && ParseAlt(mem, at, size, order).Ok?
    ensures ParseAlt(mem, at, size, order).used > 0
  {
    hide ParseEndpoints, InterfaceFields, AltSettingOf;
  }

  function ParseInterface(mem: Memory, at: nat, size: int, order: Order): Result<Interface>
    decreases if size < 0 then 0 else size
  {
    if size < INTERFACE_LENGTH then Ok([], 0)
    else
      var first := ParseAlt(mem, at, size, order);
      if first.Err? then Err(first.code)
      else if first.value.1 || !AlternateFollows(mem, at + first.used, size - first.used) then
        Ok([first.value.0], first.used)
      else
        AltUsesBytes(mem, at, size, order);
        var rest := ParseInterface(mem, at + first.used, size - first.used, order);
        if rest.Err? then Err(rest.code) else Ok([first.value.0] + rest.value, first.used + rest.used)
  }

  /** `count` interfaces, and the configuration's extra bytes: the first that were found. */
  function ParseInterfaces(mem: Memory, at: nat, size: int, count: nat, extra: seq<Byte>, order: Order):
    Result<(seq<Interface>, seq<Byte>)>
    decreases count
  {
    if count == 0 then Ok(([], extra), 0)
    else
      var skipped := Skip(mem, at, size, true);
      if skipped.None? then Err(ERROR_IO)
      else
        var n := skipped.value;
        var kept := if extra == [] then Slice(mem, at, n) else extra;
        var first := ParseInterface(mem, at + n, size - n, order);
        if first.Err? then Err(first.code)
        else
          var used := n + first.used;
          var rest := ParseInterfaces(mem, at + used, size - used, count - 1, kept, order);
          if rest.Err? then Err(rest.code)
          else Ok(([first.value] + rest.value.0, rest.value.1), used + rest.used)
  }

  /** The whole configuration; what is left of `wTotalLength` is the parser's return value. */
  function ParseConfiguration(mem: Memory, at: nat, order: Order): Result<Config> {
    var c := ConfigOf(ConfigFields(mem, at, order));
    if c.bNumInterfaces > MAX_INTERFACES then Err(ERROR_IO)
    else
      var len := mem(at);
      var body := ParseInterfaces(mem, at + len, c.wTotalLength - len, c.bNumInterfaces, [], order);
      if body.Err? then Err(body.code)
      else Ok(c.(extra := body.value.1, interfaces := body.value.0), len + body.used)
  }

  function Leftover(r: Result<Config>): int
    requires r.Ok?
  {
    r.value.wTotalLength - r.used
  }
}
