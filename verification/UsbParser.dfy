/** The parser itself: three nested loops that advance `buffer` and account for it twice. */
module UsbParser {
  import opened Options
  import opened Bytes
  import opened UsbDescriptor

  lemma HeaderFields(mem: Memory, at: nat)
    ensures Fields(mem, at, "bb", LittleEndian) == [mem(at), mem(at + 1)]
  {
    assert "bb"[1..] == "b" && "b"[1..] == "";
    assert Fields(mem, at + 2, "", LittleEndian) == [];
  }

  method ParseHeader(mem: Memory, buffer: nat) returns (bLength: Byte, bDescriptorType: Byte)
    ensures bLength == mem(buffer) && bDescriptorType == mem(buffer + 1)
  {
    var header, n := ParseDescriptor(mem, buffer, "bb", LittleEndian);
    HeaderFields(mem, buffer);
    bLength, bDescriptorType := header[0], header[1];
  }

  /** The loop that passes over class and vendor descriptors. It strictly shrinks `size`. */
  method SkipOthers(mem: Memory, begin: nat, available: int, bounded: bool)
    returns (ok: bool, buffer: nat, size: int)
    ensures ok <==> Skip(mem, begin, available, bounded).Some?
    ensures ok ==> begin <= buffer && buffer - begin == available - size
    ensures ok ==> buffer - begin == Skip(mem, begin, available, bounded).value
  {
    buffer, size := begin, available;
    while size >= HEADER_LENGTH
      invariant begin <= buffer && buffer - begin == available - size
      invariant var rest := Skip(mem, buffer, size, bounded);
        Skip(mem, begin, available, bounded)
        == if rest.None? then rest else Some(buffer - begin + rest.value)
      decreases size
    {
      var bLength, bDescriptorType := ParseHeader(mem, buffer);
      if (bounded && bLength > size) || bLength < HEADER_LENGTH {
        ok := false;
        return;
      }
      if Proper(bDescriptorType) {
        break;
      }
      buffer := buffer + bLength;
      size := size - bLength;
    }
    ok := true;
  }

  /** `memcpy` of the passed-over descriptors. */
  method CopyExtra(mem: Memory, begin: nat, len: nat) returns (extra: seq<Byte>)
    ensures extra == Slice(mem, begin, len)
  {
    extra := [];
    for i := 0 to len
      invariant |extra| == i && forall k :: 0 <= k < i ==> extra[k] == mem(begin + k)
    {
      extra := extra + [mem(begin + i)];
    }
  }

  /** `parse_endpoint`: the bytes it took, or a negative code. */
  method ParseEndpointAt(mem: Memory, start: nat, available: int, order: Order)
    returns (parsed: int, endpoint: Endpoint)
    ensures match ParseEndpoint(mem, start, available, order)
      case Ok(e, used) => parsed == used && endpoint == e
      case Err(code) => parsed == code < 0
  {
    hide Fields, Skip, EndpointOf;
    endpoint := ZERO_ENDPOINT;
    var bLength, bDescriptorType := ParseHeader(mem, start);
    if bLength > available {
      return -1, endpoint;
    }
    if bDescriptorType != DT_ENDPOINT {
      return 0, endpoint;
    }
    if bLength >= ENDPOINT_AUDIO_LENGTH {
      var fs, n := ParseDescriptor(mem, start, ENDPOINT_AUDIO_FORMAT, order);
      endpoint := EndpointOf(fs);
    } else if bLength >= ENDPOINT_LENGTH {
      var fs, n := ParseDescriptor(mem, start, ENDPOINT_FORMAT, order);
      endpoint := EndpointOf(fs);
    }
    var begin: nat := start + bLength;
    var ok, buffer, size := SkipOthers(mem, begin, available - bLength, false);
    if !ok {
      return -1, endpoint;
    }
    var extra := CopyExtra(mem, begin, buffer - begin);
    endpoint := endpoint.(extra := extra);
    parsed := bLength + (buffer - begin);
  }

  /** A list parser's result, from what its loop has collected and what it has yet to parse. */
  ghost predicate Extends<T>(whole: Result<seq<T>>, before: seq<T>, used: int, rest: Result<seq<T>>) {
    if rest.Err? then whole == rest
    else whole.Ok? && whole.value == before + rest.value && whole.used == used + rest.used
  }

  /** The loop over the endpoints of one alternate setting. */
  method ParseEndpointList(mem: Memory, start: nat, available: int, count: nat, order: Order)
    returns (r: int, buffer: nat, size: int, endpoints: seq<Endpoint>)
    ensures match ParseEndpoints(mem, start, available, count, order)
      case Ok(es, used) => r >= 0 && buffer - start == available - size == used && endpoints == es
      case Err(code) => r == code < 0
  {
    hide ParseEndpoint;
    buffer, size, endpoints, r := start, available, [], 0;
    var i := 0;
    while i < count
      invariant i <= count && r >= 0 && start <= buffer && buffer - start == available - size
      invariant Extends(ParseEndpoints(mem, start, available, count, order),
                        endpoints, buffer - start, ParseEndpoints(mem, buffer, size, count - i, order))
    {
      var bLength, bDescriptorType := ParseHeader(mem, buffer);
      if bLength > size {
        return ERROR_IO, buffer, size, endpoints;
      }
      var parsed, endpoint := ParseEndpointAt(mem, buffer, size, order);
      if parsed < 0 {
        return parsed, buffer, size, endpoints;
      }
      ghost var later := ParseEndpoints(mem, buffer + parsed, size - parsed, count - i - 1, order);
      if later.Ok? {
        assert endpoints + ([endpoint] + later.value) == endpoints + [endpoint] + later.value;
      }
      endpoints := endpoints + [endpoint];
      buffer := buffer + parsed;
      size := size - parsed;
      i := i + 1;
    }
  }

  /** The body of `parse_interface`'s loop: one alternate setting with its endpoints. */
  method ParseAltAt(mem: Memory, start: nat, available: int, order: Order)
    returns (r: int, buffer: nat, size: int, alt: AltSetting, stop: bool)
    ensures match ParseAlt(mem, start, available, order)
      case Ok(v, used) => r >= 0 && buffer - start == available - size == used && v == (alt, stop)
      case Err(code) => r == code < 0
  {
    hide ParseEndpoints, Fields, Skip;
    var ifp, n := ParseDescriptor(mem, start, INTERFACE_FORMAT, LittleEndian);
    assert ifp == InterfaceFields(mem, start);
    alt, stop, r := AltSettingOf(ifp), false, 0;
    var begin: nat := start + mem(start);
    var ok;
    ok, buffer, size := SkipOthers(mem, begin, available - mem(start), false);
    if !ok {
      return ERROR_IO, buffer, size, alt, stop;
    }
    var extra := CopyExtra(mem, begin, buffer - begin);
    alt := alt.(extra := extra);
    if StopsInterface(mem, buffer, size) {
      stop := true;
      return;
    }
    if alt.bNumEndpoints > MAX_ENDPOINTS {
      return ERROR_IO, buffer, size, alt, stop;
    }
    var endpoints;
    r, buffer, size, endpoints := ParseEndpointList(mem, buffer, size, alt.bNumEndpoints, order);
    if r >= 0 {
      alt := alt.(endpoints := endpoints);
    }
  }

  /** What the rest of an interface adds, once its next setting is parsed. */
  lemma InterfaceStep(mem: Memory, at: nat, size: int, order: Order)
    requires size >= INTERFACE_LENGTH
    ensures var first := ParseAlt(mem, at, size, order); var whole := ParseInterface(mem, at, size, order);
      && (first.Err? ==> whole == Err(first.code))
      && (first.Ok? ==>
            && first.used > 0
            && (first.value.1 || !AlternateFollows(mem, at + first.used, size - first.used)
                ==> whole == Ok([first.value.0], first.used))
            && (!first.value.1 && AlternateFollows(mem, at + first.used, size - first.used)
                ==> Extends(whole, [first.value.0], first.used,
                            ParseInterface(mem, at + first.used, size - first.used, order))))
  {
    hide ParseAlt;
    if ParseAlt(mem, at, size, order).Ok? {
      AltUsesBytes(mem, at, size, order);
    }
  }

  lemma ExtendsMore<T>(whole: Result<seq<T>>, before: seq<T>, used: int, rest: Result<seq<T>>,
                       next: T, n: int, later: Result<seq<T>>)
    requires Extends(whole, before, used, rest) && Extends(rest, [next], n, later)
    ensures Extends(whole, before + [next], used + n, later)
  {
    if later.Ok? {
      assert before + ([next] + later.value) == before + [next] + later.value;
    }
  }

  lemma ExtendsAll<T>(whole: Result<seq<T>>, before: seq<T>, used: int, rest: Result<seq<T>>)
    requires Extends(whole, before, used, rest) && rest.Ok?
    ensures whole == Ok(before + rest.value, used + rest.used)
  {
  }

  lemma ExtendsError<T>(whole: Result<seq<T>>, before: seq<T>, used: int, rest: Result<seq<T>>)
    requires Extends(whole, before, used, rest) && rest.Err?
    ensures whole == rest
  {
  }

  lemma NothingExtends<T>(whole: Result<seq<T>>)
    ensures Extends(whole, [], 0, whole)
  {
    assert whole.Ok? ==> [] + whole.value == whole.value;
  }

  lemma NoInterface(mem: Memory, at: nat, size: int, order: Order)
    requires size < INTERFACE_LENGTH
    ensures ParseInterface(mem, at, size, order) == Ok([], 0)
  {
  }

  /** `parse_interface`; on an error everything collected so far is dropped. */
  method ParseInterfaceAt(mem: Memory, start: nat, available: int, order: Order)
    returns (parsed: int, altsetting: Interface)
    ensures match ParseInterface(mem, start, available, order)
      case Ok(alts, used) => parsed == used && altsetting == alts
      case Err(code) => parsed == code < 0 && altsetting == []
  {
    hide ParseAlt, ParseInterface, Extends, AlternateFollows;
    var buffer, size := start, available;
    parsed, altsetting := 0, [];
    ghost var whole := ParseInterface(mem, start, available, order);
    NothingExtends(whole);
    while size >= INTERFACE_LENGTH
      invariant parsed == buffer - start == available - size >= 0
      invariant Extends(whole, altsetting, parsed, ParseInterface(mem, buffer, size, order))
      decreases size
    {
      ghost var rest := ParseInterface(mem, buffer, size, order);
      InterfaceStep(mem, buffer, size, order);
      var r, next, left, alt, stop := ParseAltAt(mem, buffer, size, order);
      if r < 0 {
        ExtendsError(whole, altsetting, parsed, rest);
        return r, [];
      }
      ghost var before, n := altsetting, next - buffer;
      altsetting := altsetting + [alt];
      parsed := parsed + (next - buffer);
      buffer, size := next, left;
      if stop || !AlternateFollows(mem, buffer, size) {
        ExtendsAll(whole, before, parsed - n, rest);
        return;
      }
      ExtendsMore(whole, before, parsed - n, rest, alt, n, ParseInterface(mem, buffer, size, order));
    }
    NoInterface(mem, buffer, size, order);
    ExtendsAll(whole, altsetting, parsed, Ok([], 0));
    assert altsetting + [] == altsetting;
  }

  ghost predicate ExtendsBody(whole: Result<(seq<Interface>, seq<Byte>)>, before: seq<Interface>, used: int,
                              rest: Result<(seq<Interface>, seq<Byte>)>)
  {
    if rest.Err? then whole == rest
    else
      && whole.Ok? && whole.value.0 == before + rest.value.0 && whole.value.1 == rest.value.1
      && whole.used == used + rest.used
  }

  /** The loop over the interfaces of a configuration; `r` is what is left over. */
  method ParseInterfaceList(mem: Memory, start: nat, available: int, count: nat, order: Order)
    returns (r: int, ok: bool, buffer: nat, interfaces: seq<Interface>, extra: seq<Byte>)
    ensures match ParseInterfaces(mem, start, available, count, [], order)
      case Ok(v, used) => ok && v == (interfaces, extra) && buffer - start == available - r == used
      case Err(code) => !ok && r == code
  {
    hide ParseInterface, Skip;
    var size: int;
    buffer, size, interfaces, extra := start, available, [], [];
    r, ok := 0, true;
    var i := 0;
    while i < count
      invariant i <= count && ok && start <= buffer && buffer - start == available - size
      invariant ExtendsBody(ParseInterfaces(mem, start, available, count, [], order),
                            interfaces, buffer - start, ParseInterfaces(mem, buffer, size, count - i, extra, order))
    {
      var found, next, left := SkipOthers(mem, buffer, size, true);
      if !found {
        r, ok := ERROR_IO, false;
        return;
      }
      if next != buffer && extra == [] {
        extra := CopyExtra(mem, buffer, next - buffer);
      }
      var parsed, altsetting := ParseInterfaceAt(mem, next, left, order);
      if parsed < 0 {
        r, ok := parsed, false;
        return;
      }
      ghost var later := ParseInterfaces(mem, next + parsed, left - parsed, count - i - 1, extra, order);
      if later.Ok? {
        assert interfaces + ([altsetting] + later.value.0) == interfaces + [altsetting] + later.value.0;
      }
      interfaces := interfaces + [altsetting];
      buffer, size := next + parsed, left - parsed;
      i := i + 1;
    }
    assert interfaces + [] == interfaces;
    r := size;
  }

  /**
   * `parse_configuration`: the result is what is left of `wTotalLength`, whatever the bytes
   * are; `end` is where the buffer pointer stops.
   */
  method ParseConfigurationAt(mem: Memory, start: nat, order: Order)
    returns (r: int, ok: bool, config: Config, ghost end: nat)
    ensures match ParseConfiguration(mem, start, order)
      case Ok(c, used) => ok && config == c && r == c.wTotalLength - used
      case Err(code) => !ok && r == code
    ensures ok ==> end - start == ParseConfiguration(mem, start, order).used
  {
    hide Fields, ParseInterfaces;
    var fs, n := ParseDescriptor(mem, start, CONFIG_FORMAT, order);
    assert fs == ConfigFields(mem, start, order);
    config, ok, end := ConfigOf(fs), false, start;
    if config.bNumInterfaces > MAX_INTERFACES {
      r := ERROR_IO;
      return;
    }
    var interfaces, extra, buffer;
    r, ok, buffer, interfaces, extra :=
      ParseInterfaceList(mem, start + mem(start), config.wTotalLength - mem(start), config.bNumInterfaces, order);
    config, end := config.(extra := extra, interfaces := interfaces), buffer;
  }
}
