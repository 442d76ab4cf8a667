/** Where the skipping loop stops, when it and the settings loop fail, and when a setting is cut short. */
module UsbErrors {
  import opened Options
  import opened Bytes
  import opened UsbDescriptor
  import opened UsbSerializer

  /** The loop stops before a descriptor of a device, a configuration, an interface or an endpoint, and no other. */
  lemma {:induction false} SkipStopsAt(mem: Memory, at: nat, size: int, bounded: bool)
    requires size >= 2
    ensures Skip(mem, at, size, bounded) == Some(0)
       <==> && mem(at) >= 2 && (bounded ==> mem(at) <= size)
            && (mem(at + 1) == 1 || mem(at + 1) == 2 || mem(at + 1) == 4 || mem(at + 1) == 5)
  {
  }

  /** Behind `n` bytes of other descriptors comes one of an invalid length. */
  ghost predicate BadLength(mem: Memory, at: nat, size: int, bounded: bool, n: nat) {
    && ExtraOk(Slice(mem, at, n)) && size - n >= 2
    && (mem(at + n) < 2 || (bounded && mem(at + n) > size - n))
  }

  lemma OneMore(mem: Memory, at: nat, n: nat)
    requires mem(at) >= 2 && !Proper(mem(at + 1)) && mem(at) <= n
    ensures ExtraOk(Slice(mem, at, n)) <==> ExtraOk(Slice(mem, at + mem(at), n - mem(at)))
  {
    var s := Slice(mem, at, n);
    assert s[0] == mem(at + 0) && s[1] == mem(at + 1);
    assert s[s[0]..] == Slice(mem, at + mem(at), n - mem(at));
  }

  lemma FirstOther(mem: Memory, at: nat, n: nat)
    requires n > 0 && ExtraOk(Slice(mem, at, n))
    ensures 2 <= mem(at) <= n && !Proper(mem(at + 1))
  {
    var s := Slice(mem, at, n);
    assert s[0] == mem(at + 0) && s[1] == mem(at + 1);
  }

  /** The loop fails exactly if it comes to such a length. */
  lemma {:induction false} SkipFailsExactly(mem: Memory, at: nat, size: int, bounded: bool)
    ensures Skip(mem, at, size, bounded).None? <==> exists n: nat :: BadLength(mem, at, size, bounded, n)
    decreases if size < 0 then 0 else size
  {
    hide ExtraOk;
    if size >= 2 {
      var len := mem(at);
      EmptyRun(mem, at);
      if len < 2 || (bounded && len > size) {
        assert BadLength(mem, at, size, bounded, 0);
      } else if Proper(mem(at + 1)) {
        forall n: nat
          ensures !BadLength(mem, at, size, bounded, n)
        {
          if n > 0 && ExtraOk(Slice(mem, at, n)) {
            FirstOther(mem, at, n);
          }
        }
      } else {
        var next, left := at + len, size - len;
        SkipFailsExactly(mem, next, left, bounded);
        if n: nat :| BadLength(mem, next, left, bounded, n) {
          OneMore(mem, at, len + n);
          assert BadLength(mem, at, size, bounded, len + n);
        }
        if n: nat :| BadLength(mem, at, size, bounded, n) {
          BadLater(mem, at, size, bounded, n);
        }
      }
    }
  }

  lemma BadLater(mem: Memory, at: nat, size: int, bounded: bool, n: nat)
    requires BadLength(mem, at, size, bounded, n)
    requires mem(at) >= 2 && !(bounded && mem(at) > size)
    ensures mem(at) <= n && BadLength(mem, at + mem(at), size - mem(at), bounded, n - mem(at))
  {
    hide ExtraOk;
    if n > 0 {
      FirstOther(mem, at, n);
      OneMore(mem, at, n);
    }
  }

  lemma EmptyRun(mem: Memory, at: nat)
    ensures ExtraOk(Slice(mem, at, 0))
  {
  }

  /**
   * An alternate setting is cut short exactly if a descriptor of a device or a configuration follows
   * its extra ones, and then it keeps those and has no endpoints, however many it announces.
   */
  lemma {:induction false} CutShort(mem: Memory, at: nat, size: int, order: Order)
    ensures var r, len := ParseAlt(mem, at, size, order), mem(at);
      var skipped := Skip(mem, at + len, size - len, false);
      && (r.Ok? && r.value.1 <==>
            skipped.Some? && size - len - skipped.value >= 2
            && (mem(at + len + skipped.value + 1) == 1 || mem(at + len + skipped.value + 1) == 2))
      && (r.Ok? ==> skipped.Some? && r.value.0.extra == Slice(mem, at + len, skipped.value))
      && (r.Ok? && r.value.1 ==> r.value.0.endpoints == [] && r.used == len + skipped.value)
      && (r.Ok? && !r.value.1 ==> |r.value.0.endpoints| == r.value.0.bNumEndpoints <= 32)
  {
    hide Skip, InterfaceFields, Slice;
    var len := mem(at);
    var skipped := Skip(mem, at + len, size - len, false);
    if skipped.Some? {
      var used, count := len + skipped.value, AltSettingOf(InterfaceFields(mem, at)).bNumEndpoints;
      EndpointCounts(mem, at + used, size - used, count, order);
      hide ParseEndpoints;
    }
  }

  lemma {:induction false} EndpointCounts(mem: Memory, at: nat, size: int, count: nat, order: Order)
    ensures var r := ParseEndpoints(mem, at, size, count, order); r.Ok? ==> |r.value| == count
    decreases count
  {
    hide ParseEndpoint;
    if count > 0 {
      var first := ParseEndpoint(mem, at, size, order);
      if first.Ok? {
        EndpointCounts(mem, at + first.used, size - first.used, count - 1, order);
      }
    }
  }
}
