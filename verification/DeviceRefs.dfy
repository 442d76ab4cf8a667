/** Reference counting of USB devices: lists, open handles and explicit references. */
module DeviceRefs {
  import opened Options

  /** A device is on its context's list exactly while somebody holds a reference to it. */
  class Device {
    var refcnt: int
    const session: nat

    constructor (session: nat)
      ensures refcnt == 1 && this.session == session
    {
      refcnt, this.session := 1, session;
    }
  }

  class Handle {
    const dev: Device

    constructor (dev: Device)
      ensures this.dev == dev
    {
      this.dev := dev;
    }
  }

  // ----- who holds references -----

  ghost function ListRefs(lists: seq<seq<Device>>): multiset<Device> {
    if lists == [] then multiset{} else multiset(lists[0]) + ListRefs(lists[1..])
  }

  ghost function HandleRefs(handles: seq<Handle>): multiset<Device> {
    if handles == [] then multiset{} else multiset{handles[0].dev} + HandleRefs(handles[1..])
  }

  lemma {:induction false} ListRefsCons(list: seq<Device>, lists: seq<seq<Device>>)
    ensures ListRefs([list] + lists) == multiset(list) + ListRefs(lists)
  {
    assert ([list] + lists)[1..] == lists;
  }

  lemma {:induction false} HandleRefsCons(handle: Handle, handles: seq<Handle>)
    ensures HandleRefs([handle] + handles) == multiset{handle.dev} + HandleRefs(handles)
  {
    assert ([handle] + handles)[1..] == handles;
  }

  lemma {:induction false} ListRefsRemove(lists: seq<seq<Device>>, k: nat)
    requires k < |lists|
    ensures ListRefs(lists) == ListRefs(lists[..k] + lists[k + 1..]) + multiset(lists[k])
  {
    if k == 0 {
      assert lists[..0] + lists[1..] == lists[1..];
    } else {
      ListRefsRemove(lists[1..], k - 1);
      assert (lists[..k] + lists[k + 1..])[1..] == lists[1..][..k - 1] + lists[1..][k..];
    }
  }

  lemma {:induction false} HandleRefsRemove(handles: seq<Handle>, k: nat)
    requires k < |handles|
    ensures HandleRefs(handles) == HandleRefs(handles[..k] + handles[k + 1..]) + multiset{handles[k].dev}
  {
    if k == 0 {
      assert handles[..0] + handles[1..] == handles[1..];
    } else {
      HandleRefsRemove(handles[1..], k - 1);
      assert (handles[..k] + handles[k + 1..])[1..] == handles[1..][..k - 1] + handles[1..][k..];
    }
  }

  /** `after` is `before` with one entry taken out. */
  ghost predicate Removed(before: seq<Handle>, after: seq<Handle>, handle: Handle) {
    exists k :: 0 <= k < |before| && before[k] == handle && after == before[..k] + before[k + 1..]
  }

  ghost predicate NoDup(devs: seq<Device>) {
    forall i, j :: 0 <= i < j < |devs| ==> devs[i] != devs[j]
  }

  /** No two devices are of one session. */
  ghost predicate OneEach(devs: seq<Device>) {
    forall d, e :: d in devs && e in devs && d.session == e.session ==> d == e
  }

  /** Every count is the number of references held, and is positive exactly for listed devices. */
  ghost predicate Counted(devs: seq<Device>, refs: multiset<Device>)
    reads devs
  {
    && NoDup(devs)
    && (forall d :: d in devs ==> d.refcnt == refs[d] > 0)
    && (forall d :: d in refs ==> d in devs)
  }

  lemma {:induction false} CountedLists(devs: seq<Device>, refs: multiset<Device>)
    requires Counted(devs, refs)
    ensures forall d :: d in devs <==> d in refs
    ensures Sessions(refs) == set d | d in devs :: d.session
  {
  }

  /** The list without one device. */
  function Without(devs: seq<Device>, dev: Device): (r: seq<Device>)
    ensures forall d :: d in r ==> d in devs
    ensures forall d :: d in devs && d != dev ==> d in r
  {
    if devs == [] then [] else if devs[0] == dev then devs[1..] else [devs[0]] + Without(devs[1..], dev)
  }

  lemma {:induction false} WithoutNoDup(devs: seq<Device>, dev: Device)
    requires NoDup(devs)
    ensures NoDup(Without(devs, dev)) && dev !in Without(devs, dev)
  {
    if devs != [] && devs[0] != dev {
      WithoutNoDup(devs[1..], dev);
      assert devs[0] !in devs[1..];
    }
  }

  lemma CountedAt(devs: seq<Device>, refs: multiset<Device>, dev: Device)
    requires Counted(devs, refs) && dev in refs
    ensures dev in devs && dev.refcnt == refs[dev] && dev !in Without(devs, dev)
  {
    WithoutNoDup(devs, dev);
  }

  // ----- discovery -----

  const DISCOVERED_STEP := 8

  class DiscoveredDevs {
    var devices: seq<Device>
    var capacity: nat

    constructor ()
      ensures devices == [] && capacity == DISCOVERED_STEP && Valid()
    {
      devices, capacity := [], DISCOVERED_STEP;
    }

    /** The capacity is the least one the growing steps reach. */
    predicate Valid()
      reads this
    {
      && capacity % DISCOVERED_STEP == 0
      && |devices| <= capacity
      && (capacity == DISCOVERED_STEP || capacity < |devices| + DISCOVERED_STEP)
      && 0 < capacity
    }
  }

  /** What a backend meets when it probes one location, and whether each allocation succeeds. */
  datatype Probe = Probe(session: nat, memory: bool, usable: bool, room: bool)

  ghost function Sessions(refs: multiset<Device>): set<nat> {
    set d | d in refs :: d.session
  }

  /** The discovered list must grow before it takes another device. */
  predicate BlockFull(len: nat) {
    0 < len && len % DISCOVERED_STEP == 0
  }

  /** The session is known, or one of the probes listed by now has it. */
  ghost predicate Known(probes: seq<Probe>, known: set<nat>, ks: seq<nat>, session: nat)
    requires InOrder(probes, ks)
  {
    session in known || exists j :: 0 <= j < |ks| && probes[ks[j]].session == session
  }

  ghost predicate InOrder(probes: seq<Probe>, ks: seq<nat>) {
    && (forall i :: 0 <= i < |ks| ==> ks[i] < |probes|)
    && (forall i, j :: 0 <= i < j < |ks| ==> ks[i] < ks[j])
  }

  /** Probe `k` comes when exactly the first `i` listed ones have come. */
  predicate Between(ks: seq<nat>, i: nat, k: nat)
    requires i <= |ks|
  {
    (i > 0 ==> ks[i - 1] < k) && (i < |ks| ==> k < ks[i])
  }

  /** A probe gives a device unless it is unusable, or memory for a new one or for a larger list is lacking. */
  ghost predicate Gives(probes: seq<Probe>, known: set<nat>, ks: seq<nat>, k: nat)
    requires k < |probes| && InOrder(probes, ks)
  {
    && probes[k].usable
    && (probes[k].memory || Known(probes, known, ks, probes[k].session))
    && (probes[k].room || !BlockFull(|ks|))
  }

  /** `ks` are exactly the probes that are listed, by index, where `known` are the sessions known before. */
  ghost predicate Listed(probes: seq<Probe>, known: set<nat>, ks: seq<nat>) {
    && InOrder(probes, ks)
    && (forall i :: 0 <= i < |ks| ==> Gives(probes, known, ks[..i], ks[i]))
    && (forall i, k :: 0 <= i <= |ks| && 0 <= k < |probes| && Between(ks, i, k) ==>
          !Gives(probes, known, ks[..i], k))
  }

  /** One probe more. */
  lemma {:induction false} ListedStep(probes: seq<Probe>, known: set<nat>, ks: seq<nat>, p: Probe)
    requires Listed(probes, known, ks)
    ensures InOrder(probes + [p], ks)
    ensures Listed(probes + [p], known,
                   if Gives(probes + [p], known, ks, |probes|) then ks + [|probes|] else ks)
  {
    hide Gives;
    var all, n := probes + [p], |probes|;
    var next := if Gives(all, known, ks, n) then ks + [n] else ks;
    assert ks[..|ks|] == ks;
    forall i, k | 0 <= i <= |ks| && 0 <= k < n
      ensures InOrder(probes, ks[..i]) && Gives(all, known, ks[..i], k) == Gives(probes, known, ks[..i], k)
    {
      GivesMore(probes, known, ks[..i], k, p);
    }
    forall i | 0 <= i < |next|
      ensures Gives(all, known, next[..i], next[i])
    {
      assert next[..i] == ks[..i];
      if i < |ks| {
        assert Gives(probes, known, ks[..i], ks[i]);
      }
    }
    forall i, k | 0 <= i <= |next| && 0 <= k < |all| && Between(next, i, k)
      ensures !Gives(all, known, next[..i], k)
    {
      if i <= |ks| {
        assert next[..i] == ks[..i];
        assert k < n ==> Between(ks, i, k);
      }
    }
  }

  lemma GivesMore(probes: seq<Probe>, known: set<nat>, ks: seq<nat>, k: nat, p: Probe)
    requires InOrder(probes, ks) && k < |probes|
    ensures InOrder(probes + [p], ks) && Gives(probes + [p], known, ks, k) == Gives(probes, known, ks, k)
  {
    assert forall j :: 0 <= j < |ks| ==> (probes + [p])[ks[j]] == probes[ks[j]];
  }

  /** Which probes are listed is determined. */
  lemma {:induction false} ListedUnique(probes: seq<Probe>, known: set<nat>, a: seq<nat>, b: seq<nat>, n: nat)
    requires Listed(probes, known, a) && Listed(probes, known, b) && n <= |a|
    ensures n <= |b| && a[..n] == b[..n]
    decreases n
  {
    hide Gives;
    if n > 0 {
      ListedUnique(probes, known, a, b, n - 1);
      var i := n - 1;
      assert Gives(probes, known, a[..i], a[i]);
      assert i > 0 ==> a[i - 1] == a[..i][i - 1] == b[..i][i - 1] == b[i - 1];
      assert a[..n] == a[..i] + [a[i]] && b[..n] == b[..i] + [b[i]];
    }
  }

  lemma {:induction false} OrderRises(probes: seq<Probe>, ks: seq<nat>, i: nat)
    requires InOrder(probes, ks) && i < |ks|
    ensures i <= ks[i] < |probes|
    decreases i
  {
    if i > 0 {
      OrderRises(probes, ks, i - 1);
    }
  }

  /** If no probe is unusable or short of memory, all are listed. */
  lemma {:induction false} AllListed(probes: seq<Probe>, known: set<nat>, ks: seq<nat>, n: nat)
    requires Listed(probes, known, ks) && forall p :: p in probes ==> p.usable && p.memory && p.room
    requires n <= |probes|
    ensures n <= |ks| <= |probes| && forall i :: 0 <= i < n ==> ks[i] == i
  {
    if |ks| > 0 {
      OrderRises(probes, ks, |ks| - 1);
    }
    if n > 0 {
      AllListed(probes, known, ks, n - 1);
      assert probes[n - 1] in probes;
      assert n <= |ks| ==> n - 1 <= ks[n - 1] by {
        if n <= |ks| {
          OrderRises(probes, ks, n - 1);
        }
      }
      assert Between(ks, n - 1, n - 1) ==> !Gives(probes, known, ks[..n - 1], n - 1);
    }
  }

  lemma NothingListed(known: set<nat>)
    ensures Listed([], known, [])
  {
  }

  /** The devices are those of these probes. */
  predicate FromProbes(probes: seq<Probe>, ks: seq<nat>, devs: seq<Device>) {
    |devs| == |ks| && forall i :: 0 <= i < |ks| ==> ks[i] < |probes| && devs[i].session == probes[ks[i]].session
  }

  lemma KnownSessions(probes: seq<Probe>, ks: seq<nat>, refs: multiset<Device>, devs: seq<Device>, session: nat)
    requires InOrder(probes, ks) && FromProbes(probes, ks, devs)
    ensures Known(probes, Sessions(refs), ks, session) <==> session in Sessions(refs + multiset(devs))
  {
    if Known(probes, Sessions(refs), ks, session) && session !in Sessions(refs) {
      var j :| 0 <= j < |ks| && probes[ks[j]].session == session;
      assert devs[j] in refs + multiset(devs);
    }
    if session in Sessions(refs + multiset(devs)) && session !in Sessions(refs) {
      var d :| d in refs + multiset(devs) && d.session == session;
      assert d in devs;
      var j :| 0 <= j < |devs| && devs[j] == d;
      assert probes[ks[j]].session == session;
    }
  }

  /** The listing of the probes before `i`, once probe `i` has been made. */
  lemma {:induction false} DiscoveredStep(probes: seq<Probe>, i: nat, ks: seq<nat>, refs: multiset<Device>,
                                         found: seq<Device>, next: seq<Device>, ok: bool) returns (ks': seq<nat>)
    requires i < |probes| && Listed(probes[..i], Sessions(refs), ks) && FromProbes(probes[..i], ks, found)
    requires ok == (&& probes[i].usable && (probes[i].memory || probes[i].session in Sessions(refs + multiset(found)))
                    && (probes[i].room || !BlockFull(|found|)))
    requires !ok ==> next == found
    requires ok ==> |next| == |found| + 1 && found == next[..|found|] && next[|found|].session == probes[i].session
    ensures Listed(probes[..i + 1], Sessions(refs), ks') && FromProbes(probes[..i + 1], ks', next)
    ensures ok ==> refs + multiset(next) == refs + multiset(found) + multiset{next[|found|]}
  {
    hide Known, Sessions, Listed, InOrder;
    var before, p := probes[..i], probes[i];
    assert probes[..i + 1] == before + [p];
    ListedStep(before, Sessions(refs), ks, p);
    assert FromProbes(before + [p], ks, found);
    KnownSessions(before + [p], ks, refs, found, p.session);
    ks' := if ok then ks + [i] else ks;
    if ok {
      assert next == found + [next[|found|]];
    }
  }

  const ERROR_NO_MEM := -11
  const ERROR_OTHER := -99

  class Context {
    var usbDevs: seq<Device>
    var openDevs: seq<Handle>
    var pollfdModify: int
    ghost var lists: seq<seq<Device>>
    ghost var user: multiset<Device>

    constructor ()
      ensures Valid() && usbDevs == [] && openDevs == [] && lists == [] && user == multiset{}
    {
      usbDevs, openDevs, pollfdModify, lists, user := [], [], 0, [], multiset{};
    }

    /** All references: of live device lists, of open handles, and explicit ones. */
    ghost function Refs(): multiset<Device>
      reads this`lists, this`openDevs, this`user
    {
      ListRefs(lists) + HandleRefs(openDevs) + user
    }

    ghost function Devs(): set<Device>
      reads this
    {
      set d | d in usbDevs
    }

    /** Objects of the old list, and new ones. */
    twostate predicate OldOrNew()
      reads this
    {
      forall d :: d in usbDevs ==> d in old(usbDevs) || fresh(d)
    }

    ghost predicate Valid()
      reads this, usbDevs
    {
      Counted(usbDevs, Refs())
    }

    // ----- libusb_ref_device, libusb_unref_device, usbi_alloc_device -----

    method Ref(dev: Device, ghost refs: multiset<Device>)
      requires Counted(usbDevs, refs) && dev in usbDevs
      modifies dev
      ensures Counted(usbDevs, refs + multiset{dev}) && dev.refcnt == old(dev.refcnt) + 1
    {
      dev.refcnt := dev.refcnt + 1;
    }

    method Unref(dev: Device?, ghost refs: multiset<Device>)
      requires Counted(usbDevs, refs) && (dev != null ==> dev in refs)
      modifies this`usbDevs, dev
      ensures dev != null ==> Counted(usbDevs, refs - multiset{dev}) && dev.refcnt == old(dev.refcnt) - 1
      ensures dev == null ==> Counted(usbDevs, refs)
      ensures usbDevs == if dev != null && refs[dev] == 1 then Without(old(usbDevs), dev) else old(usbDevs)
    {
      if dev == null {
        return;
      }
      dev.refcnt := dev.refcnt - 1;
      if dev.refcnt == 0 {
        WithoutNoDup(usbDevs, dev);
        usbDevs := Without(usbDevs, dev);
      }
    }

    method AllocDevice(session: nat, ghost refs: multiset<Device>) returns (dev: Device)
      requires Counted(usbDevs, refs)
      modifies this`usbDevs
      ensures fresh(dev) && dev.session == session && usbDevs == [dev] + old(usbDevs)
      ensures Counted(usbDevs, refs + multiset{dev})
    {
      dev := new Device(session);
      usbDevs := [dev] + usbDevs;
    }

    /** `usbi_get_device_by_session_id`, which takes no reference. */
    method DeviceBySession(session: nat) returns (dev: Device?)
      ensures dev != null ==> dev in usbDevs && dev.session == session
      ensures dev == null ==> forall d :: d in usbDevs ==> d.session != session
    {
      for i := 0 to |usbDevs|
        invariant forall j :: 0 <= j < i ==> usbDevs[j].session != session
      {
        if usbDevs[i].session == session {
          return usbDevs[i];
        }
      }
      dev := null;
    }

    /** `discovered_devs_append`; false where the reallocation fails. */
    method Append(disc: DiscoveredDevs, dev: Device, room: bool, ghost refs: multiset<Device>) returns (ok: bool)
      requires Counted(usbDevs, refs) && dev in usbDevs && disc.Valid()
      modifies disc, dev
      ensures disc.Valid()
      ensures ok == (room || !BlockFull(old(|disc.devices|)))
      ensures disc.devices == if ok then old(disc.devices) + [dev] else old(disc.devices)
      ensures Counted(usbDevs, if ok then refs + multiset{dev} else refs)
    {
      if |disc.devices| >= disc.capacity {
        if !room {
          return false;
        }
        disc.capacity := disc.capacity + DISCOVERED_STEP;
      }
      Ref(dev, refs);
      disc.devices := disc.devices + [dev];
      ok := true;
    }

    /**
     * `process_new_device`: a device that is not known yet is created with a reference of its
     * own, which is dropped again however the attempt ends.
     */
    method ProcessNewDevice(disc: DiscoveredDevs, p: Probe, ghost refs: multiset<Device>) returns (ok: bool)
      requires Counted(usbDevs, refs) && disc.Valid()
      modifies this`usbDevs, disc, Devs()
      ensures disc.Valid() && OldOrNew() && (old(OneEach(usbDevs)) ==> OneEach(usbDevs))
      ensures ok == (&& p.usable && (p.memory || p.session in Sessions(refs))
                     && (p.room || !BlockFull(old(|disc.devices|))))
      ensures !ok ==> disc.devices == old(disc.devices) && Counted(usbDevs, refs)
      ensures ok ==> |disc.devices| == old(|disc.devices|) + 1
      ensures ok ==> old(disc.devices) == disc.devices[..old(|disc.devices|)]
      ensures ok ==> var d := disc.devices[old(|disc.devices|)];
                     d.session == p.session && Counted(usbDevs, refs + multiset{d})
    {
      hide Counted, NoDup, DiscoveredDevs.Valid;
      CountedLists(usbDevs, refs);
      var dev := DeviceBySession(p.session);
      ghost var held := refs;
      var needUnref := dev == null;
      if dev == null && p.memory {
        dev := AllocDevice(p.session, refs);
        held := refs + multiset{dev};
      }
      ok := false;
      if dev != null && p.usable {
        ok := Append(disc, dev, p.room, held);
        if ok {
          held := held + multiset{dev};
        }
      }
      if needUnref {
        Unref(dev, held);
        if dev != null {
          assert held - multiset{dev} == if ok then refs + multiset{dev} else refs;
        }
      }
    }

    /** Probes one location after the other; what a probe returns is ignored. */
    method Discover(disc: DiscoveredDevs, probes: seq<Probe>, ghost refs: multiset<Device>) returns (ghost ks: seq<nat>)
      requires Counted(usbDevs, refs) && disc.Valid() && disc.devices == []
      modifies this`usbDevs, disc, Devs()
      ensures OldOrNew() && (old(OneEach(usbDevs)) ==> OneEach(usbDevs))
      ensures Counted(usbDevs, refs + multiset(disc.devices))
      ensures Listed(probes, Sessions(refs), ks) && FromProbes(probes, ks, disc.devices)
    {
      hide Counted, NoDup, DiscoveredDevs.Valid, Sessions, Listed, BlockFull, OneEach;
      assert refs + multiset(disc.devices) == refs;
      ks := [];
      NothingListed(Sessions(refs));
      for i := 0 to |probes|
        invariant disc.Valid() && OldOrNew() && (old(OneEach(usbDevs)) ==> OneEach(usbDevs))
        invariant Counted(usbDevs, refs + multiset(disc.devices))
        invariant Listed(probes[..i], Sessions(refs), ks) && FromProbes(probes[..i], ks, disc.devices)
      {
        ghost var found := disc.devices;
        assert forall d :: d in usbDevs ==> d in old(usbDevs) || fresh(d);
        var ok := ProcessNewDevice(disc, probes[i], refs + multiset(found));
        ks := DiscoveredStep(probes, i, ks, refs, found, disc.devices, ok);
      }
      assert probes[..|probes|] == probes;
    }

    /** One reference less for every entry: the loop of `discovered_devs_free` and `libusb_free_device_list`. */
    method UnrefAll(devs: seq<Device>, ghost refs: multiset<Device>)
      requires Counted(usbDevs, refs) && multiset(devs) <= refs
      modifies this`usbDevs, Devs()
      ensures Counted(usbDevs, refs - multiset(devs)) && OldOrNew()
      ensures forall d :: d in usbDevs ==> d in old(usbDevs)
    {
      hide Counted, NoDup;
      assert refs - multiset(devs[..0]) == refs;
      for i := 0 to |devs|
        invariant Counted(usbDevs, refs - multiset(devs[..i])) && OldOrNew()
        invariant forall d :: d in usbDevs ==> d in old(usbDevs)
      {
        assert devs == devs[..i] + [devs[i]] + devs[i + 1..];
        assert devs[..i + 1] == devs[..i] + [devs[i]];
        CountedLists(usbDevs, refs - multiset(devs[..i]));
        assert devs[i] in usbDevs;
        Unref(devs[i], refs - multiset(devs[..i]));
        assert refs - multiset(devs[..i]) - multiset{devs[i]} == refs - multiset(devs[..i + 1]);
      }
      assert devs[..|devs|] == devs;
    }

    /** The loop that copies the discovered devices into the caller's list. */
    method RefAll(devs: seq<Device>, ghost refs: multiset<Device>) returns (list: seq<Device>)
      requires Counted(usbDevs, refs) && multiset(devs) <= refs
      modifies Devs()
      ensures Counted(usbDevs, refs + multiset(devs)) && list == devs
    {
      hide NoDup;
      list := [];
      for i := 0 to |devs|
        invariant list == devs[..i]
        invariant Counted(usbDevs, refs + multiset(devs[..i]))
      {
        assert devs[i] in multiset(devs);
        assert devs[..i + 1] == devs[..i] + [devs[i]];
        Ref(devs[i], refs + multiset(devs[..i]));
        list := list + [devs[i]];
      }
      assert devs[..|devs|] == devs;
    }

    // ----- the library's entry points -----

    ghost method AddList(list: seq<Device>)
      modifies this`lists
      ensures lists == [list] + old(lists) && Refs() == old(Refs()) + multiset(list)
    {
      ListRefsCons(list, lists);
      lists := [list] + lists;
    }

    method AddHandle(handle: Handle)
      modifies this`openDevs
      ensures openDevs == [handle] + old(openDevs) && Refs() == old(Refs()) + multiset{handle.dev}
    {
      HandleRefsCons(handle, openDevs);
      openDevs := [handle] + openDevs;
    }

    /**
     * `libusb_get_device_list`. `room` and `memory` say whether its two allocations succeed and
     * `backend` is what the backend's enumeration returns.
     */
    method GetDeviceList(probes: seq<Probe>, room: bool, backend: int, memory: bool)
      returns (r: int, list: seq<Device>, ghost ks: seq<nat>)
      requires Valid()
      modifies this`usbDevs, this`lists, Devs()
      ensures Valid() && OldOrNew() && (old(OneEach(usbDevs)) ==> OneEach(usbDevs))
      ensures r < 0 <==> !room || backend < 0 || !memory
      ensures r < 0 ==> r == (if room && backend < 0 then backend else ERROR_NO_MEM) && lists == old(lists)
      ensures r >= 0 ==> r == |list| && lists == [list] + old(lists)
      ensures r >= 0 ==> Listed(probes, old(Sessions(Refs())), ks) && FromProbes(probes, ks, list)
      ensures r >= 0 && (forall p :: p in probes ==> p.usable && p.memory && p.room) ==>
        |list| == |probes| && forall i :: 0 <= i < |list| ==> list[i].session == probes[i].session
    {
      hide Counted, NoDup, Listed, Sessions, Refs, ListRefs, HandleRefs, DiscoveredDevs.Valid;
      list, ks := [], [];
      if !room {
        return ERROR_NO_MEM, [], [];
      }
      var disc := new DiscoveredDevs();
      ghost var refs := Refs();
      ks := Discover(disc, probes, refs);
      assert forall d :: d in usbDevs ==> d in old(usbDevs) || fresh(d);
      r, list := Convert(disc.devices, backend, memory);
      if forall p :: p in probes ==> p.usable && p.memory && p.room {
        AllListed(probes, Sessions(refs), ks, |probes|);
      }
    }

    /** The end of `libusb_get_device_list`: on success the references of the discovered devices pass to the list. */
    method Convert(devices: seq<Device>, backend: int, memory: bool) returns (r: int, list: seq<Device>)
      requires Counted(usbDevs, Refs() + multiset(devices))
      modifies this`usbDevs, this`lists, Devs()
      ensures Counted(usbDevs, Refs()) && OldOrNew()
      ensures forall d :: d in usbDevs ==> d in old(usbDevs)
      ensures r < 0 <==> backend < 0 || !memory
      ensures r < 0 ==> r == (if backend < 0 then backend else ERROR_NO_MEM) && lists == old(lists)
      ensures r >= 0 ==> r == |list| && list == devices && lists == [list] + old(lists)
    {
      hide Counted, NoDup, Refs;
      ghost var found := Refs() + multiset(devices);
      list := [];
      if backend < 0 || !memory {
        r := if backend < 0 then backend else ERROR_NO_MEM;
        UnrefAll(devices, found);
        assert found - multiset(devices) == Refs();
        return;
      }
      r := |devices|;
      list := RefAll(devices, found);
      AddList(list);
      UnrefAll(devices, found + multiset(list));
      assert found + multiset(list) - multiset(devices) == found;
    }

    /** `libusb_free_device_list`; without the unreferencing, its references pass to the caller. */
    method FreeDeviceList(list: seq<Device>, unref: bool, ghost k: nat)
      requires Valid() && k < |lists| && list == lists[k]
      modifies this`usbDevs, this`lists, this`user, Devs()
      ensures Valid() && OldOrNew()
      ensures lists == old(lists[..k] + lists[k + 1..])
      ensures user == if unref then old(user) else old(user) + multiset(list)
    {
      hide Counted, NoDup, ListRefs, HandleRefs;
      ListRefsRemove(lists, k);
      ghost var refs := Refs();
      if unref {
        UnrefAll(list, refs);
      } else {
        user := user + multiset(list);
      }
      lists := lists[..k] + lists[k + 1..];
      assert Refs() == if unref then refs - multiset(list) else refs;
    }

    /** `libusb_ref_device`, called by whoever already holds a reference. */
    method RefDevice(dev: Device)
      requires Valid() && dev in Refs()
      modifies this`user, dev
      ensures Valid() && user == old(user) + multiset{dev} && dev.refcnt == old(dev.refcnt) + 1
    {
      Ref(dev, Refs());
      user := user + multiset{dev};
    }

    /** `libusb_unref_device`, called by a holder of an explicit reference. */
    method UnrefDevice(dev: Device?)
      requires Valid() && (dev != null ==> dev in user)
      modifies this`usbDevs, this`user, dev
      ensures Valid() && OldOrNew()
      ensures user == if dev == null then old(user) else old(user) - multiset{dev}
      ensures dev != null ==> (dev in usbDevs <==> old(dev.refcnt) > 1)
    {
      hide Counted, NoDup, Refs;
      if dev != null {
        ghost var refs := Refs();
        DropUser(dev);
        CountedAt(usbDevs, refs, dev);
        Unref(dev, refs);
      }
    }

    ghost method DropUser(dev: Device)
      requires dev in user
      modifies this`user
      ensures user == old(user) - multiset{dev} && Refs() == old(Refs()) - multiset{dev} && dev in old(Refs())
    {
      user := user - multiset{dev};
    }

    /** `usbi_fd_notification`: the modification count is raised only while it works. */
    method FdNotification(written: bool)
      modifies this`pollfdModify
      ensures pollfdModify == old(pollfdModify)
    {
      pollfdModify := pollfdModify + 1;
      if !written {
        pollfdModify := pollfdModify - 1;
        return;
      }
      pollfdModify := pollfdModify - 1;
    }

    /**
     * `libusb_open`: `memory` and `lock` say whether the handle and its lock could be made,
     * `backend` what the backend returns. A failed open leaves every count as it was.
     */
    method Open(dev: Device, memory: bool, lock: bool, backend: int, written: bool)
      returns (r: int, handle: Handle?)
      requires Valid() && dev in Refs()
      modifies this`usbDevs, this`openDevs, this`pollfdModify, dev
      ensures Valid() && usbDevs == old(usbDevs) && pollfdModify == old(pollfdModify)
      ensures r == if !memory then ERROR_NO_MEM else if !lock then ERROR_OTHER else if backend < 0 then backend else 0
      ensures r < 0 ==> handle == null && openDevs == old(openDevs) && dev.refcnt == old(dev.refcnt)
      ensures r == 0 ==> handle != null && fresh(handle) && handle.dev == dev
                         && openDevs == [handle] + old(openDevs) && dev.refcnt == old(dev.refcnt) + 1
    {
      hide Counted, NoDup, Refs;
      CountedLists(usbDevs, Refs());
      handle := null;
      if !memory {
        return ERROR_NO_MEM, null;
      }
      if !lock {
        return ERROR_OTHER, null;
      }
      ghost var refs := Refs();
      Ref(dev, refs);
      if backend < 0 {
        Unref(dev, refs + multiset{dev});
        assert refs + multiset{dev} - multiset{dev} == refs;
        return backend, null;
      }
      handle := new Handle(dev);
      AddHandle(handle);
      FdNotification(written);
      r := 0;
    }

    /** `do_close`, without its transfers. */
    method DoClose(handle: Handle)
      requires Valid() && handle in openDevs
      modifies this`usbDevs, this`openDevs, handle.dev
      ensures Valid() && OldOrNew()
      ensures Removed(old(openDevs), openDevs, handle)
    {
      hide Counted, NoDup, ListRefs, HandleRefs;
      ghost var refs := Refs();
      var k :| 0 <= k < |openDevs| && openDevs[k] == handle;
      HandleRefsRemove(openDevs, k);
      openDevs := openDevs[..k] + openDevs[k + 1..];
      Unref(handle.dev, refs);
      assert Refs() == refs - multiset{handle.dev};
    }

    /** `libusb_close`, on both paths of the write that interrupts the event handlers. */
    method Close(handle: Handle?, written: bool)
      requires Valid() && (handle != null ==> handle in openDevs)
      modifies this`usbDevs, this`openDevs, this`pollfdModify, if handle == null then {} else {handle.dev}
      ensures Valid() && OldOrNew() && pollfdModify == old(pollfdModify)
      ensures handle == null ==> openDevs == old(openDevs)
      ensures handle != null ==> Removed(old(openDevs), openDevs, handle)
    {
      hide Counted, NoDup;
      if handle == null {
        return;
      }
      pollfdModify := pollfdModify + 1;
      DoClose(handle);
      pollfdModify := pollfdModify - 1;
    }

    /**
     * `libusb_open_device_with_vid_pid`: lists the devices, opens the first with these
     * identifiers and frees the list, whose references alone hold the device until it is open.
     * `ids` are the identifiers in the device descriptors, None where one cannot be read.
     */
    method OpenDeviceWithVidPid(vendor: nat, product: nat, ids: nat -> Option<(nat, nat)>,
                                probes: seq<Probe>, room: bool, enumerated: int, memory: bool,
                                handleMemory: bool, lock: bool, opening: int, written: bool)
      returns (handle: Handle?)
      requires Valid()
      modifies this`usbDevs, this`openDevs, this`pollfdModify, this`lists, this`user, Devs()
      ensures Valid() && lists == old(lists) && user == old(user) && pollfdModify == old(pollfdModify)
      ensures handle == null ==> openDevs == old(openDevs)
      ensures handle != null ==>
        && openDevs == [handle] + old(openDevs) && ids(handle.dev.session) == Some((vendor, product))
        && handle.dev in usbDevs
    {
      hide Counted, NoDup, Refs, Listed, FromProbes, Sessions;
      handle := null;
      var r, devs, ks := GetDeviceList(probes, room, enumerated, memory);
      if r < 0 {
        return;
      }
      assert forall d :: d in usbDevs ==> d in old(usbDevs) || fresh(d);
      handle := OpenFromList(devs, vendor, product, ids, handleMemory, lock, opening, written);
    }

    method OpenFromList(devs: seq<Device>, vendor: nat, product: nat, ids: nat -> Option<(nat, nat)>,
                        handleMemory: bool, lock: bool, opening: int, written: bool)
      returns (handle: Handle?)
      requires Valid() && lists != [] && lists[0] == devs
      modifies this`usbDevs, this`openDevs, this`pollfdModify, this`lists, this`user, Devs()
      ensures Valid() && lists == old(lists[1..]) && user == old(user) && pollfdModify == old(pollfdModify)
      ensures handle == null ==> openDevs == old(openDevs)
      ensures handle != null ==>
        && openDevs == [handle] + old(openDevs) && ids(handle.dev.session) == Some((vendor, product))
        && handle.dev in usbDevs
    {
      hide Counted, NoDup, Refs;
      handle := null;
      var found := FindByIds(devs, vendor, product, ids);
      if found != null {
        ListHolds(lists, openDevs, user, found);
        RefsAre();
        CountedLists(usbDevs, Refs());
        assert found in Devs();
        var r;
        r, handle := Open(found, handleMemory, lock, opening, written);
      }
      FreeDeviceList(devs, true, 0);
      if handle != null {
        OpenHolds(handle);
      }
    }

    lemma RefsAre()
      ensures Refs() == ListRefs(lists) + HandleRefs(openDevs) + user
    {
    }

    lemma OpenHolds(handle: Handle)
      requires Valid() && openDevs != [] && openDevs[0] == handle
      ensures handle.dev in usbDevs
    {
    }
  }

  lemma ListHolds(lists: seq<seq<Device>>, handles: seq<Handle>, user: multiset<Device>, dev: Device)
    requires lists != [] && dev in lists[0]
    ensures dev in ListRefs(lists) + HandleRefs(handles) + user
  {
  }

  /** Readable descriptors, all with other identifiers. */
  predicate PassedOver(devs: seq<Device>, wanted: (nat, nat), ids: nat -> Option<(nat, nat)>) {
    forall j :: 0 <= j < |devs| ==> ids(devs[j].session) != None && ids(devs[j].session) != Some(wanted)
  }

  /** The first device with these identifiers; none where a descriptor before it cannot be read. */
  method FindByIds(devs: seq<Device>, vendor: nat, product: nat, ids: nat -> Option<(nat, nat)>)
    returns (found: Device?)
    ensures found != null ==> found in devs && ids(found.session) == Some((vendor, product))
    ensures found != null ==>
      exists i :: 0 <= i < |devs| && devs[i] == found && PassedOver(devs[..i], (vendor, product), ids)
    ensures found == null ==> forall i :: 0 <= i < |devs| && ids(devs[i].session) == Some((vendor, product)) ==>
      exists j :: 0 <= j < i && ids(devs[j].session) == None
  {
    found := null;
    for i := 0 to |devs|
      invariant PassedOver(devs[..i], (vendor, product), ids)
    {
      assert forall j :: 0 <= j < i ==> devs[j] == devs[..i][j];
      assert devs[..i + 1] == devs[..i] + [devs[i]];
      if ids(devs[i].session) == None {
        return;
      }
      if ids(devs[i].session) == Some((vendor, product)) {
        return devs[i];
      }
    }
  }
}
