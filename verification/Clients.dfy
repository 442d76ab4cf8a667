/** The daemon's client list: the records, the initialisation handshake and the periodic sweep. */
module Clients {
  import opened Options
  import opened Bytes

  /** A key, with the two words that overlay the descriptor and the handshake number. */
  datatype Key = Key(w0: Word, w1: Word, rest: nat)

  datatype Peer = Peer(priv: Key, pub: Key)

  datatype Flags = Flags(msg: bool, net: bool, http: bool, register: bool, auth: bool, shutdown: bool)

  /**
   * A client record. `slot` is the union of the network part, whose first two words are the
   * descriptor and the handshake number, with the message key. `id` and `accepted` are history:
   * which record it is, and whether it was created with AUTH set.
   */
  datatype Record = Record(id: nat, accepted: bool, flags: Flags, peer: Peer, slot: Key)
  {
    function Fd(): Word { slot.w0 }

    function IniSeq(): Word { slot.w1 }
  }

  type Clients = seq<Record>

  // ----- sharedaemon_client_find -----

  predicate Matches(c: Record, key: Key) {
    (c.flags.net && c.flags.register && c.peer.priv == key) || (c.flags.msg && c.slot == key)
  }

  function Find(cs: Clients, key: Key): (r: Option<nat>)
    ensures r.Some? ==> r.value < |cs| && Matches(cs[r.value], key)
    ensures r.Some? ==> forall i :: 0 <= i < r.value ==> !Matches(cs[i], key)
    ensures r.None? ==> forall i :: 0 <= i < |cs| ==> !Matches(cs[i], key)
  {
    if cs == [] then None
    else if Matches(cs[0], key) then Some(0)
    else
      var r := Find(cs[1..], key);
      assert forall i :: 1 <= i < |cs| ==> cs[i] == cs[1..][i - 1];
      if r.None? then None else Some(r.value + 1)
  }

  /** The first network client with this key, registered or not. */
  function FindNet(cs: Clients, key: Key): (r: Option<nat>)
    ensures r.Some? ==> r.value < |cs| && cs[r.value].flags.net && cs[r.value].peer.priv == key
    ensures r.None? ==> forall i :: 0 <= i < |cs| ==> !(cs[i].flags.net && cs[i].peer.priv == key)
  {
    if cs == [] then None
    else if cs[0].flags.net && cs[0].peer.priv == key then Some(0)
    else
      var r := FindNet(cs[1..], key);
      assert forall i :: 1 <= i < |cs| ==> cs[i] == cs[1..][i - 1];
      if r.None? then None else Some(r.value + 1)
  }

  // ----- txop_init_recv -----

  datatype Code =
    | Done
    | NotUnique   // SHERR_NOTUNIQ
    | Invalid     // SHERR_INVAL
    | Fault       // number 2 for a peer without a record: the code follows a null pointer

  /** An initialisation message that is sent back: to which key, on account of which record, with which number. */
  datatype Reply = Reply(dest: Key, on: Option<nat>, number: Word)

  function NextSeq(iniSeq: Word): Word {
    (iniSeq + 1) % 0x1_0000_0000
  }

  function WithSeq(c: Record, number: Word): Record {
    c.(slot := c.slot.(w1 := number))
  }

  function Registered(c: Record, self: Peer): Record {
    c.(flags := c.flags.(register := true), peer := self)
  }

  function Authenticated(c: Record): Record {
    c.(flags := c.flags.(auth := false))
  }

  datatype Handled = Handled(clients: Clients, code: Code, reply: Option<Reply>)

  function Replied(cs: Clients, req: nat, on: Option<nat>, number: Word): Handled
    requires req < |cs|
  {
    Handled(cs, Done, Some(Reply(cs[req].peer.priv, on, number)))
  }

  /** The number `n` that the message carries once incremented, for the found record if there is one. */
  function InitStep(cs: Clients, req: nat, n: Word, found: Option<nat>, self: Peer): Handled
    requires req < |cs| && (found.Some? ==> found.value < |cs|)
  {
    if found.Some? then
      var i, id := found.value, cs[found.value].id;
      if n == 1 then Handled(cs, NotUnique, None)
      else if n == 2 then Replied(cs[i := Registered(cs[i], self)], req, Some(id), n)
      else if n == 3 || n == 4 then Replied(cs[i := Authenticated(cs[i])], req, Some(id), n)
      else if 5 <= n <= 8 then Replied(cs, req, Some(id), n)
      else Handled(cs, Done, None)
    else if n == 1 then
      var net := FindNet(cs, cs[req].peer.priv);
      if net.None? then Handled(cs, Invalid, None)
      else Replied(cs[net.value := Registered(cs[net.value], self)], req, None, n)
    else if n == 2 then Handled(cs, Fault, None)
    else if n > 2 then Handled(cs, Invalid, None)
    else Handled(cs, Done, None)
  }

  function InitRecv(cs: Clients, req: nat, iniSeq: Word, self: Peer): Handled
    requires req < |cs|
  {
    var n := NextSeq(iniSeq);
    var found := Find(cs, cs[req].peer.priv);
    if found.None? then InitStep(cs, req, n, found, self)
    else if n <= cs[found.value].IniSeq() then Handled(cs, Done, None)
    else InitStep(cs[found.value := WithSeq(cs[found.value], n)], req, n, found, self)
  }

  // ----- clients come -----

  function NewNet(id: nat, fd: Word, peer: Peer, auth: bool, shutdown: bool, appOk: bool): Record {
    Record(id, auth, Flags(false, true, false, appOk && !auth && !shutdown, auth, shutdown), peer, Key(fd, 0, 0))
  }

  function NewHttp(id: nat, fd: Word): Record {
    Record(id, false, Flags(false, false, true, false, false, false), NO_PEER, Key(fd, 0, 0))
  }

  const NO_PEER := Peer(Key(0, 0, 0), Key(0, 0, 0))

  /** `sharedaemon_app_init`: the peer is stored, and a client that need not authenticate is registered. */
  function AppInit(c: Record, peer: Peer, appOk: bool): Record {
    var c := c.(peer := peer);
    if appOk && !c.flags.auth && !c.flags.shutdown then c.(flags := c.flags.(register := true)) else c
  }

  function Joined(c: Record, peer: Peer, appOk: bool): Record {
    if appOk then AppInit(c, peer, true).(slot := peer.pub) else AppInit(c, peer, false)
  }

  /** `sharedaemon_msgclient_init`: a message client announces itself, under its public key. */
  function MsgJoin(cs: Clients, id: nat, peer: Peer, appOk: bool): Clients {
    var found := Find(cs, peer.pub);
    if found.Some? then cs[found.value := Joined(cs[found.value], peer, appOk)]
    else
      var blank := Record(id, false, Flags(true, false, false, false, false, false), NO_PEER, NO_PEER.pub);
      [Joined(blank, peer, appOk)] + cs
  }

  // ----- cycle_socket_verify -----

  /** What the sweep observes of one client: select's answer, and whether it has idled too long. */
  datatype Probe = Probe(failed: bool, writable: bool, exceptional: bool, idle: bool)

  predicate HasSocket(c: Record) {
    c.Fd() != 0 && (c.flags.net || c.flags.http)
  }

  function Closed(c: Record): Record {
    c.(slot := c.slot.(w0 := 0))
  }

  predicate Ending(c: Record, p: Probe) {
    c.flags.shutdown || p.failed || p.exceptional
  }

  /** A record once it has been looked at itself. */
  function Probed(c: Record, p: Probe): Record {
    if !HasSocket(c) then c
    else if Ending(c, p) then
      var c := if p.failed || p.exceptional then c.(flags := c.flags.(shutdown := true)) else c;
      if p.failed || p.writable || p.exceptional then Closed(c) else c
    else if p.idle then Closed(c)
    else c
  }

  /** It stays, and so takes the registration of every later record with its key. */
  predicate Stays(c: Record, p: Probe) {
    HasSocket(c) && !Ending(c, p) && !p.idle
  }

  predicate Duplicate(d: Record, key: Key) {
    d.flags.net && d.flags.register && d.peer.priv == key
  }

  function Unregistered(d: Record): Record {
    d.(flags := d.flags.(shutdown := true, register := false))
  }

  function DropDuplicates(cs: Clients, key: Key): (r: Clients)
    ensures |r| == |cs|
    ensures forall i :: 0 <= i < |cs| ==> r[i] == if Duplicate(cs[i], key) then Unregistered(cs[i]) else cs[i]
  {
    if cs == [] then []
    else [if Duplicate(cs[0], key) then Unregistered(cs[0]) else cs[0]] + DropDuplicates(cs[1..], key)
  }

  function VerifyAll(cs: Clients, probes: seq<Probe>): (r: Clients)
    requires |cs| == |probes|
    ensures |r| == |cs|
    decreases |cs|
  {
    if cs == [] then []
    else
      var later := if Stays(cs[0], probes[0]) then DropDuplicates(cs[1..], cs[0].peer.priv) else cs[1..];
      [Probed(cs[0], probes[0])] + VerifyAll(later, probes[1..])
  }

  predicate Gone(c: Record) {
    c.flags.net && c.Fd() == 0
  }

  function Purge(cs: Clients): Clients {
    if cs == [] then [] else (if Gone(cs[0]) then [] else [cs[0]]) + Purge(cs[1..])
  }

  function Sweep(cs: Clients, probes: seq<Probe>): Clients
    requires |cs| == |probes|
  {
    Purge(VerifyAll(cs, probes))
  }

  /** Registered and not on the way out. */
  predicate Active(c: Record) {
    c.flags.net && c.flags.register && !c.flags.shutdown
  }

  predicate UniqueKeys(cs: Clients) {
    forall i, j :: 0 <= i < j < |cs| && Active(cs[i]) && Active(cs[j]) ==> cs[i].peer.priv != cs[j].peer.priv
  }

  /** What the sweep leaves of a record that stays in the list. */
  predicate Kept(c: Record, d: Record) {
    && d.id == c.id && d.accepted == c.accepted && d.peer == c.peer && d.IniSeq() == c.IniSeq()
    && d.slot.rest == c.slot.rest && (d.Fd() == c.Fd() || (d.Fd() == 0 && HasSocket(c)))
    && (c.flags.shutdown ==> d.flags.shutdown) && (d.flags.register ==> c.flags.register)
    && (d.flags.register != c.flags.register ==> c.flags.net && d.flags.shutdown)
    && d.flags.(shutdown := false, register := false) == c.flags.(shutdown := false, register := false)
  }

  // ----- what the sweep does -----

  /** What the later clients look like once the first has been looked at. */
  function Later(cs: Clients, probes: seq<Probe>): (later: Clients)
    requires cs != [] && |cs| == |probes|
    ensures |later| == |cs| - 1
  {
    if Stays(cs[0], probes[0]) then DropDuplicates(cs[1..], cs[0].peer.priv) else cs[1..]
  }

  lemma VerifyAllAt(cs: Clients, probes: seq<Probe>, i: nat)
    requires i < |cs| == |probes|
    ensures VerifyAll(cs, probes)[i]
         == if i == 0 then Probed(cs[0], probes[0]) else VerifyAll(Later(cs, probes), probes[1..])[i - 1]
  {
    hide Probed, Stays;
  }

  lemma ProbedKept(c: Record, p: Probe)
    ensures Kept(c, Probed(c, p))
  {
  }

  lemma DroppedKept(c: Record, d: Record, key: Key)
    requires Kept(if Duplicate(c, key) then Unregistered(c) else c, d)
    ensures Kept(c, d)
  {
  }

  lemma {:induction false} VerifyKeepsAt(cs: Clients, probes: seq<Probe>, i: nat)
    requires i < |cs| == |probes|
    ensures Kept(cs[i], VerifyAll(cs, probes)[i])
    decreases i
  {
    hide VerifyAll, Kept, Probed, Duplicate, Unregistered, Stays;
    VerifyAllAt(cs, probes, i);
    if i == 0 {
      ProbedKept(cs[0], probes[0]);
    } else {
      VerifyKeepsAt(Later(cs, probes), probes[1..], i - 1);
      if Stays(cs[0], probes[0]) {
        DroppedKept(cs[i], VerifyAll(cs, probes)[i], cs[0].peer.priv);
      }
    }
  }

  lemma {:induction false} VerifyKeeps(cs: Clients, probes: seq<Probe>)
    requires |cs| == |probes|
    ensures forall i :: 0 <= i < |cs| ==> Kept(cs[i], VerifyAll(cs, probes)[i])
  {
    hide VerifyAll, Kept;
    forall i | 0 <= i < |cs|
      ensures Kept(cs[i], VerifyAll(cs, probes)[i])
    {
      VerifyKeepsAt(cs, probes, i);
    }
  }

  /** Of two active records that stay, the later one has another key. */
  predicate Rivals(c: Record, d: Record) {
    Active(c) && !Gone(c) && Active(d) && c.peer.priv == d.peer.priv
  }

  lemma FirstHasNoRival(cs: Clients, probes: seq<Probe>, j: nat)
    requires 0 < j < |cs| == |probes|
    ensures !Rivals(VerifyAll(cs, probes)[0], VerifyAll(cs, probes)[j])
  {
    hide Kept;
    var c, key := cs[0], cs[0].peer.priv;
    var later := if Stays(c, probes[0]) then DropDuplicates(cs[1..], key) else cs[1..];
    var d := VerifyAll(later, probes[1..])[j - 1];
    assert VerifyAll(cs, probes)[0] == Probed(c, probes[0]) && VerifyAll(cs, probes)[j] == d;
    VerifyKeeps(later, probes[1..]);
    assert Kept(later[j - 1], d);
    if Active(Probed(c, probes[0])) && !Gone(Probed(c, probes[0])) && Active(d) {
      FirstStays(c, probes[0]);
      KeptActive(later[j - 1], d);
      ActiveIsNoDuplicate(cs[1..], key, j - 1);
    }
  }

  lemma {:induction false} NoRivals(cs: Clients, probes: seq<Probe>, i: nat, j: nat)
    requires i < j < |cs| == |probes|
    ensures !Rivals(VerifyAll(cs, probes)[i], VerifyAll(cs, probes)[j])
    decreases |cs|
  {
    hide Rivals, Probed;
    if i == 0 {
      FirstHasNoRival(cs, probes, j);
    } else {
      var later := if Stays(cs[0], probes[0]) then DropDuplicates(cs[1..], cs[0].peer.priv) else cs[1..];
      NoRivals(later, probes[1..], i - 1, j - 1);
    }
  }

  lemma ActiveIsNoDuplicate(cs: Clients, key: Key, i: nat)
    requires i < |cs| && Active(DropDuplicates(cs, key)[i])
    ensures DropDuplicates(cs, key)[i].peer.priv != key
  {
  }

  lemma FirstStays(c: Record, p: Probe)
    requires Active(Probed(c, p)) && !Gone(Probed(c, p))
    ensures Stays(c, p) && Probed(c, p) == c
  {
  }

  lemma KeptActive(c: Record, d: Record)
    requires Kept(c, d) && Active(d)
    ensures Active(c) && c.peer == d.peer
  {
  }

  /** The indices of the records that stay; `off` is the index of the first. */
  function Survivors(cs: Clients, off: nat): (ks: seq<nat>) {
    if cs == [] then [] else (if Gone(cs[0]) then [] else [off]) + Survivors(cs[1..], off + 1)
  }

  lemma {:induction false} SurvivorAt(cs: Clients, off: nat, a: nat)
    requires a < |Survivors(cs, off)|
    ensures var k := Survivors(cs, off)[a];
      off <= k < off + |cs| && a < |Purge(cs)| && Purge(cs)[a] == cs[k - off] && !Gone(cs[k - off])
    ensures a > 0 ==> Survivors(cs, off)[a - 1] < Survivors(cs, off)[a]
  {
    hide Gone;
    if !Gone(cs[0]) {
      if a > 0 {
        SurvivorAt(cs[1..], off + 1, a - 1);
      }
    } else {
      SurvivorAt(cs[1..], off + 1, a);
    }
  }

  lemma {:induction false} SurvivorsComplete(cs: Clients, off: nat)
    ensures |Survivors(cs, off)| == |Purge(cs)|
    ensures forall i :: 0 <= i < |cs| && !Gone(cs[i]) ==> off + i in Survivors(cs, off)
  {
    hide Gone;
    if cs != [] {
      SurvivorsComplete(cs[1..], off + 1);
      forall i | 0 <= i < |cs| && !Gone(cs[i])
        ensures off + i in Survivors(cs, off)
      {
        if i > 0 {
          assert cs[i] == cs[1..][i - 1];
          assert off + 1 + (i - 1) in Survivors(cs[1..], off + 1);
        }
      }
    }
  }

  /** After a sweep no two active network clients have the same key. */
  lemma {:induction false} SweepMakesUnique(cs: Clients, probes: seq<Probe>)
    requires |cs| == |probes|
    ensures UniqueKeys(Sweep(cs, probes))
    ensures forall c :: c in Sweep(cs, probes) ==> !Gone(c)
  {
    hide Gone, Active, VerifyAll, Purge;
    var v, r := VerifyAll(cs, probes), Sweep(cs, probes);
    var ks := Survivors(v, 0);
    SurvivorsComplete(v, 0);
    forall a | 0 <= a < |r|
      ensures !Gone(r[a])
    {
      SurvivorAt(v, 0, a);
    }
    forall a, b | 0 <= a < b < |r| && Active(r[a]) && Active(r[b])
      ensures r[a].peer.priv != r[b].peer.priv
    {
      SurvivorAt(v, 0, a);
      SurvivorAt(v, 0, b);
      SurvivorsIncrease(v, 0, a, b);
      NoRivals(cs, probes, ks[a], ks[b]);
    }
  }

  lemma {:induction false} SurvivorsIncrease(cs: Clients, off: nat, a: nat, b: nat)
    requires a < b < |Survivors(cs, off)|
    ensures Survivors(cs, off)[a] < Survivors(cs, off)[b]
    decreases b
  {
    SurvivorAt(cs, off, b);
    if a < b - 1 {
      SurvivorsIncrease(cs, off, a, b - 1);
    }
  }

  /**
   * The swept list is the old one, in order, without exactly the network clients whose
   * descriptor is now 0, and each record that stays has changed in its descriptor and its
   * registration only.
   */
  lemma {:induction false} SweepKeepsOrder(cs: Clients, probes: seq<Probe>)
    requires |cs| == |probes|
    ensures var v, r := VerifyAll(cs, probes), Sweep(cs, probes); var ks := Survivors(v, 0);
      && |r| == |ks|
      && (forall a :: 0 <= a < |r| ==> ks[a] < |cs| && r[a] == v[ks[a]] && Kept(cs[ks[a]], r[a]))
      && (forall a, b :: 0 <= a < b < |r| ==> ks[a] < ks[b])
      && (forall i: nat :: i < |cs| ==> (i in ks <==> !Gone(v[i])))
  {
    hide Gone, Kept, VerifyAll, Purge;
    var v, r := VerifyAll(cs, probes), Sweep(cs, probes);
    var ks := Survivors(v, 0);
    SurvivorsComplete(v, 0);
    VerifyKeeps(cs, probes);
    forall a | 0 <= a < |r|
      ensures ks[a] < |cs| && r[a] == v[ks[a]] && Kept(cs[ks[a]], r[a]) && !Gone(v[ks[a]])
    {
      SurvivorAt(v, 0, a);
    }
    forall a, b | 0 <= a < b < |r|
      ensures ks[a] < ks[b]
    {
      SurvivorsIncrease(v, 0, a, b);
    }
  }

  // ----- the sweep, client by client -----

  /** Connected and in order: the first loop comes to its search for duplicates and no further. */
  predicate Healthy(c: Record, p: Probe) {
    && c.Fd() != 0 && (c.flags.net || c.flags.http)
    && !c.flags.shutdown && !p.failed && !p.exceptional && !p.idle
  }

  /** A registered network client behind a healthy one with its key. */
  predicate Ousted(cs: Clients, probes: seq<Probe>, i: nat)
    requires i < |cs| == |probes|
  {
    && cs[i].flags.net && cs[i].flags.register
    && exists j :: 0 <= j < i && Healthy(cs[j], probes[j]) && cs[j].peer.priv == cs[i].peer.priv
  }

  /** What becomes of one client, from its record as it was before the sweep; None if it leaves the list. */
  function Fate(c: Record, p: Probe, ousted: bool): Option<Record> {
    if c.Fd() == 0 then
      if c.flags.net then None else Some(c)
    else if !c.flags.net && !c.flags.http then Some(c)
    else
      var broken := p.failed || p.exceptional;
      var leaving := c.flags.shutdown || ousted || broken;
      var closed := broken || if leaving then p.writable else p.idle;
      if closed && c.flags.net then None
      else
        var flags := c.flags.(shutdown := leaving, register := c.flags.register && !ousted);
        Some(c.(flags := flags, slot := if closed then c.slot.(w0 := 0) else c.slot))
  }

  /** The fates of the clients from index `i` on, in order. */
  function Fates(cs: Clients, probes: seq<Probe>, i: nat): Clients
    requires i <= |cs| == |probes|
    decreases |cs| - i
  {
    if i == |cs| then []
    else
      var fate := Fate(cs[i], probes[i], Ousted(cs, probes, i));
      (if fate.None? then [] else [fate.value]) + Fates(cs, probes, i + 1)
  }

  lemma HealthyStays(c: Record, p: Probe)
    ensures Stays(c, p) <==> Healthy(c, p)
  {
  }

  lemma FirstFate(c: Record, p: Probe)
    ensures Fate(c, p, false) == if Gone(Probed(c, p)) then None else Some(Probed(c, p))
  {
  }

  lemma DuplicateIsOusted(c: Record, p: Probe, key: Key)
    requires Duplicate(c, key)
    ensures Fate(Unregistered(c), p, false) == Fate(c, p, true)
  {
  }

  lemma OustedLater(cs: Clients, probes: seq<Probe>, i: nat)
    requires 0 < i < |cs| == |probes|
    ensures var later := Later(cs, probes); var o := Ousted(later, probes[1..], i - 1);
      if Stays(cs[0], probes[0]) && Duplicate(cs[i], cs[0].peer.priv)
      then later[i - 1] == Unregistered(cs[i]) && !o && Ousted(cs, probes, i)
      else later[i - 1] == cs[i] && o == Ousted(cs, probes, i)
  {
    var later := Later(cs, probes);
    HealthyStays(cs[0], probes[0]);
    assert forall j :: 0 < j < |cs| ==> cs[j] == cs[1..][j - 1] && probes[j] == probes[1..][j - 1];
    if Ousted(cs, probes, i) {
      var j :| 0 <= j < i && Healthy(cs[j], probes[j]) && cs[j].peer.priv == cs[i].peer.priv;
      if j > 0 && !(Stays(cs[0], probes[0]) && Duplicate(cs[i], cs[0].peer.priv)) {
        assert later[j - 1] == cs[j];
      }
    }
    if Ousted(later, probes[1..], i - 1) {
      var k :| 0 <= k < i - 1 && Healthy(later[k], probes[1..][k]) && later[k].peer.priv == later[i - 1].peer.priv;
      assert later[k] == cs[k + 1];
    }
  }

  lemma {:induction false} VerifyIsFate(cs: Clients, probes: seq<Probe>, i: nat)
    requires i < |cs| == |probes|
    ensures var v := VerifyAll(cs, probes)[i];
      Fate(cs[i], probes[i], Ousted(cs, probes, i)) == if Gone(v) then None else Some(v)
    decreases i
  {
    hide VerifyAll, Fate, Gone, Stays, Duplicate, Unregistered, Probed, Later;
    VerifyAllAt(cs, probes, i);
    if i == 0 {
      FirstFate(cs[0], probes[0]);
    } else {
      var later := Later(cs, probes);
      VerifyIsFate(later, probes[1..], i - 1);
      OustedLater(cs, probes, i);
      if Stays(cs[0], probes[0]) && Duplicate(cs[i], cs[0].peer.priv) {
        DuplicateIsOusted(cs[i], probes[i], cs[0].peer.priv);
      }
    }
  }

  lemma {:induction false} PurgeIsFates(cs: Clients, probes: seq<Probe>, i: nat)
    requires i <= |cs| == |probes|
    ensures Purge(VerifyAll(cs, probes)[i..]) == Fates(cs, probes, i)
    decreases |cs| - i
  {
    hide VerifyAll, Fate, Gone, Ousted;
    if i < |cs| {
      var v := VerifyAll(cs, probes);
      VerifyIsFate(cs, probes, i);
      PurgeIsFates(cs, probes, i + 1);
      assert v[i..][1..] == v[i + 1..];
    }
  }

  /**
   * The sweep, whose first loop changes later records as it goes, gives every client the fate that
   * the records before the sweep decide.
   */
  lemma {:induction false} SweepIsFates(cs: Clients, probes: seq<Probe>)
    requires |cs| == |probes|
    ensures Sweep(cs, probes) == Fates(cs, probes, 0)
  {
    hide VerifyAll, Purge, Fates;
    PurgeIsFates(cs, probes, 0);
    assert VerifyAll(cs, probes)[0..] == VerifyAll(cs, probes);
  }

  lemma FateKeepsId(c: Record, p: Probe, ousted: bool)
    ensures var fate := Fate(c, p, ousted); fate.Some? ==> fate.value.id == c.id
  {
  }

  predicate HasFate(cs: Clients, probes: seq<Probe>, k: nat, d: Record)
    requires k < |cs| == |probes|
  {
    Fate(cs[k], probes[k], Ousted(cs, probes, k)) == Some(d)
  }

  lemma FatesStep(cs: Clients, probes: seq<Probe>, i: nat, d: Record)
    requires i < |cs| == |probes|
    ensures d in Fates(cs, probes, i) <==> HasFate(cs, probes, i, d) || d in Fates(cs, probes, i + 1)
  {
    hide Fate, Ousted;
  }

  lemma {:induction false} FatesMember(cs: Clients, probes: seq<Probe>, from: nat, d: Record)
    requires from <= |cs| == |probes|
    ensures d in Fates(cs, probes, from) <==> exists k :: from <= k < |cs| && HasFate(cs, probes, k, d)
    decreases |cs| - from
  {
    if from < |cs| {
      hide Fates, HasFate;
      FatesStep(cs, probes, from, d);
      FatesMember(cs, probes, from + 1, d);
    }
  }

  predicate OwnId(cs: Clients, i: nat)
    requires i < |cs|
  {
    forall k :: 0 <= k < |cs| && k != i ==> cs[k].id != cs[i].id
  }

  /** The one record with this client's identity after the sweep is what its fate says, if any. */
  lemma FateDecides(cs: Clients, probes: seq<Probe>, i: nat)
    requires i < |cs| == |probes| && OwnId(cs, i)
    ensures var fate := Fate(cs[i], probes[i], Ousted(cs, probes, i));
      && (fate.Some? ==> fate.value in Sweep(cs, probes))
      && forall d :: d in Sweep(cs, probes) && d.id == cs[i].id ==> fate == Some(d)
  {
    hide Fate, Ousted, Sweep;
    SweepIsFates(cs, probes);
    var fate := Fate(cs[i], probes[i], Ousted(cs, probes, i));
    if fate.Some? {
      assert HasFate(cs, probes, i, fate.value);
      FatesMember(cs, probes, 0, fate.value);
    }
    forall d | d in Sweep(cs, probes) && d.id == cs[i].id
      ensures fate == Some(d)
    {
      FatesMember(cs, probes, 0, d);
      var k :| 0 <= k < |cs| && HasFate(cs, probes, k, d);
      FateKeepsId(cs[k], probes[k], Ousted(cs, probes, k));
    }
  }

  /**
   * A connected network client whose key no earlier network or HTTP client has: it leaves the list
   * exactly if its socket is broken, or writable while it was shutting down, or idle while it was
   * not, and is otherwise still there as it was.
   */
  lemma {:induction false} SweepDecides(cs: Clients, probes: seq<Probe>, i: nat)
    requires i < |cs| == |probes| && OwnId(cs, i) && cs[i].flags.net && cs[i].Fd() != 0
    requires forall j :: 0 <= j < i && (cs[j].flags.net || cs[j].flags.http) ==> cs[j].peer.priv != cs[i].peer.priv
    ensures var c, p, r := cs[i], probes[i], Sweep(cs, probes);
      if p.failed || p.exceptional || (p.writable && c.flags.shutdown) || (p.idle && !c.flags.shutdown)
      then forall d :: d in r ==> d.id != c.id
      else c in r
  {
    FateDecides(cs, probes, i);
    hide Sweep;
  }

  /**
   * A connected, registered network client behind a healthy one with its key: it leaves the list
   * exactly if its socket is broken or writable, and is otherwise there, unregistered and shutting down.
   */
  lemma {:induction false} DuplicateDecides(cs: Clients, probes: seq<Probe>, j: nat, i: nat)
    requires j < i < |cs| == |probes| && OwnId(cs, i)
    requires cs[i].flags.net && cs[i].flags.register && cs[i].Fd() != 0 && cs[j].peer.priv == cs[i].peer.priv
    requires cs[j].Fd() != 0 && (cs[j].flags.net || cs[j].flags.http) && !cs[j].flags.shutdown
    requires !probes[j].failed && !probes[j].exceptional && !probes[j].idle
    ensures var c, p, r := cs[i], probes[i], Sweep(cs, probes);
      if p.failed || p.exceptional || p.writable then forall d :: d in r ==> d.id != c.id
      else c.(flags := c.flags.(shutdown := true, register := false)) in r
  {
    assert Healthy(cs[j], probes[j]);
    assert Ousted(cs, probes, i);
    FateDecides(cs, probes, i);
    hide Sweep;
  }

  /**
   * All others: a network client without a socket leaves the list, message clients are as they were,
   * and an HTTP client never leaves it, even when its socket is closed.
   */
  lemma {:induction false} OthersDecide(cs: Clients, probes: seq<Probe>, i: nat)
    requires i < |cs| == |probes| && OwnId(cs, i) && (cs[i].flags.net ==> cs[i].Fd() == 0)
    ensures var c, p, r := cs[i], probes[i], Sweep(cs, probes);
      if c.flags.net then forall d :: d in r ==> d.id != c.id
      else if !c.flags.http || c.Fd() == 0 then c in r
      else
        var broken := p.failed || p.exceptional;
        var d := c.(flags := c.flags.(shutdown := c.flags.shutdown || broken));
        if broken || (if c.flags.shutdown then p.writable else p.idle) then d.(slot := c.slot.(w0 := 0)) in r
        else d in r
  {
    FateDecides(cs, probes, i);
    hide Sweep;
  }
}
