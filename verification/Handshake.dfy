/** Safety of the initialisation handshake over every run of the daemon. */
module Handshake {
  import opened Options
  import opened Bytes
  import opened Clients
  import Wire

  /** A transaction that reached the handlers, with the sender's record as it was at that moment. */
  datatype Served = Served(op: Word, from: Record)

  datatype State = State(clients: Clients, next: nat, replies: seq<Reply>, served: seq<Served>, faulted: bool)

  datatype Event =
    | ConnectNet(fd: Word, peer: Peer, auth: bool, shutdown: bool, appOk: bool)
    | ConnectHttp(fd: Word)
    | JoinMsg(joining: Peer, known: bool)
    | Request(req: nat, op: Word, iniSeq: Word)
    | SweepAll(probes: seq<Probe>)
    | CloseSocket(which: nat)

  /**
   * A message client announces a key under which a record is found whose number is larger than
   * the second word of that key, which goes over it.
   */
  predicate Lowers(cs: Clients, joining: Peer, known: bool) {
    var found := Find(cs, joining.pub);
    found.Some? && known && joining.pub.w1 < cs[found.value].IniSeq()
  }

  predicate Enabled(st: State, ev: Event) {
    && !st.faulted
    && match ev
      case ConnectNet(_, _, _, _, _) => true
      case ConnectHttp(_) => true
      case JoinMsg(joining, known) => !Lowers(st.clients, joining, known)
      case Request(req, _, _) => req < |st.clients| && st.clients[req].flags.net
      case SweepAll(probes) => |probes| == |st.clients|
      case CloseSocket(which) => which < |st.clients| && HasSocket(st.clients[which])
  }

  function Serve(st: State, f: Wire.Format, self: Peer, req: nat, op: Word, iniSeq: Word): State
    requires req < |st.clients|
  {
    var c := st.clients[req];
    if !Wire.Admitted(f, c.flags.auth, op) then st
    else
      var served := st.served + [Served(op, c)];
      if op != Wire.TX_INIT then st.(served := served)
      else
        var h := InitRecv(st.clients, req, iniSeq, self);
        st.(served := served, clients := h.clients, faulted := h.code.Fault?,
            replies := if h.reply.None? then st.replies else st.replies + [h.reply.value])
  }

  function Step(st: State, f: Wire.Format, self: Peer, ev: Event): State
    requires Enabled(st, ev)
  {
    match ev
    case ConnectNet(fd, peer, auth, shutdown, appOk) =>
      st.(clients := [NewNet(st.next, fd, peer, auth, shutdown, appOk)] + st.clients, next := st.next + 1)
    case ConnectHttp(fd) => st.(clients := [NewHttp(st.next, fd)] + st.clients, next := st.next + 1)
    case JoinMsg(joining, known) => st.(clients := MsgJoin(st.clients, st.next, joining, known), next := st.next + 1)
    case Request(req, op, iniSeq) => Serve(st, f, self, req, op, iniSeq)
    case SweepAll(probes) => st.(clients := Sweep(st.clients, probes))
    case CloseSocket(which) => st.(clients := st.clients[which := Closed(st.clients[which])])
  }

  // ----- how one record evolves -----

  predicate SameKind(c: Record, d: Record) {
    d.id == c.id && d.accepted == c.accepted
    && d.flags.msg == c.flags.msg && d.flags.net == c.flags.net && d.flags.http == c.flags.http
  }

  /** The handshake number never falls, and AUTH goes only from the sender's registered record, at 3 or 4. */
  predicate Grows(c: Record, d: Record, cause: Option<Init>) {
    && SameKind(c, d) && c.IniSeq() <= d.IniSeq()
    && (d.flags.auth ==> c.flags.auth)
    && (c.flags.auth && !d.flags.auth ==>
          && c.flags.net && c.flags.register && (d.IniSeq() == 3 || d.IniSeq() == 4)
          && cause == Some(Init(d.IniSeq(), c.peer.priv)))
  }

  /** An initialisation being handled: the number it has reached, and its sender's key. */
  datatype Init = Init(number: Word, sender: Key)

  function InitOf(st: State, f: Wire.Format, ev: Event): Option<Init>
    requires Enabled(st, ev)
  {
    if ev.Request? && ev.op == Wire.TX_INIT && Wire.Admitted(f, st.clients[ev.req].flags.auth, ev.op) then
      Some(Init(NextSeq(ev.iniSeq), st.clients[ev.req].peer.priv))
    else None
  }

  predicate RecordOk(c: Record, next: nat) {
    && c.id < next && (c.flags.auth ==> c.flags.net)
    && (c.flags.net ==> !c.flags.msg && !c.flags.http) && (c.flags.msg ==> !c.flags.http)
    && (c.accepted && !c.flags.auth ==> c.IniSeq() >= 3)
    && (c.accepted ==> c.flags.net)
  }

  predicate RecordsOk(cs: Clients, next: nat) {
    forall i :: 0 <= i < |cs| ==> RecordOk(cs[i], next)
  }

  predicate DistinctIds(cs: Clients) {
    forall i, j :: 0 <= i < j < |cs| ==> cs[i].id != cs[j].id
  }

  ghost predicate From(cs: Clients, d: Record, cause: Option<Init>) {
    exists i :: 0 <= i < |cs| && Grows(cs[i], d, cause)
  }

  /** Every record is an old one that has grown, or has the next fresh identity. */
  ghost predicate Evolves(cs: Clients, next: nat, ds: Clients, cause: Option<Init>) {
    forall j :: 0 <= j < |ds| ==> From(cs, ds[j], cause) || (ds[j].id == next && RecordOk(ds[j], next + 1))
  }

  /** The switch on the number changes flags and peer only, and AUTH only at 3 and 4. */
  lemma InitStepAt(cs: Clients, req: nat, n: Word, found: Option<nat>, self: Peer, i: nat)
    requires req < |cs| && i < |cs| && (found.Some? ==> found.value < |cs|)
    ensures var ds := InitStep(cs, req, n, found, self).clients;
      && |ds| == |cs| && SameKind(cs[i], ds[i]) && ds[i].slot == cs[i].slot
      && (ds[i].flags.auth == cs[i].flags.auth || (found == Some(i) && !ds[i].flags.auth && (n == 3 || n == 4)))
  {
    hide FindNet;
  }

  lemma InitRecvGrows(cs: Clients, req: nat, iniSeq: Word, self: Peer, i: nat)
    requires req < |cs| && i < |cs|
    requires (cs[i].flags.auth ==> cs[i].flags.net) && (cs[i].flags.net ==> !cs[i].flags.msg)
    ensures var ds := InitRecv(cs, req, iniSeq, self).clients;
      |ds| == |cs| && Grows(cs[i], ds[i], Some(Init(NextSeq(iniSeq), cs[req].peer.priv)))
  {
    hide Find, NextSeq, InitStep;
    var n, found := NextSeq(iniSeq), Find(cs, cs[req].peer.priv);
    InitStepAt(cs, req, n, found, self, i);
    if found.Some? {
      InitStepAt(cs[found.value := WithSeq(cs[found.value], n)], req, n, found, self, i);
    }
  }

  /** A reply carries the next number, at most 8, and the found record has risen to it. */
  lemma {:induction false} InitRecvReply(cs: Clients, req: nat, iniSeq: Word, self: Peer)
    requires req < |cs| && InitRecv(cs, req, iniSeq, self).reply.Some?
    ensures var h := InitRecv(cs, req, iniSeq, self); var r := h.reply.value; var k := Find(cs, cs[req].peer.priv);
      && |h.clients| == |cs| && 1 <= r.number <= 8 && r.number == NextSeq(iniSeq)
      && (r.on.Some? ==>
            && k.Some? && r.on.value == cs[k.value].id == h.clients[k.value].id
            && cs[k.value].IniSeq() < r.number == h.clients[k.value].IniSeq())
  {
    hide Find, FindNet, NextSeq;
  }

  lemma MsgJoinAt(cs: Clients, id: nat, joining: Peer, known: bool)
    requires RecordsOk(cs, id) && !Lowers(cs, joining, known)
    ensures Evolves(cs, id, MsgJoin(cs, id, joining, known), None)
    ensures DistinctIds(cs) ==> DistinctIds(MsgJoin(cs, id, joining, known))
  {
    hide Find;
    var ds := MsgJoin(cs, id, joining, known);
    var found := Find(cs, joining.pub);
    forall j | 0 <= j < |ds|
      ensures From(cs, ds[j], None) || (ds[j].id == id && RecordOk(ds[j], id + 1))
    {
      if found.Some? {
        assert Grows(cs[j], ds[j], None);
      } else if j > 0 {
        assert Grows(cs[j - 1], ds[j], None);
      }
    }
  }

  lemma SweepAt(cs: Clients, probes: seq<Probe>)
    requires |cs| == |probes|
    ensures forall j :: 0 <= j < |Sweep(cs, probes)| ==> From(cs, Sweep(cs, probes)[j], None)
    ensures DistinctIds(cs) ==> DistinctIds(Sweep(cs, probes))
  {
    hide Sweep, VerifyAll, Survivors, Gone;
    SweepKeepsOrder(cs, probes);
    var ds := Sweep(cs, probes);
    var ks := Survivors(VerifyAll(cs, probes), 0);
    forall j | 0 <= j < |ds|
      ensures From(cs, ds[j], None) && ds[j].id == cs[ks[j]].id
    {
      assert Kept(cs[ks[j]], ds[j]);
      assert Grows(cs[ks[j]], ds[j], None);
    }
  }

  /** One event: every record has grown or is new, and identities stay distinct. */
  lemma {:induction false} StepEvolves(st: State, f: Wire.Format, self: Peer, ev: Event)
    requires Enabled(st, ev) && RecordsOk(st.clients, st.next) && DistinctIds(st.clients)
    ensures var st', cause := Step(st, f, self, ev), InitOf(st, f, ev);
      && Evolves(st.clients, st.next, st'.clients, cause) && DistinctIds(st'.clients)
      && st.next <= st'.next && (ev.ConnectNet? || ev.ConnectHttp? || ev.JoinMsg? <==> st'.next == st.next + 1)
      && (!(ev.ConnectNet? || ev.ConnectHttp? || ev.JoinMsg?) ==>
            st'.next == st.next && forall j :: 0 <= j < |st'.clients| ==> From(st.clients, st'.clients[j], cause))
  {
    hide MsgJoin, Sweep, InitRecv, Find;
    var st' := Step(st, f, self, ev);
    match ev
    case JoinMsg(joining, known) => MsgJoinAt(st.clients, st.next, joining, known);
    case SweepAll(probes) => SweepAt(st.clients, probes);
    case Request(req, op, iniSeq) =>
      InitRecvGrows(st.clients, req, iniSeq, self, req);
      forall j | 0 <= j < |st'.clients|
        ensures Grows(st.clients[j], st'.clients[j], InitOf(st, f, ev))
      {
        InitRecvGrows(st.clients, req, iniSeq, self, j);
      }
    case CloseSocket(which) =>
      forall j | 0 <= j < |st'.clients|
        ensures Grows(st.clients[j], st'.clients[j], InitOf(st, f, ev))
      {
      }
    case _ =>
      forall j | 1 <= j < |st'.clients|
        ensures Grows(st.clients[j - 1], st'.clients[j], None)
      {
      }
  }

  // ----- the invariant of all runs -----

  /** Replies on account of one record carry growing numbers, none above 8 or above the record's own. */
  ghost predicate RepliesOk(cs: Clients, next: nat, rs: seq<Reply>) {
    && (forall i :: 0 <= i < |rs| ==> 1 <= rs[i].number <= 8)
    && (forall i :: 0 <= i < |rs| && rs[i].on.Some? ==> rs[i].on.value < next)
    && (forall i, j :: 0 <= i < |rs| && 0 <= j < |cs| && rs[i].on == Some(cs[j].id) ==> rs[i].number <= cs[j].IniSeq())
    && (forall i, k :: 0 <= i < k < |rs| && rs[i].on.Some? && rs[i].on == rs[k].on ==> rs[i].number < rs[k].number)
  }

  /**
   * While AUTH is set only initialisation is served, and a client that had to authenticate is
   * served nothing else before number 3.
   */
  predicate ServedOk(s: Served) {
    s.op != Wire.TX_INIT ==>
      !s.from.flags.auth && (s.from.accepted ==> s.from.flags.net && s.from.IniSeq() >= 3)
  }

  ghost predicate Inv(st: State) {
    && RecordsOk(st.clients, st.next) && DistinctIds(st.clients) && RepliesOk(st.clients, st.next, st.replies)
    && forall i :: 0 <= i < |st.served| ==> ServedOk(st.served[i])
  }

  lemma EvolvedRecordsOk(cs: Clients, next: nat, ds: Clients, next': nat, cause: Option<Init>)
    requires RecordsOk(cs, next) && next <= next'
    requires forall j :: 0 <= j < |ds| ==>
      From(cs, ds[j], cause) || (ds[j].id == next < next' && RecordOk(ds[j], next + 1))
    ensures RecordsOk(ds, next')
  {
    forall j | 0 <= j < |ds|
      ensures RecordOk(ds[j], next')
    {
      if From(cs, ds[j], cause) {
        var i :| 0 <= i < |cs| && Grows(cs[i], ds[j], cause);
        assert RecordOk(cs[i], next);
      }
    }
  }

  /** Old replies stay below the grown records; a new identity has none yet. */
  lemma OldRepliesOk(cs: Clients, next: nat, rs: seq<Reply>, ds: Clients, next': nat, cause: Option<Init>)
    requires RepliesOk(cs, next, rs) && next <= next'
    requires forall j :: 0 <= j < |ds| ==> From(cs, ds[j], cause) || ds[j].id >= next
    ensures RepliesOk(ds, next', rs)
  {
    forall i, j | 0 <= i < |rs| && 0 <= j < |ds| && rs[i].on == Some(ds[j].id)
      ensures rs[i].number <= ds[j].IniSeq()
    {
      if From(cs, ds[j], cause) {
        var k :| 0 <= k < |cs| && Grows(cs[k], ds[j], cause);
        assert rs[i].on == Some(cs[k].id);
      }
    }
  }

  lemma NewReplyOk(cs: Clients, ds: Clients, next: nat, rs: seq<Reply>, r: Reply, k: nat)
    requires RepliesOk(cs, next, rs) && RepliesOk(ds, next, rs) && DistinctIds(ds) && 1 <= r.number <= 8
    requires r.on.Some? ==>
      && k < |ds| == |cs| && ds[k].id == cs[k].id == r.on.value < next
      && cs[k].IniSeq() < r.number == ds[k].IniSeq()
    ensures RepliesOk(ds, next, rs + [r])
  {
    if r.on.Some? {
      forall i | 0 <= i < |rs| && rs[i].on == r.on
        ensures rs[i].number < r.number
      {
        assert rs[i].on == Some(cs[k].id);
      }
    }
  }

  /** Every event keeps the invariant. */
  lemma {:induction false} StepKeepsInv(st: State, f: Wire.Format, self: Peer, ev: Event)
    requires Enabled(st, ev) && Inv(st)
    ensures Inv(Step(st, f, self, ev))
  {
    hide MsgJoin, Sweep, InitRecv, Find, RecordsOk, DistinctIds, RepliesOk, From;
    var st' := Step(st, f, self, ev);
    StepEvolves(st, f, self, ev);
    EvolvedRecordsOk(st.clients, st.next, st'.clients, st'.next, InitOf(st, f, ev));
    OldRepliesOk(st.clients, st.next, st.replies, st'.clients, st'.next, InitOf(st, f, ev));
    if ev.Request? {
      RequestKeepsReplies(st, f, self, ev.req, ev.op, ev.iniSeq);
      ServedRecordOk(st, ev.req);
    }
  }

  lemma ServedRecordOk(st: State, req: nat)
    requires req < |st.clients| && RecordsOk(st.clients, st.next)
    ensures RecordOk(st.clients[req], st.next)
  {
  }

  lemma RequestKeepsReplies(st: State, f: Wire.Format, self: Peer, req: nat, op: Word, iniSeq: Word)
    requires req < |st.clients| && Inv(st)
    requires var st' := Serve(st, f, self, req, op, iniSeq);
      RepliesOk(st'.clients, st.next, st.replies) && DistinctIds(st'.clients)
    ensures var st' := Serve(st, f, self, req, op, iniSeq); RepliesOk(st'.clients, st.next, st'.replies)
  {
    hide InitRecv, Find, RepliesOk, DistinctIds, RecordsOk, ServedOk;
    var st' := Serve(st, f, self, req, op, iniSeq);
    if |st'.replies| > |st.replies| {
      var h := InitRecv(st.clients, req, iniSeq, self);
      var found := Find(st.clients, st.clients[req].peer.priv);
      InitRecvReply(st.clients, req, iniSeq, self);
      if found.Some? {
        ServedRecordOk(st, found.value);
      }
      NewReplyOk(st.clients, h.clients, st.next, st.replies, h.reply.value, if found.Some? then found.value else 0);
    }
  }

  // ----- runs -----

  const START := State([], 0, [], [], false)

  function Run(st: State, f: Wire.Format, self: Peer, evs: seq<Event>): State
    decreases |evs|
  {
    if evs == [] then st
    else Run(if Enabled(st, evs[0]) then Step(st, f, self, evs[0]) else st, f, self, evs[1..])
  }

  /** The invariant holds in every reachable state. */
  lemma {:induction false} RunKeepsInv(st: State, f: Wire.Format, self: Peer, evs: seq<Event>)
    requires Inv(st)
    ensures Inv(Run(st, f, self, evs)) && st.next <= Run(st, f, self, evs).next
    decreases |evs|
  {
    hide Inv, Step;
    if evs != [] {
      if Enabled(st, evs[0]) {
        StepKeepsInv(st, f, self, evs[0]);
        StepNext(st, f, self, evs[0]);
        RunKeepsInv(Step(st, f, self, evs[0]), f, self, evs[1..]);
      } else {
        RunKeepsInv(st, f, self, evs[1..]);
      }
    }
  }

  lemma StepNext(st: State, f: Wire.Format, self: Peer, ev: Event)
    requires Enabled(st, ev) && Inv(st)
    ensures st.next <= Step(st, f, self, ev).next
  {
    StepEvolves(st, f, self, ev);
  }

  lemma {:induction false} ReachableIsSafe(f: Wire.Format, self: Peer, evs: seq<Event>)
    ensures Inv(Run(START, f, self, evs))
  {
    hide Run;
    RunKeepsInv(START, f, self, evs);
  }

  /** A record that has left the list does not come back. */
  lemma {:induction false} GoneForGood(st: State, f: Wire.Format, self: Peer, evs: seq<Event>, id: nat)
    requires Inv(st) && id < st.next && forall i :: 0 <= i < |st.clients| ==> st.clients[i].id != id
    ensures forall d :: d in Run(st, f, self, evs).clients ==> d.id != id
    decreases |evs|
  {
    hide Inv, Step, From;
    if evs != [] {
      var st' := if Enabled(st, evs[0]) then Step(st, f, self, evs[0]) else st;
      if Enabled(st, evs[0]) {
        StepKeepsInv(st, f, self, evs[0]);
        StepOrigin(st, f, self, evs[0]);
      }
      GoneForGood(st', f, self, evs[1..], id);
      assert Run(st, f, self, evs) == Run(st', f, self, evs[1..]);
    }
  }

  /** Where the records after an event come from, by identity. */
  lemma StepOrigin(st: State, f: Wire.Format, self: Peer, ev: Event)
    requires Enabled(st, ev) && Inv(st)
    ensures var st' := Step(st, f, self, ev);
      && st.next <= st'.next
      && forall j :: 0 <= j < |st'.clients| && st'.clients[j].id < st.next ==>
           exists i :: 0 <= i < |st.clients| && st.clients[i].id == st'.clients[j].id
                       && Grows(st.clients[i], st'.clients[j], InitOf(st, f, ev))
  {
    StepEvolves(st, f, self, ev);
  }

  /** Over every run a record's handshake number never falls, and AUTH is never set again. */
  lemma {:induction false} NumbersNeverFall(st: State, f: Wire.Format, self: Peer, evs: seq<Event>,
                                            c: Record, d: Record)
    requires Inv(st) && c in st.clients && d in Run(st, f, self, evs).clients && c.id == d.id
    ensures SameKind(c, d) && c.IniSeq() <= d.IniSeq() && (d.flags.auth ==> c.flags.auth)
    decreases |evs|
  {
    hide Step, RepliesOk;
    var i :| 0 <= i < |st.clients| && st.clients[i] == c;
    if evs == [] {
      assert c == d;
    } else if !Enabled(st, evs[0]) {
      NumbersNeverFall(st, f, self, evs[1..], c, d);
    } else {
      var st' := Step(st, f, self, evs[0]);
      StepKeepsInv(st, f, self, evs[0]);
      StepOrigin(st, f, self, evs[0]);
      assert Run(st, f, self, evs).clients == Run(st', f, self, evs[1..]).clients;
      if j :| 0 <= j < |st'.clients| && st'.clients[j].id == c.id {
        var e := st'.clients[j];
        var k :| 0 <= k < |st.clients| && st.clients[k].id == e.id && Grows(st.clients[k], e, InitOf(st, f, evs[0]));
        assert k == i;
        NumbersNeverFall(st', f, self, evs[1..], e, d);
      } else {
        GoneForGood(st', f, self, evs[1..], c.id);
      }
    }
  }

  /** AUTH is cleared by an initialisation with number 3 or 4 only, on the registered record of its sender's key. */
  lemma {:induction false} AuthClearedByHandshake(st: State, f: Wire.Format, self: Peer, ev: Event,
                                                  c: Record, d: Record)
    requires Enabled(st, ev) && Inv(st) && c in st.clients && d in Step(st, f, self, ev).clients && c.id == d.id
    requires c.flags.auth && !d.flags.auth
    ensures ev.Request? && ev.op == Wire.TX_INIT
    ensures d.IniSeq() == NextSeq(ev.iniSeq) && (d.IniSeq() == 3 || d.IniSeq() == 4)
    ensures c.flags.net && c.flags.register && c.peer.priv == st.clients[ev.req].peer.priv
  {
    hide RepliesOk, MsgJoin, Sweep;
    var st' := Step(st, f, self, ev);
    StepOrigin(st, f, self, ev);
    var i :| 0 <= i < |st.clients| && st.clients[i] == c;
    var j :| 0 <= j < |st'.clients| && st'.clients[j] == d;
    assert d.id < st.next;
    var k :| 0 <= k < |st.clients| && st.clients[k].id == d.id && Grows(st.clients[k], d, InitOf(st, f, ev));
    assert k == i;
  }

  // ----- the handshake by numbers -----

  /** What becomes of one record: of the sender's found one, and else of the first with its key at number 1. */
  function Advanced(cs: Clients, req: nat, n: Word, self: Peer, i: nat): Record
    requires req < |cs| && i < |cs|
  {
    var c, found := cs[i], Find(cs, cs[req].peer.priv);
    if found == Some(i) && c.IniSeq() < n then
      c.(slot := c.slot.(w1 := n), peer := if n == 2 then self else c.peer,
         flags := c.flags.(register := c.flags.register || n == 2, auth := c.flags.auth && n != 3 && n != 4))
    else if found == None && n == 1 && FindNet(cs, cs[req].peer.priv) == Some(i) then
      c.(peer := self, flags := c.flags.(register := true))
    else c
  }

  /** An initialisation whose number is `n` once incremented: which records it changes, and how. */
  lemma {:induction false} RecordAdvances(cs: Clients, req: nat, iniSeq: Word, self: Peer, i: nat)
    requires req < |cs| && i < |cs|
    ensures var h := InitRecv(cs, req, iniSeq, self);
      && |h.clients| == |cs|
      && h.clients[i] == Advanced(cs, req, if iniSeq == 0xffff_ffff then 0 else iniSeq + 1, self, i)
  {
    hide Find, FindNet;
  }

  /** Exactly when it is answered, with what and to whom, and exactly when which error is returned. */
  lemma {:induction false} AnswerExactly(cs: Clients, req: nat, iniSeq: Word, self: Peer)
    requires req < |cs|
    ensures var n := if iniSeq == 0xffff_ffff then 0 else iniSeq + 1;
      var h, key := InitRecv(cs, req, iniSeq, self), cs[req].peer.priv;
      var found, first := Find(cs, key), FindNet(cs, key);
      var rises := found.Some? && cs[found.value].IniSeq() < n;
      && |h.clients| == |cs|
      && (h.reply.Some? <==> (rises && 2 <= n <= 8) || (found.None? && n == 1 && first.Some?))
      && (h.reply.Some? ==> h.reply.value == Reply(h.clients[req].peer.priv,
                                                   if rises then Some(cs[found.value].id) else None, n))
      && (h.code == NotUnique <==> rises && n == 1)
      && (h.code == Invalid <==> found.None? && (n > 2 || (n == 1 && first.None?)))
      && (h.code == Fault <==> found.None? && n == 2)
  {
    hide Find, FindNet;
  }

  // ----- who is found -----

  /** A new network client is found, under its private key, exactly if it need not authenticate first. */
  lemma {:induction false} NewNetFound(cs: Clients, id: nat, fd: Word, peer: Peer, auth: bool, shutdown: bool,
                                       appOk: bool, key: Key)
    ensures var c := NewNet(id, fd, peer, auth, shutdown, appOk);
      && c.Fd() == fd && c.IniSeq() == 0 && c.flags.net && c.flags.auth == auth && c.flags.shutdown == shutdown
      && (Find([c] + cs, key) == Some(0) <==> key == peer.priv && appOk && !auth && !shutdown)
      && (key == peer.priv ==> FindNet([c] + cs, key) == Some(0))
  {
    hide FindNet;
    FirstOf(NewNet(id, fd, peer, auth, shutdown, appOk), cs, key);
  }

  lemma FirstOf(c: Record, cs: Clients, key: Key)
    ensures Find([c] + cs, key) == Some(0) <==> Matches(c, key)
    ensures c.flags.net && c.peer.priv == key ==> FindNet([c] + cs, key) == Some(0)
  {
    hide Matches;
  }

  /** A new HTTP client is never found. */
  lemma {:induction false} NewHttpNotFound(cs: Clients, id: nat, fd: Word, key: Key)
    ensures NewHttp(id, fd).Fd() == fd && Find([NewHttp(id, fd)] + cs, key) != Some(0)
  {
    FirstOf(NewHttp(id, fd), cs, key);
  }

  /**
   * After its announcement a new message client is found under its public key, or under the zero key
   * where the announcement was not accepted.
   */
  lemma {:induction false} JoinedFound(cs: Clients, id: nat, joining: Peer, known: bool, key: Key)
    requires Find(cs, joining.pub).None?
    ensures var ds := MsgJoin(cs, id, joining, known);
      && |ds| == |cs| + 1 && ds[1..] == cs && ds[0].peer == joining
      && (Find(ds, key) == Some(0) <==> key == if known then joining.pub else Key(0, 0, 0))
  {
    hide Find;
    FirstOf(MsgJoin(cs, id, joining, known)[0], cs, key);
  }

  /** An announcement under a key that is found changes that record only. */
  lemma {:induction false} JoinChanges(cs: Clients, id: nat, joining: Peer, known: bool)
    requires Find(cs, joining.pub).Some?
    ensures var ds, k := MsgJoin(cs, id, joining, known), Find(cs, joining.pub).value;
      var c, d := cs[k], ds[k];
      && |ds| == |cs| && (forall i :: 0 <= i < |cs| && i != k ==> ds[i] == cs[i])
      && d.peer == joining && d.slot == (if known then joining.pub else c.slot)
      && (d.flags.register <==> c.flags.register || (known && !c.flags.auth && !c.flags.shutdown))
      && d.flags.(register := false) == c.flags.(register := false) && d.id == c.id
  {
    hide Find;
  }

  // ----- replies end, and what the handshake cannot protect against -----

  /** Message number `m` answers number `n` in some state of some daemon. */
  ghost predicate Answers(n: Word, m: Word) {
    exists cs: Clients, req: nat, self: Peer :: req < |cs| && AnswersIn(cs, req, self, n, m)
  }

  predicate AnswersIn(cs: Clients, req: nat, self: Peer, n: Word, m: Word)
    requires req < |cs|
  {
    var reply := InitRecv(cs, req, n, self).reply;
    reply.Some? && reply.value.number == m
  }

  lemma AnswerIsNext(cs: Clients, req: nat, self: Peer, n: Word, m: Word)
    requires req < |cs| && AnswersIn(cs, req, self, n, m)
    ensures m == n + 1 && m <= 8
  {
    hide Find;
  }

  /** A chain of replies, each answering the one before, has at most eight of them. */
  lemma {:induction false} ChainsEnd(ns: seq<Word>)
    requires forall i :: 0 <= i < |ns| - 1 ==> Answers(ns[i], ns[i + 1])
    ensures |ns| > 1 ==> ns[|ns| - 1] == ns[0] + |ns| - 1 <= 8
    ensures |ns| <= 9
  {
    if |ns| > 1 {
      var n := |ns| - 1;
      var front := ns[..n];
      forall i | 0 <= i < |front| - 1
        ensures Answers(front[i], front[i + 1])
      {
        assert Answers(ns[i], ns[i + 1]);
      }
      ChainsEnd(front);
      assert Answers(ns[n - 1], ns[n - 1 + 1]);
      var cs: Clients, req: nat, self: Peer :| req < |cs| && AnswersIn(cs, req, self, ns[n - 1], ns[n]);
      AnswerIsNext(cs, req, self, ns[n - 1], ns[n]);
    }
  }

  /**
   * The one kind of event that the runs exclude: exactly then would a number fall, and only a
   * registered network client's record, whose private key the message client announces, can suffer it.
   */
  lemma {:induction false} JoinOverNetwork(cs: Clients, id: nat, joining: Peer, known: bool)
    requires Find(cs, joining.pub).Some?
    ensures var k := Find(cs, joining.pub).value;
      && (MsgJoin(cs, id, joining, known)[k].IniSeq() < cs[k].IniSeq() <==> Lowers(cs, joining, known))
      && (Lowers(cs, joining, known) ==>
            cs[k].flags.net && cs[k].flags.register && cs[k].peer.priv == joining.pub)
  {
    hide Find;
  }

  /** Exactly when the code follows a null pointer: number 2 from a peer without a record. */
  lemma {:induction false} FaultsExactly(st: State, f: Wire.Format, self: Peer, ev: Event)
    requires Enabled(st, ev)
    ensures Step(st, f, self, ev).faulted
       <==> (&& ev.Request? && ev.op == Wire.TX_INIT && Wire.Admitted(f, st.clients[ev.req].flags.auth, ev.op)
             && NextSeq(ev.iniSeq) == 2 && Find(st.clients, st.clients[ev.req].peer.priv).None?)
  {
    hide Find, FindNet, MsgJoin, Sweep;
  }

  // ----- runs that show it -----

  lemma RunCons(st: State, f: Wire.Format, self: Peer, ev: Event, evs: seq<Event>)
    requires Enabled(st, ev)
    ensures Run(st, f, self, [ev] + evs) == Run(Step(st, f, self, ev), f, self, evs)
    ensures Run(st, f, self, [ev]) == Step(st, f, self, ev)
  {
    hide Step, Enabled;
    assert ([ev] + evs)[1..] == evs && [ev][1..] == [];
    assert Run(Step(st, f, self, ev), f, self, []) == Step(st, f, self, ev);
  }

  /** The state after one network client has connected. */
  lemma Connected(f: Wire.Format, self: Peer, fd: Word, peer: Peer, auth: bool, evs: seq<Event>)
    ensures var c := NewNet(0, fd, peer, auth, false, true);
      Run(START, f, self, [ConnectNet(fd, peer, auth, false, true)] + evs)
      == Run(State([c], 1, [], [], false), f, self, evs)
  {
    var ev := ConnectNet(fd, peer, auth, false, true);
    RunCons(START, f, self, ev, evs);
    assert Step(START, f, self, ev) == State([NewNet(0, fd, peer, auth, false, true)], 1, [], [], false);
  }

  /** A new client that still has to authenticate opens with number 2. */
  lemma {:induction false} FaultInput(f: Wire.Format, self: Peer, fd: Word, peer: Peer)
    requires f.maxTx > Wire.TX_INIT
    ensures Run(START, f, self, [ConnectNet(fd, peer, true, false, true)] + [Request(0, Wire.TX_INIT, 1)]).faulted
  {
    var st := State([NewNet(0, fd, peer, true, false, true)], 1, [], [], false);
    var ev := Request(0, Wire.TX_INIT, 1);
    Connected(f, self, fd, peer, true, [ev]);
    RunCons(st, f, self, ev, []);
    assert Find(st.clients, peer.priv).None?;
    FaultsExactly(st, f, self, ev);
  }

  /** AUTH does get cleared: by a client that sends number 1 and then number 3. */
  lemma {:induction false} AuthClearedInput(f: Wire.Format, self: Peer, fd: Word, peer: Peer)
    requires f.maxTx > Wire.TX_INIT
    ensures NewNet(0, fd, peer, true, false, true).flags.auth
    ensures var evs := [ConnectNet(fd, peer, true, false, true)]
                     + ([Request(0, Wire.TX_INIT, 0)] + [Request(0, Wire.TX_INIT, 2)]);
      var st := Run(START, f, self, evs);
      |st.clients| == 1 && st.clients[0].accepted && !st.clients[0].flags.auth && st.clients[0].IniSeq() == 3
  {
    var first, third := Request(0, Wire.TX_INIT, 0), Request(0, Wire.TX_INIT, 2);
    var c0 := NewNet(0, fd, peer, true, false, true);
    var st := State([c0], 1, [], [], false);
    Connected(f, self, fd, peer, true, [first] + [third]);
    RunCons(st, f, self, first, [third]);
    assert Find([c0], peer.priv).None? && FindNet([c0], peer.priv) == Some(0);
    var c1 := Registered(c0, self);
    var st1 := Step(st, f, self, first);
    assert [c0][0 := c1] == [c1];
    assert st1.clients == [c1] && !st1.faulted;
    RunCons(st1, f, self, third, []);
    assert Find([c1], self.priv) == Some(0);
    assert Step(st1, f, self, third).clients[0] == Authenticated(WithSeq(c1, 3));
  }

  /** A number does fall, where the announced key's second word is 0 and the client has sent number 1. */
  lemma {:induction false} NumberLoweredInput(f: Wire.Format, self: Peer, fd: Word, peer: Peer, joining: Peer)
    requires f.maxTx > Wire.TX_INIT && joining.pub == peer.priv && peer.priv.w1 == 0
    ensures var evs := [ConnectNet(fd, peer, false, false, true)] + [Request(0, Wire.TX_INIT, 0)];
      var st := Run(START, f, self, evs);
      && Lowers(st.clients, joining, true) && st.clients[0].IniSeq() == 1
      && MsgJoin(st.clients, st.next, joining, true)[0].IniSeq() == 0
  {
    var ev := Request(0, Wire.TX_INIT, 0);
    var c0 := NewNet(0, fd, peer, false, false, true);
    var st := State([c0], 1, [], [], false);
    Connected(f, self, fd, peer, false, [ev]);
    RunCons(st, f, self, ev, []);
    assert Find([c0], peer.priv) == Some(0);
    var c1 := WithSeq(c0, 1);
    var st1 := Step(st, f, self, ev);
    assert [c0][0 := c1] == [c1];
    assert st1.clients == [c1];
    assert Find([c1], peer.priv) == Some(0);
  }
}
