/**
 * The condition variable that the Windows threads layer builds from a mutex and one auto-reset
 * event per thread: a state machine over the steps of all threads.
 */
module CondVar {
  import opened Options

  type Tid = nat
  type Addr = nat

  /**
   * A per-thread record. The rest is history: how often its event was set, how many waits it has
   * ended, and how often it had been set when its last wait ended, in whichever way.
   */
  datatype Record = Record(tid: Tid, event: bool, sets: nat, wakes: nat, ended: nat)

  /** The two lists of a condition variable over the records in memory. */
  datatype Lists = Lists(records: map<Addr, Record>, waiters: seq<Addr>, notWaiting: seq<Addr>, next: Addr)

  const EMPTY := Lists(map[], [], [], 0)

  // ----- list operations -----

  /** The first entry of a list that belongs to the thread. */
  function FindTid(records: map<Addr, Record>, list: seq<Addr>, t: Tid): (r: Option<Addr>)
    requires forall a :: a in list ==> a in records
    ensures r.Some? ==> r.value in list && records[r.value].tid == t
    ensures r.None? ==> forall a :: a in list ==> records[a].tid != t
  {
    if list == [] then None
    else if records[list[0]].tid == t then Some(list[0])
    else FindTid(records, list[1..], t)
  }

  /** `list_del` of an entry of this list. */
  function Del(list: seq<Addr>, a: Addr): (r: seq<Addr>)
    ensures a !in list ==> r == list
    ensures forall x :: x in r ==> x in list
    ensures forall x :: x in list && x != a ==> x in r
  {
    if list == [] then []
    else if list[0] == a then list[1..]
    else [list[0]] + Del(list[1..], a)
  }

  predicate NoDup(list: seq<Addr>) {
    forall i, j :: 0 <= i < j < |list| ==> list[i] != list[j]
  }

  lemma {:induction false} DelNoDup(list: seq<Addr>, a: Addr)
    requires NoDup(list)
    ensures NoDup(Del(list, a)) && a !in Del(list, a)
  {
    if list != [] && list[0] != a {
      DelNoDup(list[1..], a);
      assert list[0] !in list[1..];
    }
  }

  /** A list without duplicates, and a new first entry. */
  lemma ConsNoDup(list: seq<Addr>, a: Addr)
    requires NoDup(list) && a !in list
    ensures NoDup([a] + list)
  {
  }

  // ----- what the code does under the mutex -----

  predicate ListsOk(l: Lists) {
    && NoDup(l.waiters) && NoDup(l.notWaiting)
    && (forall a :: a in l.waiters ==> a in l.records && a !in l.notWaiting)
    && (forall a :: a in l.notWaiting ==> a in l.records)
    && (forall a :: a in l.records ==> a < l.next && (a in l.waiters || a in l.notWaiting))
    && (forall a, b :: a in l.records && b in l.records && l.records[a].tid == l.records[b].tid ==> a == b)
    && (forall a :: a in l.records ==> HistoryOk(l.records[a]))
  }

  /** Waits are paid for by settings of the event, and it is set exactly if it was since the last wait ended. */
  predicate HistoryOk(r: Record) {
    r.wakes + (if r.event then 1 else 0) <= r.sets && (r.event <==> r.ended < r.sets) && r.ended <= r.sets
  }

  /** The record that the thread will wait on: its idle one, or a new one. */
  function OwnRecord(l: Lists, t: Tid): Addr
    requires ListsOk(l)
  {
    var found := FindTid(l.records, l.notWaiting, t);
    if found.None? then l.next else found.value
  }

  function EnterWait(l: Lists, t: Tid): Lists
    requires ListsOk(l)
  {
    var a := OwnRecord(l, t);
    if a == l.next then
      Lists(l.records[a := Record(t, false, 0, 0, 0)], [a] + l.waiters, l.notWaiting, l.next + 1)
    else
      l.(waiters := [a] + l.waiters, notWaiting := Del(l.notWaiting, a))
  }

  function LeaveWait(l: Lists, a: Addr): Lists {
    l.(waiters := Del(l.waiters, a), notWaiting := [a] + l.notWaiting)
  }

  /** `SetEvent`; setting a set event changes nothing but the history. */
  function SetEvent(l: Lists, a: Addr): Lists
    requires a in l.records
  {
    var r := l.records[a];
    l.(records := l.records[a := r.(event := true, sets := r.sets + 1)])
  }

  /** A satisfied wait resets the event. */
  function TakeEvent(l: Lists, a: Addr): Lists
    requires a in l.records
  {
    var r := l.records[a];
    l.(records := l.records[a := r.(event := false, wakes := r.wakes + 1, ended := r.sets)])
  }

  /** A wait that times out finds the event reset, and changes nothing but the history. */
  function GiveUp(l: Lists, a: Addr): Lists
    requires a in l.records
  {
    var r := l.records[a];
    l.(records := l.records[a := r.(ended := r.sets)])
  }

  // ----- threads -----

  /** Where a thread is. The mutex is held Inside, Queued, Returning and Broadcasting. */
  datatype Pc =
    | Outside
    | Inside
    | Queued(pos: Addr)                      // on `waiters`, about to release the mutex
    | Blocked(pos: Addr)                     // in WaitForSingleObject
    | Woken(pos: Addr, timedOut: bool)       // about to take the mutex again
    | Returning(pos: Addr, timedOut: bool)   // about to go back to `not_waiting`
    | Broadcasting(todo: seq<Addr>)          // the rest of `waiters`
  {
    predicate Holds() { Inside? || Queued? || Returning? || Broadcasting? }

    predicate Waits() { Queued? || Blocked? || Woken? || Returning? }
  }

  datatype State = State(lists: Lists, owner: Option<Tid>, pcs: map<Tid, Pc>) {
    function Pc(t: Tid): Pc { if t in pcs then pcs[t] else Outside }

    function At(t: Tid, pc: Pc): State { this.(pcs := pcs[t := pc]) }
  }

  const START := State(EMPTY, None, map[])

  datatype Action =
    | Lock | Unlock | Enqueue | Release | Consume | TimeOut | Relock | Dequeue | StartBroadcast | SetNext | EndBroadcast

  datatype Step = Step(t: Tid, action: Action)

  predicate Enabled(s: State, step: Step)
    requires ListsOk(s.lists)
  {
    var pc := s.Pc(step.t);
    match step.action
    case Lock => pc.Outside? && s.owner.None?
    case Unlock => pc.Inside?
    case Enqueue => pc.Inside?
    case Release => pc.Queued?
    case Consume => pc.Blocked? && pc.pos in s.lists.records && s.lists.records[pc.pos].event
    case TimeOut => pc.Blocked? && pc.pos in s.lists.records && !s.lists.records[pc.pos].event
    case Relock => pc.Woken? && s.owner.None?
    case Dequeue => pc.Returning?
    case StartBroadcast => pc.Inside?
    case SetNext => pc.Broadcasting? && pc.todo != [] && pc.todo[0] in s.lists.records
    case EndBroadcast => pc.Broadcasting? && pc.todo == []
  }

  function Next(s: State, step: Step): State
    requires ListsOk(s.lists) && Enabled(s, step)
  {
    var t, pc, l := step.t, s.Pc(step.t), s.lists;
    match step.action
    case Lock => s.At(t, Inside).(owner := Some(t))
    case Unlock => s.At(t, Outside).(owner := None)
    case Enqueue => s.At(t, Queued(OwnRecord(l, t))).(lists := EnterWait(l, t))
    case Release => s.At(t, Blocked(pc.pos)).(owner := None)
    case Consume => s.At(t, Woken(pc.pos, false)).(lists := TakeEvent(l, pc.pos))
    case TimeOut => s.At(t, Woken(pc.pos, true)).(lists := GiveUp(l, pc.pos))
    case Relock => s.At(t, Returning(pc.pos, pc.timedOut)).(owner := Some(t))
    case Dequeue => s.At(t, Inside).(lists := LeaveWait(l, pc.pos))
    case StartBroadcast => s.At(t, Broadcasting(l.waiters))
    case SetNext => s.At(t, Broadcasting(pc.todo[1..])).(lists := SetEvent(l, pc.todo[0]))
    case EndBroadcast => s.At(t, Inside)
  }

  // ----- the invariant -----

  /** One thread's part of the invariant. */
  predicate ThreadOk(s: State, t: Tid) {
    var pc := s.Pc(t);
    && (pc.Holds() <==> s.owner == Some(t))
    && (pc.Waits() ==> pc.pos in s.lists.waiters && pc.pos in s.lists.records && s.lists.records[pc.pos].tid == t)
    && (pc.Broadcasting? ==> forall a :: a in pc.todo ==> a in s.lists.waiters)
  }

  /** A record on `waiters` is there because its thread waits on it. */
  predicate WaiterOk(s: State, a: Addr)
    requires a in s.lists.records
  {
    var pc := s.Pc(s.lists.records[a].tid);
    pc.Waits() && pc.pos == a
  }

  ghost predicate Inv(s: State) {
    && ListsOk(s.lists)
    && (forall t :: ThreadOk(s, t))
    && (forall a :: a in s.lists.waiters ==> WaiterOk(s, a))
  }

  lemma EnterKeepsLists(l: Lists, t: Tid)
    requires ListsOk(l)
    requires forall a :: a in l.waiters ==> l.records[a].tid != t
    ensures ListsOk(EnterWait(l, t))
    ensures var a, r := OwnRecord(l, t), EnterWait(l, t);
      a in r.waiters && a in r.records && r.records[a].tid == t
  {
    var a, r := OwnRecord(l, t), EnterWait(l, t);
    if a == l.next {
      ConsNoDup(l.waiters, a);
    } else {
      DelNoDup(l.notWaiting, a);
      ConsNoDup(l.waiters, a);
    }
  }

  /** The thread's own record, idle or new, is the first waiter then; nothing else moves or changes. */
  lemma {:induction false} EnterExactly(l: Lists, t: Tid)
    requires ListsOk(l)
    ensures var a, r := OwnRecord(l, t), EnterWait(l, t);
      && r.waiters == [a] + l.waiters && a !in r.notWaiting
      && a in r.records && r.records[a].tid == t && r.records.Keys == l.records.Keys + {a}
      && (forall x :: x in l.records ==> r.records[x] == l.records[x])
      && (forall x :: x in l.notWaiting && x != a ==> x in r.notWaiting)
      && (forall x :: x in r.notWaiting ==> x in l.notWaiting)
      && (a !in l.records <==> forall x :: x in l.notWaiting ==> l.records[x].tid != t)
      && (a !in l.records ==> !r.records[a].event)
  {
    var a := OwnRecord(l, t);
    if a != l.next {
      DelNoDup(l.notWaiting, a);
    }
    hide NoDup, HistoryOk;
  }

  lemma LeaveKeepsLists(l: Lists, a: Addr)
    requires ListsOk(l) && a in l.waiters
    ensures ListsOk(LeaveWait(l, a))
  {
    DelNoDup(l.waiters, a);
    ConsNoDup(l.notWaiting, a);
  }

  lemma RecordKeepsLists(l: Lists, a: Addr, r: Record)
    requires ListsOk(l) && a in l.records && r.tid == l.records[a].tid && HistoryOk(r)
    ensures ListsOk(l.(records := l.records[a := r]))
  {
    hide NoDup, HistoryOk;
  }

  lemma SetKeepsLists(l: Lists, a: Addr)
    requires ListsOk(l) && a in l.records
    ensures ListsOk(SetEvent(l, a)) && (if l.records[a].event then ListsOk(TakeEvent(l, a)) else ListsOk(GiveUp(l, a)))
  {
    assert HistoryOk(l.records[a]);
    hide ListsOk;
    RecordKeepsLists(l, a, SetEvent(l, a).records[a]);
    if l.records[a].event {
      RecordKeepsLists(l, a, TakeEvent(l, a).records[a]);
    } else {
      RecordKeepsLists(l, a, GiveUp(l, a).records[a]);
    }
  }

  lemma EnqueueKeepsInv(s: State, t: Tid)
    requires Inv(s) && Enabled(s, Step(t, Enqueue))
    ensures Inv(Next(s, Step(t, Enqueue)))
  {
    hide NoDup, OwnRecord;
    var l, s' := s.lists, Next(s, Step(t, Enqueue));
    forall a | a in l.waiters
      ensures l.records[a].tid != t
    {
      assert WaiterOk(s, a);
    }
    EnterKeepsLists(l, t);
    forall u
      ensures ThreadOk(s', u)
    {
      assert ThreadOk(s, u) && ThreadOk(s, t);
    }
    forall a | a in s'.lists.waiters
      ensures WaiterOk(s', a)
    {
      if a in l.waiters {
        assert WaiterOk(s, a);
      }
    }
  }

  lemma DequeueKeepsInv(s: State, t: Tid)
    requires Inv(s) && Enabled(s, Step(t, Dequeue))
    ensures Inv(Next(s, Step(t, Dequeue)))
  {
    hide NoDup, HistoryOk, ListsOk;
    var l, s' := s.lists, Next(s, Step(t, Dequeue));
    var pos := s.Pc(t).pos;
    assert ThreadOk(s, t);
    WaitersOk(l);
    LeaveKeepsLists(l, pos);
    DelNoDup(l.waiters, pos);
    forall u
      ensures ThreadOk(s', u)
    {
      assert ThreadOk(s, u);
    }
    forall a | a in s'.lists.waiters
      ensures WaiterOk(s', a)
    {
      assert WaiterOk(s, a);
    }
  }

  /** Setting or taking an event moves no record. */
  lemma EventKeepsRecords(s: State, s': State, t: Tid, a: Addr)
    requires Inv(s) && a in s.lists.records && ListsOk(s'.lists)
    requires exists r :: s'.lists == s.lists.(records := s.lists.records[a := r]) && r.tid == s.lists.records[a].tid
    requires s'.owner == s.owner && s'.pcs == s.pcs[t := s'.Pc(t)] && ThreadOk(s', t)
    requires s.Pc(t).Waits() == s'.Pc(t).Waits() && (s.Pc(t).Waits() ==> s'.Pc(t).pos == s.Pc(t).pos)
    ensures Inv(s')
  {
    hide NoDup, HistoryOk;
    forall u
      ensures ThreadOk(s', u)
    {
      assert ThreadOk(s, u);
    }
    forall b | b in s'.lists.waiters
      ensures WaiterOk(s', b)
    {
      assert WaiterOk(s, b);
    }
  }

  lemma SetNextKeepsInv(s: State, t: Tid)
    requires Inv(s) && Enabled(s, Step(t, SetNext))
    ensures Inv(Next(s, Step(t, SetNext)))
  {
    hide NoDup, HistoryOk;
    var s' := Next(s, Step(t, SetNext));
    var a := s.Pc(t).todo[0];
    SetKeepsLists(s.lists, a);
    assert ThreadOk(s, t);
    assert s'.lists == s.lists.(records := s.lists.records[a := s'.lists.records[a]]);
    EventKeepsRecords(s, s', t, a);
  }

  lemma ConsumeKeepsInv(s: State, t: Tid)
    requires Inv(s) && Enabled(s, Step(t, Consume))
    ensures Inv(Next(s, Step(t, Consume)))
  {
    hide NoDup, HistoryOk;
    var s' := Next(s, Step(t, Consume));
    var a := s.Pc(t).pos;
    SetKeepsLists(s.lists, a);
    assert ThreadOk(s, t);
    assert s'.lists == s.lists.(records := s.lists.records[a := s'.lists.records[a]]);
    EventKeepsRecords(s, s', t, a);
  }

  lemma TimeOutKeepsInv(s: State, t: Tid)
    requires Inv(s) && Enabled(s, Step(t, TimeOut))
    ensures Inv(Next(s, Step(t, TimeOut)))
  {
    hide NoDup, HistoryOk;
    var s' := Next(s, Step(t, TimeOut));
    var a := s.Pc(t).pos;
    SetKeepsLists(s.lists, a);
    assert ThreadOk(s, t);
    assert s'.lists == s.lists.(records := s.lists.records[a := s'.lists.records[a]]);
    EventKeepsRecords(s, s', t, a);
  }

  lemma PcKeepsInv(s: State, step: Step)
    requires Inv(s) && Enabled(s, step)
    requires !step.action.SetNext? && !step.action.Consume? && !step.action.TimeOut?
    requires !step.action.Enqueue? && !step.action.Dequeue?
    ensures Inv(Next(s, step))
  {
    hide NoDup, HistoryOk;
    var s' := Next(s, step);
    assert ThreadOk(s, step.t);
    forall u
      ensures ThreadOk(s', u)
    {
      assert ThreadOk(s, u);
    }
    forall b | b in s'.lists.waiters
      ensures WaiterOk(s', b)
    {
      assert WaiterOk(s, b);
    }
  }

  /** Every step of every thread keeps the invariant. */
  lemma {:induction false} NextKeepsInv(s: State, step: Step)
    requires Inv(s) && Enabled(s, step)
    ensures Inv(Next(s, step))
  {
    hide Inv, Next;
    match step.action
    case Enqueue => EnqueueKeepsInv(s, step.t);
    case Dequeue => DequeueKeepsInv(s, step.t);
    case SetNext => SetNextKeepsInv(s, step.t);
    case Consume => ConsumeKeepsInv(s, step.t);
    case TimeOut => TimeOutKeepsInv(s, step.t);
    case _ => PcKeepsInv(s, step);
  }

  // ----- runs -----

  /** The state after a run; None if some step was not enabled. */
  ghost function Run(s: State, steps: seq<Step>): Option<State>
    requires Inv(s)
    decreases |steps|
  {
    if steps == [] then Some(s)
    else if !Enabled(s, steps[0]) then None
    else
      NextKeepsInv(s, steps[0]);
      Run(Next(s, steps[0]), steps[1..])
  }

  lemma {:induction false} RunKeepsInv(s: State, steps: seq<Step>)
    requires Inv(s) && Run(s, steps).Some?
    ensures Inv(Run(s, steps).value)
    decreases |steps|
  {
    hide ThreadOk, WaiterOk, NoDup, Next, Enabled;
    if steps != [] {
      NextKeepsInv(s, steps[0]);
      RunKeepsInv(Next(s, steps[0]), steps[1..]);
    }
  }

  lemma StartIsOk()
    ensures Inv(START)
  {
  }

  /**
   * In every reachable state a thread has at most one record, each record is on exactly one of
   * the two lists, and it is on `waiters` exactly while its thread waits on it.
   */
  lemma {:induction false} ReachableLists(steps: seq<Step>)
    requires (StartIsOk(); Run(START, steps).Some?)
    ensures var s := Run(START, steps).value; var l := s.lists;
      && (forall a, b :: a in l.records && b in l.records && l.records[a].tid == l.records[b].tid ==> a == b)
      && (forall a :: a in l.records ==> (a in l.waiters <==> a !in l.notWaiting))
      && (forall a :: a in l.records ==> (a in l.waiters <==> s.Pc(l.records[a].tid).Waits()))
      && NoDup(l.waiters) && NoDup(l.notWaiting)
  {
    hide Run;
    StartIsOk();
    RunKeepsInv(START, steps);
    var s := Run(START, steps).value;
    forall a | a in s.lists.records
      ensures a in s.lists.waiters <==> s.Pc(s.lists.records[a].tid).Waits()
    {
      assert ThreadOk(s, s.lists.records[a].tid);
      if a in s.lists.waiters {
        assert WaiterOk(s, a);
      }
    }
  }

  // ----- events -----

  predicate EventSet(s: State, a: Addr) {
    a in s.lists.records && s.lists.records[a].event
  }

  /** A set event stays set, whatever any thread does, until its own thread's wait takes it. */
  lemma {:induction false} EventStaysSet(s: State, step: Step, a: Addr)
    requires Inv(s) && Enabled(s, step) && EventSet(s, a)
    requires step != Step(s.lists.records[a].tid, Consume)
    ensures EventSet(Next(s, step), a) && Next(s, step).lists.records[a].tid == s.lists.records[a].tid
  {
    assert ThreadOk(s, step.t);
  }

  lemma RecordStays(s: State, step: Step, a: Addr)
    requires Inv(s) && Enabled(s, step) && a in s.lists.records
    ensures a in Next(s, step).lists.records && Next(s, step).lists.records[a].tid == s.lists.records[a].tid
  {
  }

  /** The broadcaster has yet to come to this record. */
  predicate Due(s: State, b: Tid, a: Addr) {
    s.Pc(b).Broadcasting? && a in s.Pc(b).todo
  }

  lemma {:induction false} DueIsSet(s: State, step: Step, b: Tid, a: Addr)
    requires Inv(s) && Enabled(s, step) && a in s.lists.records && (Due(s, b, a) || EventSet(s, a))
    requires step != Step(s.lists.records[a].tid, Consume)
    ensures Due(Next(s, step), b, a) || EventSet(Next(s, step), a)
  {
    if EventSet(s, a) {
      EventStaysSet(s, step, a);
    } else if step.t == b {
      assert step.action.SetNext?;
      assert a == s.Pc(b).todo[0] || a in s.Pc(b).todo[1..];
    }
  }

  /**
   * No broadcast is lost. If a record is on `waiters` when a broadcast starts, then over every
   * run, however the steps interleave, either its thread's wait takes the event, or the event is
   * set as soon as the broadcaster is done, and stays set.
   */
  lemma {:induction false} NoLostBroadcast(s: State, steps: seq<Step>, b: Tid, a: Addr)
    requires Inv(s) && Run(s, steps).Some? && a in s.lists.records && (Due(s, b, a) || EventSet(s, a))
    requires Step(s.lists.records[a].tid, Consume) !in steps
    ensures var s' := Run(s, steps).value;
      && a in s'.lists.records && s'.lists.records[a].tid == s.lists.records[a].tid
      && (Due(s', b, a) || EventSet(s', a))
    decreases |steps|
  {
    hide ThreadOk, WaiterOk, NoDup, Next, Enabled, Due, EventSet;
    if steps != [] {
      assert steps[0] in steps;
      NextKeepsInv(s, steps[0]);
      RecordStays(s, steps[0], a);
      DueIsSet(s, steps[0], b, a);
      NoLostBroadcast(Next(s, steps[0]), steps[1..], b, a);
    }
  }

  /** A broadcast starts with everything on `waiters` due, and ends with nothing due. */
  lemma BroadcastBounds(s: State, b: Tid, a: Addr)
    requires Inv(s) && a in s.lists.waiters
    ensures Enabled(s, Step(b, StartBroadcast)) ==> Due(Next(s, Step(b, StartBroadcast)), b, a)
    ensures Enabled(s, Step(b, EndBroadcast)) ==> !Due(s, b, a)
  {
  }

  /**
   * A thread that is blocked when the broadcast starts and still blocked after it can only be
   * woken: its wait can succeed and cannot time out.
   */
  lemma {:induction false} BlockedIsWoken(s: State, steps: seq<Step>, b: Tid, t: Tid)
    requires Inv(s) && s.Pc(t).Blocked? && Enabled(s, Step(b, StartBroadcast))
    requires Inv(Next(s, Step(b, StartBroadcast))) && Run(Next(s, Step(b, StartBroadcast)), steps).Some?
    requires Step(t, Consume) !in steps
    ensures var s' := Run(Next(s, Step(b, StartBroadcast)), steps).value;
      ListsOk(s'.lists) && (s'.Pc(t) == s.Pc(t) && !Due(s', b, s.Pc(t).pos) ==>
        Enabled(s', Step(t, Consume)) && !Enabled(s', Step(t, TimeOut)))
  {
    hide Run;
    var s0 := Next(s, Step(b, StartBroadcast));
    var a := s.Pc(t).pos;
    assert ThreadOk(s, t);
    BroadcastBounds(s, b, a);
    NoLostBroadcast(s0, steps, b, a);
    RunKeepsInv(s0, steps);
  }

  /** No wait ends well without a broadcast of its own: each success is paid for by one SetEvent. */
  lemma {:induction false} WakesArePaidFor(steps: seq<Step>, a: Addr)
    requires (StartIsOk(); Run(START, steps).Some?)
    ensures var l := Run(START, steps).value.lists;
      a in l.records ==> l.records[a].wakes + (if l.records[a].event then 1 else 0) <= l.records[a].sets
  {
    hide Run;
    StartIsOk();
    RunKeepsInv(START, steps);
  }

  /** An event is set exactly if it was set after its record's last wait ended, in whichever way. */
  lemma {:induction false} EventSetSinceLastWait(steps: seq<Step>, a: Addr)
    requires (StartIsOk(); Run(START, steps).Some?)
    ensures var l := Run(START, steps).value.lists;
      a in l.records ==> (l.records[a].event <==> l.records[a].ended < l.records[a].sets)
  {
    hide Run;
    StartIsOk();
    RunKeepsInv(START, steps);
  }

  /**
   * Which waits return on a stale event: exactly those of a thread whose record was set after its
   * previous wait ended and before the thread returned from it.
   */
  lemma {:induction false} LateEventEndsNextWait(s: State, t: Tid)
    requires Inv(s) && s.Pc(t).Returning?
    ensures var s1 := Next(s, Step(t, Dequeue)); ListsOk(s1.lists) && Enabled(s1, Step(t, Enqueue))
    ensures var s1 := Next(s, Step(t, Dequeue)); var s2 := Next(s1, Step(t, Enqueue)); var a := s.Pc(t).pos;
      && ListsOk(s2.lists) && s2.Pc(t) == Queued(a) && a in s.lists.records
      && (EventSet(s2, a) <==> s.lists.records[a].ended < s.lists.records[a].sets)
  {
    hide NoDup, FindTid;
    var a := s.Pc(t).pos;
    assert ThreadOk(s, t);
    NextKeepsInv(s, Step(t, Dequeue));
    var s1 := Next(s, Step(t, Dequeue));
    NextKeepsInv(s1, Step(t, Enqueue));
    assert a in s1.lists.notWaiting && s1.lists.records[a].tid == t;
  }

  lemma RunCons(s: State, step: Step, steps: seq<Step>)
    requires Inv(s) && Enabled(s, step)
    ensures Inv(Next(s, step)) && Run(s, [step] + steps) == Run(Next(s, step), steps)
  {
    hide Inv, Next, Enabled;
    NextKeepsInv(s, step);
    assert ([step] + steps)[1..] == steps;
  }

  // ----- a wait that succeeds can leave its event set too -----

  /** Record 0 of thread 0, and where threads 0 and 1 are. */
  function Two(r: Record, waiting: bool, owner: Option<Tid>, pc0: Pc, pc1: Pc): State {
    State(Lists(map[0 := r], if waiting then [0] else [], if waiting then [] else [0], 1),
          owner, map[0 := pc0, 1 := pc1])
  }

  ghost predicate Reaches(steps: seq<Step>, s: State) {
    StartIsOk();
    Run(START, steps) == Some(s)
  }

  /** One step leads from one state to the other. */
  predicate Goes(s: State, step: Step, s': State) {
    ListsOk(s.lists) && Enabled(s, step)
    && var n := Next(s, step);
       n.lists.records == s'.lists.records && n.lists.waiters == s'.lists.waiters
       && n.lists.notWaiting == s'.lists.notWaiting && n.lists.next == s'.lists.next
       && n.owner == s'.owner && n.pcs == s'.pcs
  }

  lemma Go(s: State, step: Step, s': State, before: seq<Step>)
    requires Reaches(before, s) && Goes(s, step, s')
    ensures Reaches(before + [step], s')
  {
    hide Goes;
    StartIsOk();
    RunKeepsInv(START, before);
    assert Next(s, step) == s' by { GoesTo(s, step, s'); }
    RunSnoc(START, before, step);
  }

  lemma GoesTo(s: State, step: Step, s': State)
    requires Goes(s, step, s')
    ensures ListsOk(s.lists) && Enabled(s, step) && Next(s, step) == s'
  {
  }

  lemma {:induction false} RunSnoc(s: State, steps: seq<Step>, step: Step)
    requires Inv(s) && Run(s, steps).Some?
    requires (RunKeepsInv(s, steps); Enabled(Run(s, steps).value, step))
    ensures (RunKeepsInv(s, steps); Run(s, steps + [step]) == Some(Next(Run(s, steps).value, step)))
    decreases |steps|
  {
    hide NoDup, HistoryOk, ThreadOk, WaiterOk, Next, Enabled;
    if steps == [] {
      RunCons(s, step, []);
      assert [step] + [] == [] + [step] == steps + [step];
      NextKeepsInv(s, step);
      assert Run(Next(s, step), []) == Some(Next(s, step));
    } else {
      NextKeepsInv(s, steps[0]);
      RunSnoc(Next(s, steps[0]), steps[1..], step);
      assert (steps + [step])[1..] == steps[1..] + [step];
    }
  }

  /**
   * Thread 0 waits, and thread 1 broadcasts twice before thread 0 has the mutex again. The wait
   * has succeeded and none has timed out, but the idle record's event is set.
   */
  lemma {:induction false} SecondBroadcastIsStale() returns (steps: seq<Step>)
    ensures Step(0, TimeOut) !in steps
    ensures Reaches(steps, Two(Record(0, true, 2, 1, 1), false, Some(0), Inside, Outside))
  {
    steps := FirstWait();
    steps := Broadcast(Record(0, false, 0, 0, 0), Blocked(0), steps);
    steps := SecondWake(steps);
    steps := Broadcast(Record(0, false, 1, 1, 1), Woken(0, false), steps);
    steps := Return(Record(0, true, 2, 1, 1), steps);
  }

  /** Thread 0 waits and thread 1 takes the mutex. */
  lemma FirstWait() returns (steps: seq<Step>)
    ensures Reaches(steps, Two(Record(0, false, 0, 0, 0), true, Some(1), Blocked(0), Inside))
    ensures Step(0, TimeOut) !in steps
  {
    hide Reaches;
    var r := Record(0, false, 0, 0, 0);
    var a0 := State(EMPTY, Some(0), map[0 := Inside]);
    var a1 := State(Lists(map[0 := r], [0], [], 1), Some(0), map[0 := Queued(0)]);
    var a2 := State(Lists(map[0 := r], [0], [], 1), None, map[0 := Blocked(0)]);
    assert Reaches([], START) by { NoSteps(); }
    steps := Via(START, Step(0, Lock), a0, []);
    steps := Via(a0, Step(0, Enqueue), a1, steps);
    steps := Via(a1, Step(0, Release), a2, steps);
    steps := Via(a2, Step(1, Lock), Two(r, true, Some(1), Blocked(0), Inside), steps);
  }

  lemma NoSteps()
    ensures Reaches([], START)
  {
  }

  lemma SecondWake(before: seq<Step>) returns (steps: seq<Step>)
    requires Reaches(before, Two(Record(0, true, 1, 0, 0), true, Some(1), Blocked(0), Inside))
    requires Step(0, TimeOut) !in before
    ensures Reaches(steps, Two(Record(0, false, 1, 1, 1), true, Some(1), Woken(0, false), Inside))
    ensures Step(0, TimeOut) !in steps
  {
    hide Reaches;
    steps := Via(Two(Record(0, true, 1, 0, 0), true, Some(1), Blocked(0), Inside), Step(0, Consume),
                 Two(Record(0, false, 1, 1, 1), true, Some(1), Woken(0, false), Inside), before);
  }

  /** Thread 1 lets the mutex go and thread 0 returns. */
  lemma Return(r: Record, before: seq<Step>) returns (steps: seq<Step>)
    requires Reaches(before, Two(r, true, Some(1), Woken(0, false), Inside))
    requires Step(0, TimeOut) !in before && HistoryOk(r) && r.tid == 0
    ensures Reaches(steps, Two(r, false, Some(0), Inside, Outside)) && Step(0, TimeOut) !in steps
  {
    hide Reaches;
    var s1, s2 := Two(r, true, None, Woken(0, false), Outside), Two(r, true, Some(0), Returning(0, false), Outside);
    steps := Via(Two(r, true, Some(1), Woken(0, false), Inside), Step(1, Unlock), s1, before);
    steps := Via(s1, Step(0, Relock), s2, steps);
    steps := Via(s2, Step(0, Dequeue), Two(r, false, Some(0), Inside, Outside), steps);
  }

  lemma Via(s: State, step: Step, s': State, before: seq<Step>) returns (steps: seq<Step>)
    requires Reaches(before, s) && Goes(s, step, s')
    requires Step(0, TimeOut) !in before && step != Step(0, TimeOut)
    ensures Reaches(steps, s') && Step(0, TimeOut) !in steps
  {
    hide Goes, Reaches;
    Go(s, step, s', before);
    steps := before + [step];
  }

  lemma SetNextGoes(r: Record, pc: Pc)
    requires HistoryOk(r) && r.tid == 0
    ensures var r' := r.(event := true, sets := r.sets + 1);
      Goes(Two(r, true, Some(1), pc, Broadcasting([0])), Step(1, SetNext), Two(r', true, Some(1), pc, Broadcasting([])))
  {
    assert [0][1..] == [];
  }

  lemma BroadcastGoes(r: Record, pc: Pc)
    requires HistoryOk(r) && r.tid == 0
    ensures var r' := r.(event := true, sets := r.sets + 1);
      && Goes(Two(r, true, Some(1), pc, Inside), Step(1, StartBroadcast), Two(r, true, Some(1), pc, Broadcasting([0])))
      && Goes(Two(r, true, Some(1), pc, Broadcasting([0])), Step(1, SetNext),
              Two(r', true, Some(1), pc, Broadcasting([])))
      && Goes(Two(r', true, Some(1), pc, Broadcasting([])), Step(1, EndBroadcast), Two(r', true, Some(1), pc, Inside))
  {
    SetNextGoes(r, pc);
  }

  /** One broadcast by thread 1. */
  lemma Broadcast(r: Record, pc: Pc, before: seq<Step>) returns (steps: seq<Step>)
    requires Reaches(before, Two(r, true, Some(1), pc, Inside))
    requires Step(0, TimeOut) !in before && HistoryOk(r) && r.tid == 0
    ensures Reaches(steps, Two(r.(event := true, sets := r.sets + 1), true, Some(1), pc, Inside))
    ensures Step(0, TimeOut) !in steps
  {
    hide Reaches, Goes, Two;
    var r' := r.(event := true, sets := r.sets + 1);
    BroadcastGoes(r, pc);
    steps := Via(Two(r, true, Some(1), pc, Inside), Step(1, StartBroadcast),
                 Two(r, true, Some(1), pc, Broadcasting([0])), before);
    steps := Via(Two(r, true, Some(1), pc, Broadcasting([0])), Step(1, SetNext),
                 Two(r', true, Some(1), pc, Broadcasting([])), steps);
    steps := Via(Two(r', true, Some(1), pc, Broadcasting([])), Step(1, EndBroadcast),
                 Two(r', true, Some(1), pc, Inside), steps);
  }

  // ----- a broadcast as a whole -----

  /** Exactly the records of `todo` have their event set, once more each; nothing else differs. */
  predicate SetOnce(l: Lists, l': Lists, todo: seq<Addr>)
    requires forall a :: a in todo ==> a in l.records
  {
    && l'.waiters == l.waiters && l'.notWaiting == l.notWaiting && l'.next == l.next
    && l'.records.Keys == l.records.Keys
    && (forall a :: a in l.records && a !in todo ==> l'.records[a] == l.records[a])
    && (forall a :: a in todo ==>
          var r, r' := l.records[a], l'.records[a];
          r'.event && r'.sets == r.sets + 1 && r'.tid == r.tid && r'.wakes == r.wakes && r'.ended == r.ended)
  }

  /** That determines what is left. */
  lemma SetOnceUnique(l: Lists, x: Lists, y: Lists, todo: seq<Addr>)
    requires forall a :: a in todo ==> a in l.records
    requires SetOnce(l, x, todo) && SetOnce(l, y, todo)
    ensures x == y
  {
    assert forall a :: a in l.records ==> x.records[a] == y.records[a];
    assert x.records == y.records;
  }

  lemma SetOnceStep(l: Lists, l': Lists, todo: seq<Addr>)
    requires ListsOk(l) && todo != [] && NoDup(todo) && forall a :: a in todo ==> a in l.records
    requires SetOnce(l, l', todo)
    ensures SetOnce(SetEvent(l, todo[0]), l', todo[1..])
  {
    assert todo == [todo[0]] + todo[1..];
    assert todo[0] !in todo[1..];
    hide ListsOk, NoDup;
  }

  lemma SetOnceSnoc(l: Lists, l': Lists, done: seq<Addr>, pos: Addr)
    requires forall a :: a in done ==> a in l.records
    requires SetOnce(l, l', done) && pos in l.records && pos !in done
    ensures SetOnce(l, SetEvent(l', pos), done + [pos])
  {
  }

  lemma NothingSet(l: Lists)
    ensures SetOnce(l, l, [])
  {
  }

  lemma NotBefore(list: seq<Addr>, i: nat)
    requires NoDup(list) && i < |list|
    ensures list[i] !in list[..i] && list[..i + 1] == list[..i] + [list[i]]
  {
  }

  lemma WaitersOk(l: Lists)
    requires ListsOk(l)
    ensures NoDup(l.waiters) && forall a :: a in l.waiters ==> a in l.records
  {
  }

  lemma SetNothing(l: Lists, l': Lists)
    requires SetOnce(l, l', [])
    ensures l' == l
  {
    SetOnceUnique(l, l, l', []);
  }

  /** One `SetNext` for each of `n` records. */
  function SetSteps(b: Tid, n: nat): (r: seq<Step>)
    ensures |r| == n && forall i :: 0 <= i < n ==> r[i] == Step(b, SetNext)
  {
    if n == 0 then [] else [Step(b, SetNext)] + SetSteps(b, n - 1)
  }

  lemma {:induction false} SetStepsRun(s: State, b: Tid, todo: seq<Addr>, l': Lists)
    requires Inv(s) && s.Pc(b) == Broadcasting(todo) && NoDup(todo)
    requires forall a :: a in todo ==> a in s.lists.records
    requires SetOnce(s.lists, l', todo)
    ensures Run(s, SetSteps(b, |todo|)) == Some(s.At(b, Broadcasting([])).(lists := l'))
    decreases |todo|
  {
    hide Inv, SetOnce, NoDup, ListsOk;
    InvLists(s);
    if todo == [] {
      SetNothing(s.lists, l');
      assert s.pcs[b := Broadcasting([])] == s.pcs by { PcKept(s, b); }
      assert SetSteps(b, 0) == [];
    } else {
      var step := Step(b, SetNext);
      NextKeepsInv(s, step);
      var s1 := Next(s, step);
      SetOnceStep(s.lists, l', todo);
      TailNoDup(todo);
      SetStepsRun(s1, b, todo[1..], l');
      RunCons(s, step, SetSteps(b, |todo| - 1));
      assert s1.pcs[b := Broadcasting([])] == s.pcs[b := Broadcasting([])];
    }
  }

  lemma InvLists(s: State)
    requires Inv(s)
    ensures ListsOk(s.lists) && NoDup(s.lists.waiters) && forall a :: a in s.lists.waiters ==> a in s.lists.records
  {
  }

  lemma PcKept(s: State, b: Tid)
    requires !s.Pc(b).Outside?
    ensures s.pcs[b := s.Pc(b)] == s.pcs
  {
  }

  lemma TailNoDup(list: seq<Addr>)
    requires NoDup(list) && list != []
    ensures NoDup(list[1..])
  {
  }

  function BroadcastSteps(b: Tid, n: nat): seq<Step> {
    [Step(b, StartBroadcast)] + (SetSteps(b, n) + [Step(b, EndBroadcast)])
  }

  /**
   * A broadcast that runs without other steps in between leaves what the method below leaves: each
   * waiter's event set once, and nothing else changed.
   */
  lemma {:induction false} BroadcastRun(s: State, b: Tid, l': Lists)
    requires Inv(s) && Enabled(s, Step(b, StartBroadcast))
    requires SetOnce(s.lists, l', s.lists.waiters)
    ensures Run(s, BroadcastSteps(b, |s.lists.waiters|)) == Some(s.(lists := l'))
  {
    hide Inv, SetOnce, NoDup, ListsOk, Run;
    InvLists(s);
    var start, todo := Step(b, StartBroadcast), s.lists.waiters;
    NextKeepsInv(s, start);
    var s1 := Next(s, start);
    SetStepsRun(s1, b, todo, l');
    var s2 := s1.At(b, Broadcasting([])).(lists := l');
    RunKeepsInv(s1, SetSteps(b, |todo|));
    InvLists(s2);
    RunSnoc(s1, SetSteps(b, |todo|), Step(b, EndBroadcast));
    RunCons(s, start, SetSteps(b, |todo|) + [Step(b, EndBroadcast)]);
    assert s2.At(b, Inside).pcs == s.pcs by { PcKept(s, b); }
  }

  // ----- the functions -----

  /** The memory of one condition variable; the mutex is held around each method. */
  class Condition {
    var records: map<Addr, Record>
    var waiters: seq<Addr>
    var notWaiting: seq<Addr>
    var next: Addr

    constructor ()
      ensures View() == EMPTY
    {
      records, waiters, notWaiting, next := map[], [], [], 0;
    }

    function View(): Lists
      reads this
    {
      Lists(records, waiters, notWaiting, next)
    }

    /** `usbi_cond_broadcast` */
    method Broadcast()
      requires ListsOk(View())
      modifies this`records
      ensures SetOnce(old(View()), View(), old(waiters))
    {
      hide ListsOk, NoDup, SetOnce;
      ghost var was := View();
      WaitersOk(was);
      NothingSet(was);
      for i := 0 to |waiters|
        invariant waiters == was.waiters && records.Keys == was.records.Keys
        invariant SetOnce(was, View(), waiters[..i])
      {
        var pos := waiters[i];
        NotBefore(waiters, i);
        SetOnceSnoc(was, View(), waiters[..i], pos);
        records := records[pos := records[pos].(event := true, sets := records[pos].sets + 1)];
      }
      assert waiters[..|waiters|] == waiters;
    }

    /** `usbi_cond_intwait` up to the release of the mutex. */
    method IntWaitEnter(tid: Tid) returns (pos: Addr)
      requires ListsOk(View())
      modifies this
      ensures pos == OwnRecord(old(View()), tid) && View() == EnterWait(old(View()), tid)
    {
      hide NoDup;
      var found := false;
      var i := 0;
      pos := next;
      while i < |notWaiting| && !found
        invariant 0 <= i <= |notWaiting| && View() == old(View())
        invariant found ==> FindTid(records, notWaiting, tid) == Some(pos)
        invariant !found ==> pos == next && FindTid(records, notWaiting, tid) == FindTid(records, notWaiting[i..], tid)
        decreases |notWaiting| - i, !found
      {
        if tid == records[notWaiting[i]].tid {
          pos, found := notWaiting[i], true;
        } else {
          assert notWaiting[i..][1..] == notWaiting[i + 1..];
          i := i + 1;
        }
      }
      if !found {
        records := records[pos := Record(tid, false, 0, 0, 0)];
        next := next + 1;
        notWaiting := [pos] + notWaiting;
      }
      notWaiting := Del(notWaiting, pos);
      waiters := [pos] + waiters;
    }

    /** `usbi_cond_intwait` once the mutex is held again. */
    method IntWaitLeave(pos: Addr)
      modifies this
      ensures View() == LeaveWait(old(View()), pos)
      ensures notWaiting == [pos] + old(notWaiting) && records == old(records) && next == old(next)
      ensures forall a :: a in old(waiters) && a != pos ==> a in waiters
    {
      waiters := Del(waiters, pos);
      notWaiting := [pos] + notWaiting;
    }
  }
}
