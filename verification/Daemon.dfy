/** The daemon's client list as the code keeps it: records updated in place, found by walking. */
module Daemon {
  import opened Options
  import opened Bytes
  import opened Clients

  class Client {
    const id: nat
    const accepted: bool
    var flags: Flags
    var peer: Peer
    var slot: Key

    constructor (id: nat, accepted: bool)
      ensures this.id == id && this.accepted == accepted
      ensures flags == Flags(false, false, false, false, false, false) && peer == NO_PEER && slot == NO_PEER.pub
    {
      this.id, this.accepted := id, accepted;
      flags, peer, slot := Flags(false, false, false, false, false, false), NO_PEER, NO_PEER.pub;
    }

    ghost function Rec(): Record
      reads this
    {
      Record(id, accepted, flags, peer, slot)
    }
  }

  /** A record as `calloc` leaves it. */
  function Blank(id: nat, accepted: bool): Record {
    Record(id, accepted, Flags(false, false, false, false, false, false), NO_PEER, NO_PEER.pub)
  }

  class ClientList {
    var clients: seq<Client>
    var next: nat
    const self: Peer

    constructor (self: Peer)
      ensures Valid() && clients == [] && next == 0 && this.self == self
    {
      clients, next, this.self := [], 0, self;
    }

    /** No record is on the list twice. */
    ghost predicate Valid()
      reads this
    {
      forall i, j :: 0 <= i < j < |clients| ==> clients[i] != clients[j]
    }

    ghost function View(): (v: Clients)
      reads this, clients
      ensures |v| == |clients| && forall i :: 0 <= i < |v| ==> v[i] == clients[i].Rec()
    {
      seq(|clients|, i requires 0 <= i < |clients| reads this, clients => clients[i].Rec())
    }

    /** `sharedaemon_client_init`: a zeroed record at the front. */
    method ClientInit(accepted: bool) returns (cli: Client)
      requires Valid()
      modifies this
      ensures Valid() && fresh(cli) && clients == [cli] + old(clients)
      ensures next == old(next) + 1 && cli.Rec() == Blank(old(next), accepted)
      ensures View() == [cli.Rec()] + old(View())
    {
      hide View;
      cli := new Client(next, accepted);
      next := next + 1;
      clients := [cli] + clients;
    }

    /** `sharedaemon_client_find` */
    method ClientFind(key: Key) returns (cli: Client?, ghost k: nat)
      ensures cli == null <==> Find(View(), key).None?
      ensures cli != null ==> Find(View(), key) == Some(k) && k < |clients| && cli == clients[k]
    {
      var i := 0;
      while i < |clients|
        invariant 0 <= i <= |clients|
        invariant forall j :: 0 <= j < i ==> !Matches(View()[j], key)
      {
        cli, k := clients[i], i;
        if (cli.flags.net && cli.flags.register && cli.peer.priv == key) || (cli.flags.msg && cli.slot == key) {
          assert Matches(View()[i], key);
          return;
        }
        i := i + 1;
      }
      cli, k := null, 0;
    }

    /** The fields that a new network client is given. */
    method FillNet(cli: Client, fd: Word, peer: Peer, auth: bool, shutdown: bool, appOk: bool)
      requires cli.Rec() == Blank(cli.id, auth)
      modifies cli
      ensures cli.Rec() == NewNet(cli.id, fd, peer, auth, shutdown, appOk)
    {
      cli.flags := cli.flags.(net := true);
      cli.slot := cli.slot.(w0 := fd);
      if auth || shutdown {
        cli.flags := cli.flags.(auth := auth, shutdown := shutdown);
      }
      cli.peer := peer;
      if appOk && !cli.flags.auth && !cli.flags.shutdown {
        cli.flags := cli.flags.(register := true);
      }
    }

    /** `sharedaemon_netclient_add` */
    method NetclientAdd(fd: Word, peer: Peer, auth: bool, shutdown: bool, appOk: bool)
      requires Valid()
      modifies this
      ensures Valid() && View() == [NewNet(old(next), fd, peer, auth, shutdown, appOk)] + old(View())
      ensures fresh(clients[0]) && clients[1..] == old(clients)
    {
      hide NewNet, View;
      var cli := ClientInit(auth);
      ghost var was := View();
      FillNet(cli, fd, peer, auth, shutdown, appOk);
      UpdatedView(was, cli, 0);
    }

    /** `sharedaemon_httpclient_add` */
    method HttpclientAdd(fd: Word)
      requires Valid()
      modifies this
      ensures Valid() && View() == [NewHttp(old(next), fd)] + old(View())
      ensures fresh(clients[0]) && clients[1..] == old(clients)
    {
      hide View;
      var cli := ClientInit(false);
      ghost var was := View();
      cli.flags := cli.flags.(http := true);
      cli.slot := cli.slot.(w0 := fd);
      UpdatedView(was, cli, 0);
    }

    /** The search of number 1 for any network client with the sender's key. */
    method FindNetClient(key: Key) returns (cli: Client?, ghost k: nat)
      ensures cli == null <==> FindNet(View(), key).None?
      ensures cli != null ==> FindNet(View(), key) == Some(k) && k < |clients| && cli == clients[k]
    {
      var i := 0;
      while i < |clients|
        invariant 0 <= i <= |clients|
        invariant forall j :: 0 <= j < i ==> !(View()[j].flags.net && View()[j].peer.priv == key)
      {
        cli, k := clients[i], i;
        if cli.flags.net && cli.peer.priv == key {
          FirstNet(View(), key, i);
          return;
        }
        i := i + 1;
      }
      cli, k := null, 0;
    }

    lemma UpdatedView(was: Clients, cli: Client, k: nat)
      requires Valid() && |was| == |clients| && k < |clients| && cli == clients[k]
      requires forall i :: 0 <= i < |clients| && i != k ==> clients[i].Rec() == was[i]
      ensures View() == was[k := cli.Rec()]
    {
    }

    /** `sharedaemon_app_init`, and for a message client the key that goes over the union. */
    method AppJoin(cli: Client, peer: Peer, appOk: bool)
      modifies cli
      ensures cli.Rec() == Joined(old(cli.Rec()), peer, appOk)
    {
      cli.peer := peer;
      if appOk && !cli.flags.auth && !cli.flags.shutdown {
        cli.flags := cli.flags.(register := true);
      }
      if appOk {
        cli.slot := peer.pub;
      }
    }

    method JoinAt(cli: Client, peer: Peer, appOk: bool, ghost k: nat)
      requires Valid() && k < |clients| && clients[k] == cli
      modifies cli
      ensures View() == old(View())[k := Joined(old(View())[k], peer, appOk)]
    {
      hide Joined;
      AppJoin(cli, peer, appOk);
      UpdatedView(old(View()), cli, k);
    }

    method NewMsgClient() returns (cli: Client)
      requires Valid()
      modifies this
      ensures Valid() && fresh(cli) && clients == [cli] + old(clients)
      ensures var blank := Blank(old(next), false);
        View() == [blank.(flags := blank.flags.(msg := true))] + old(View())
    {
      hide View;
      cli := ClientInit(false);
      ghost var was := View();
      cli.flags := cli.flags.(msg := true);
      UpdatedView(was, cli, 0);
    }

    /** `sharedaemon_msgclient_init` */
    method MsgclientInit(peer: Peer, appOk: bool)
      requires Valid()
      modifies this, clients
      ensures Valid() && View() == MsgJoin(old(View()), old(next), peer, appOk)
      ensures clients == old(clients) || (fresh(clients[0]) && clients[1..] == old(clients))
    {
      hide Find, Joined, View;
      var cli, k := ClientFind(peer.pub);
      if cli == null {
        cli := NewMsgClient();
        k := 0;
      }
      JoinAt(cli, peer, appOk, k);
    }

    method SetSeq(cli: Client, n: Word, ghost k: nat)
      requires Valid() && k < |clients| && clients[k] == cli
      modifies cli
      ensures View() == old(View())[k := WithSeq(old(View())[k], n)]
    {
      cli.slot := cli.slot.(w1 := n);
      UpdatedView(old(View()), cli, k);
    }

    method Register(cli: Client, ghost k: nat)
      requires Valid() && k < |clients| && clients[k] == cli
      modifies cli
      ensures View() == old(View())[k := Registered(old(View())[k], self)]
    {
      cli.flags := cli.flags.(register := true);
      cli.peer := self;
      UpdatedView(old(View()), cli, k);
    }

    method ClearAuth(cli: Client, ghost k: nat)
      requires Valid() && k < |clients| && clients[k] == cli
      modifies cli
      ensures View() == old(View())[k := Authenticated(old(View())[k])]
    {
      cli.flags := cli.flags.(auth := false);
      UpdatedView(old(View()), cli, k);
    }

    /**
     * `txop_init_recv`, called with the address of the sender's own peer, which the registration
     * of number 1 or 2 may overwrite before the reply is addressed.
     */
    method TxopInitRecv(sender: Client, iniSeq: Word, ghost req: nat) returns (code: Code, reply: Option<Reply>)
      requires Valid() && req < |clients| && clients[req] == sender
      modifies clients
      ensures Handled(View(), code, reply) == InitRecv(old(View()), req, iniSeq, self)
    {
      hide Find, FindNet;
      code, reply := Done, None;
      var n := NextSeq(iniSeq);
      var kpriv := sender.peer.priv;
      var cli, k := ClientFind(kpriv);
      if cli != null && n <= cli.slot.w1 {
        return;
      }
      if n > 2 && cli == null {
        code := Invalid;
        return;
      }
      if cli != null {
        SetSeq(cli, n, k);
      }
      var on: Option<nat> := None;
      if cli != null {
        on := Some(cli.id);
      }
      if n == 1 {
        if cli != null {
          code := NotUnique;
          return;
        }
        cli, k := FindNetClient(kpriv);
        if cli == null {
          code := Invalid;
          return;
        }
        Register(cli, k);
      } else if n == 2 {
        if cli == null {
          code := Fault;
          return;
        }
        Register(cli, k);
      } else if n == 3 || n == 4 {
        ClearAuth(cli, k);
      } else if n == 0 || n > 8 {
        return;
      }
      reply := Some(Reply(sender.peer.priv, on, n));
    }

    // ----- cycle_socket_verify -----

    /** One later client: a registered network client with this key is on its way out. */
    method DropDuplicate(d: Client, key: Key)
      modifies d
      ensures d.Rec() == if Duplicate(old(d.Rec()), key) then Unregistered(old(d.Rec())) else old(d.Rec())
    {
      if d.flags.net && d.flags.register && d.peer.priv == key {
        d.flags := d.flags.(shutdown := true, register := false);
      }
    }

    /** The inner loop: every later registered network client with this key is on its way out. */
    method DropDuplicatesAfter(cli: Client, i: nat)
      requires Valid() && i < |clients| && clients[i] == cli
      modifies clients
      ensures View() == old(View())[..i + 1] + DropDuplicates(old(View())[i + 1..], old(cli.peer.priv))
    {
      hide Duplicate, Unregistered, DropDuplicates, DroppedBefore;
      ghost var was, key := View(), cli.peer.priv;
      var j := i + 1;
      NoneDropped(was, key, i);
      while j < |clients|
        invariant i < j <= |clients| && clients == old(clients) && cli.peer.priv == key
        invariant View() == DroppedBefore(was, key, i, j)
      {
        var d := clients[j];
        ghost var mid := View();
        OneDropped(was, key, i, j);
        DropDuplicate(d, cli.peer.priv);
        assert forall m :: 0 <= m < |clients| && m != j ==> clients[m].Rec() == mid[m];
        UpdatedView(mid, d, j);
        assert cli.Rec() == mid[i];
        j := j + 1;
      }
      AllDropped(was, key, i);
    }

    /** One client of the first loop; whether it stays. */
    method ProbeClient(cli: Client, p: Probe) returns (stays: bool)
      modifies cli
      ensures cli.Rec() == Probed(old(cli.Rec()), p) && stays == Stays(old(cli.Rec()), p)
    {
      if cli.slot.w0 == 0 || !(cli.flags.net || cli.flags.http) {
        return false;
      }
      if p.failed || p.exceptional {
        cli.flags := cli.flags.(shutdown := true);
      }
      if cli.flags.shutdown {
        if p.failed || p.writable || p.exceptional {
          cli.slot := cli.slot.(w0 := 0);
        }
        return false;
      }
      if p.idle {
        cli.slot := cli.slot.(w0 := 0);
        return false;
      }
      stays := true;
    }

    /** What the first loop does for the client at `i`. */
    method VerifyClient(i: nat, p: Probe)
      requires Valid() && i < |clients|
      modifies clients
      ensures var was := old(View()); var later := was[i + 1..];
        View() == was[..i] + [Probed(was[i], p)]
                + (if Stays(was[i], p) then DropDuplicates(later, was[i].peer.priv) else later)
    {
      hide Probed, Stays, DropDuplicates;
      ghost var was := View();
      var cli := clients[i];
      var stays := ProbeClient(cli, p);
      UpdatedView(was, cli, i);
      ghost var mid := View();
      if stays {
        StaysSame(was[i], p);
        DropDuplicatesAfter(cli, i);
        assert mid == was;
        assert was[..i + 1] == was[..i] + [was[i]];
      } else {
        assert mid == was[..i] + [Probed(was[i], p)] + was[i + 1..];
      }
    }

    /** The first loop. */
    method VerifyClients(probes: seq<Probe>)
      requires Valid() && |probes| == |clients|
      modifies clients
      ensures View() == VerifyAll(old(View()), probes)
    {
      hide Probed, Stays, DropDuplicates, VerifyAll;
      var i := 0;
      while i < |clients|
        invariant 0 <= i <= |clients| && clients == old(clients)
        invariant VerifyAll(old(View()), probes) == View()[..i] + VerifyAll(View()[i..], probes[i..])
      {
        ghost var was := View();
        VerifyClient(i, probes[i]);
        VerifyOne(was, probes, i, View());
        i := i + 1;
      }
      VerifyNone(View(), probes);
    }

    method Unlink(i: nat)
      requires Valid() && i < |clients|
      modifies this`clients
      ensures Valid() && |clients| == old(|clients|) - 1
      ensures View() == old(View())[..i] + old(View())[i + 1..]
    {
      clients := clients[..i] + clients[i + 1..];
    }

    /** The second loop: closed network clients are taken off the list. */
    method RemoveClosed()
      requires Valid()
      modifies this`clients
      ensures Valid() && View() == Purge(old(View()))
    {
      hide Gone, Purge;
      var i := 0;
      while i < |clients|
        invariant Valid() && 0 <= i <= |clients|
        invariant Purge(old(View())) == View()[..i] + Purge(View()[i..])
        decreases |clients| - i
      {
        ghost var was := View();
        PurgeStep(was[i..]);
        assert was[i..][1..] == was[i + 1..];
        if clients[i].flags.net && clients[i].slot.w0 == 0 {
          assert Gone(was[i]) by { GoneIs(was[i]); }
          Unlink(i);
          assert View()[..i] == was[..i] && View()[i..] == was[i + 1..];
        } else {
          assert !Gone(was[i]) by { GoneIs(was[i]); }
          assert was[..i + 1] == was[..i] + [was[i]];
          i := i + 1;
        }
      }
      PurgeStep(View()[i..]);
    }

    /** `cycle_socket_verify` */
    method CycleSocketVerify(probes: seq<Probe>)
      requires Valid() && |probes| == |clients|
      modifies this`clients, clients
      ensures Valid() && View() == Sweep(old(View()), probes) == Fates(old(View()), probes, 0)
    {
      SweepIsFates(View(), probes);
      VerifyClients(probes);
      RemoveClosed();
    }
  }

  /** The clients once those behind `i` and before `j` have been compared. */
  function DroppedBefore(cs: Clients, key: Key, i: nat, j: nat): (ds: Clients)
    requires i < j <= |cs|
    ensures |ds| == |cs|
  {
    cs[..i + 1] + DropDuplicates(cs[i + 1..j], key) + cs[j..]
  }

  lemma NoneDropped(cs: Clients, key: Key, i: nat)
    requires i < |cs|
    ensures DroppedBefore(cs, key, i, i + 1) == cs
  {
  }

  lemma OneDropped(cs: Clients, key: Key, i: nat, j: nat)
    requires i < j < |cs|
    ensures var c := cs[j];
      DroppedBefore(cs, key, i, j + 1)
      == DroppedBefore(cs, key, i, j)[j := if Duplicate(c, key) then Unregistered(c) else c]
    ensures DroppedBefore(cs, key, i, j)[j] == cs[j] && DroppedBefore(cs, key, i, j)[i] == cs[i]
  {
    hide Duplicate, Unregistered;
    var a, b := DroppedBefore(cs, key, i, j + 1), DroppedBefore(cs, key, i, j);
    forall m | 0 <= m < |cs| && m != j
      ensures a[m] == b[m]
    {
      if i < m < j {
        assert cs[i + 1..j + 1][m - i - 1] == cs[i + 1..j][m - i - 1];
      }
    }
  }

  lemma AllDropped(cs: Clients, key: Key, i: nat)
    requires i < |cs|
    ensures DroppedBefore(cs, key, i, |cs|) == cs[..i + 1] + DropDuplicates(cs[i + 1..], key)
  {
    hide DropDuplicates;
    assert cs[i + 1..|cs|] == cs[i + 1..];
  }

  /** The clients once the one at `i` has been looked at. */
  lemma VerifyOne(was: Clients, probes: seq<Probe>, i: nat, now: Clients)
    requires i < |was| == |probes|
    requires now == was[..i] + [Probed(was[i], probes[i])]
                    + (if Stays(was[i], probes[i]) then DropDuplicates(was[i + 1..], was[i].peer.priv)
                       else was[i + 1..])
    ensures |now| == |was|
    ensures was[..i] + VerifyAll(was[i..], probes[i..]) == now[..i + 1] + VerifyAll(now[i + 1..], probes[i + 1..])
  {
    hide Probed, Stays, DropDuplicates, VerifyAll;
    VerifyStep(was[i..], probes[i..]);
    assert was[i..][1..] == was[i + 1..] && probes[i..][1..] == probes[i + 1..];
    assert now[..i + 1] == was[..i] + [Probed(was[i], probes[i])];
  }

  lemma VerifyNone(cs: Clients, probes: seq<Probe>)
    requires |cs| == |probes|
    ensures cs[..|cs|] + VerifyAll(cs[|cs|..], probes[|cs|..]) == cs
  {
  }

  lemma VerifyStep(cs: Clients, probes: seq<Probe>)
    requires |cs| == |probes|
    ensures cs == [] ==> VerifyAll(cs, probes) == []
    ensures cs != [] ==>
      VerifyAll(cs, probes) == [Probed(cs[0], probes[0])]
      + VerifyAll(if Stays(cs[0], probes[0]) then DropDuplicates(cs[1..], cs[0].peer.priv) else cs[1..], probes[1..])
  {
  }

  lemma StaysSame(c: Record, p: Probe)
    requires Stays(c, p)
    ensures Probed(c, p) == c
  {
  }

  lemma GoneIs(c: Record)
    ensures Gone(c) <==> c.flags.net && c.slot.w0 == 0
  {
  }

  lemma PurgeStep(cs: Clients)
    ensures cs == [] ==> Purge(cs) == []
    ensures cs != [] ==> Purge(cs) == (if Gone(cs[0]) then [] else [cs[0]]) + Purge(cs[1..])
  {
  }

  lemma {:induction false} FirstNet(cs: Clients, key: Key, i: nat)
    requires i < |cs| && cs[i].flags.net && cs[i].peer.priv == key
    requires forall j :: 0 <= j < i ==> !(cs[j].flags.net && cs[j].peer.priv == key)
    ensures FindNet(cs, key) == Some(i)
  {
    if i > 0 {
      FirstNet(cs[1..], key, i - 1);
    }
  }
}
