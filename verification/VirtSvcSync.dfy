/** A virtual service on two instances: the backup is told of every new connection. */
module VirtSvcSync {
  import opened Words
  import opened VirtSvc

  datatype Msg = Msg(k: Client, p: nat)

  /** The active with its connections, the messages under way in order, and the backup. */
  datatype Pair = Pair(active: Svc, link: seq<Msg>, backup: Svc)

  /** A request or a reply at the active, a message reaching the backup, or an interface deleted on
      both. */
  datatype Happening =
    | Asks(k: Client, now: uint64, flags: Option<bv8>)
    | Answers(port: uint16, now: uint64, flags: Option<bv8>)
    | Hears(now: uint64)
    | Drops(portId: uint16)

  // ---------- hash tables alone ----------

  function Placed(open: map<Client, nat>, m: Msg): map<Client, nat> {
    (map x | x in open && x != m.k && open[x] != m.p :: open[x])[m.k := m.p]
  }

  function AllPlaced(open: map<Client, nat>, ms: seq<Msg>): map<Client, nat> {
    if ms == [] then open else Placed(AllPlaced(open, ms[..|ms| - 1]), ms[|ms| - 1])
  }

  function WithoutPort(open: map<Client, nat>, portId: uint16): map<Client, nat> {
    map k | k in open && k.portId != portId :: open[k]
  }

  lemma GaveIsPlaced(open: map<Client, nat>, n: map<Client, nat>, k: Client, p: nat)
    requires GaveSlot(open, n, k, p)
    ensures n == Placed(open, Msg(k, p))
  {
  }

  lemma PlacedOneMore(open: map<Client, nat>, ms: seq<Msg>, m: Msg)
    ensures AllPlaced(open, ms + [m]) == Placed(AllPlaced(open, ms), m)
  {
    assert (ms + [m])[..|ms|] == ms;
  }

  lemma {:induction false} PlacedHead(open: map<Client, nat>, ms: seq<Msg>)
    requires ms != []
    ensures AllPlaced(open, ms) == AllPlaced(Placed(open, ms[0]), ms[1..])
  {
    if |ms| > 1 {
      var n := |ms| - 1;
      PlacedHead(open, ms[..n]);
      assert ms[..n][1..] == ms[1..][..n - 1];
    }
  }

  /** Some message is about the client. */
  ghost predicate Told(ms: seq<Msg>, k: Client) { exists m :: m in ms && m.k == k }

  /** The clients of an interface are gone, except for those a message is about. */
  ghost function Spared(open: map<Client, nat>, ms: seq<Msg>, portId: uint16): map<Client, nat> {
    map k | k in open && (k.portId != portId || Told(ms, k)) :: open[k]
  }

  lemma ToldOneMore(init: seq<Msg>, m: Msg, k: Client)
    ensures Told(init + [m], k) <==> Told(init, k) || m.k == k
  {
    assert m in init + [m];
    if x :| x in init && x.k == k { assert x in init + [m]; }
  }

  lemma SparedOneMore(open: map<Client, nat>, init: seq<Msg>, m: Msg, portId: uint16)
    ensures Placed(Spared(open, init, portId), m) == Spared(Placed(open, m), init + [m], portId)
  {
    forall k ensures Told(init + [m], k) <==> Told(init, k) || m.k == k {
      ToldOneMore(init, m, k);
    }
  }

  /** Messages that arrive after their interface was deleted: they bring back exactly the clients
      they are about, as far as no later message displaces them. */
  lemma {:induction false} DropSpares(open: map<Client, nat>, ms: seq<Msg>, portId: uint16)
    ensures AllPlaced(WithoutPort(open, portId), ms) == Spared(AllPlaced(open, ms), ms, portId)
  {
    if ms == [] {
      assert forall k :: !Told(ms, k);
    } else {
      var init, m := ms[..|ms| - 1], ms[|ms| - 1];
      DropSpares(open, init, portId);
      SparedOneMore(AllPlaced(open, init), init, m, portId);
      assert ms == init + [m];
    }
  }

  /** No message under way is about a client of the interface that is still connected. */
  ghost predicate NoneLate(open: map<Client, nat>, ms: seq<Msg>, portId: uint16) {
    forall m :: m in ms && m.k in open ==> m.k.portId != portId
  }

  lemma SparesNoneIff(open: map<Client, nat>, ms: seq<Msg>, portId: uint16)
    ensures Spared(open, ms, portId) == WithoutPort(open, portId) <==> NoneLate(open, ms, portId)
  {
    if Spared(open, ms, portId) == WithoutPort(open, portId) {
      forall m | m in ms && m.k in open ensures m.k.portId != portId {
        assert Told(ms, m.k);
        assert m.k in Spared(open, ms, portId) ==> m.k in WithoutPort(open, portId);
      }
    }
  }

  // ---------- runs ----------

  /** In step: once everything under way has arrived, the backup has the active's clients in the
      active's slots. */
  ghost predicate InStep(x: Pair) {
    && Valid(x.active) && Valid(x.backup) && (forall m :: m in x.link ==> m.p < PORT_COUNT)
    && AllPlaced(x.backup.open, x.link) == x.active.open
  }

  /** Deleting an interface on both instances. */
  ghost function Dropped(x: Pair, portId: uint16): Pair {
    x.(active := WithoutIface(x.active, portId), backup := WithoutIface(x.backup, portId))
  }

  /** The two stay in step exactly if no connected client of the interface has its message under
      way. In any case the backup ends with the active's clients and those it is told of late. */
  lemma DropKeepsIff(x: Pair, portId: uint16)
    requires InStep(x)
    ensures InStep(Dropped(x, portId)) <==> NoneLate(x.active.open, x.link, portId)
    ensures AllPlaced(Dropped(x, portId).backup.open, x.link) == Spared(x.active.open, x.link, portId)
  {
    DelIfaceRight(x.active, portId);
    DelIfaceRight(x.backup, portId);
    DropSpares(x.backup.open, x.link, portId);
    SparesNoneIff(x.active.open, x.link, portId);
    assert Dropped(x, portId).active.open == WithoutPort(x.active.open, portId);
    assert Dropped(x, portId).backup.open == WithoutPort(x.backup.open, portId);
  }

  /** What can happen: a message arrives if one is under way, and the model stops at replies to
      ports that cannot have been assigned. */
  ghost predicate Enabled(x: Pair, h: Happening) {
    match h
    case Answers(port, _, _) => port >= SYSTEM_PORTS
    case Hears(_) => x.link != []
    case _ => true
  }

  /** What may happen: the clock does not stand at zero for a known connection or a message, and no
      connected client has its message under way when its interface is deleted. */
  ghost predicate Benign(x: Pair, h: Happening) {
    match h
    case Asks(k, now, flags) => Timely(x.active, Request(k, now, flags))
    case Answers(port, now, flags) => Timely(x.active, Reply(port, now, flags))
    case Hears(now) => now != 0
    case Drops(portId) => NoneLate(x.active.open, x.link, portId)
  }

  ghost function Next(x: Pair, h: Happening, hz: nat): Pair
    requires InStep(x) && Enabled(x, h)
  {
    match h
    case Asks(k, now, flags) =>
      var (n, o) := Requested(x.active, k, now, hz, flags);
      x.(active := n, link := if k !in x.active.open && o.Some? then x.link + [Msg(k, o.value)] else x.link)
    case Answers(port, now, flags) => x.(active := Replied(x.active, port, now, flags).0)
    case Hears(now) => x.(backup := Synced(x.backup, x.link[0].k, x.link[0].p, now), link := x.link[1..])
    case Drops(portId) => Dropped(x, portId)
  }

  lemma AskKeepsIff(x: Pair, k: Client, now: uint64, flags: Option<bv8>, hz: nat)
    requires InStep(x)
    ensures InStep(Next(x, Asks(k, now, flags), hz)) <==> Timely(x.active, Request(k, now, flags))
  {
    RequestRight(x.active, k, now, hz, flags);
    var (n, o) := Requested(x.active, k, now, hz, flags);
    if k !in x.active.open && o.Some? {
      GaveIsPlaced(x.active.open, n.open, k, o.value);
      PlacedOneMore(x.backup.open, x.link, Msg(k, o.value));
    }
  }

  lemma HearKeepsIff(x: Pair, now: uint64, hz: nat)
    requires InStep(x) && x.link != []
    ensures InStep(Next(x, Hears(now), hz)) <==> now != 0
  {
    var m := x.link[0];
    SyncRight(x.backup, m.k, m.p, now);
    GaveIsPlaced(x.backup.open, Synced(x.backup, m.k, m.p, now).open, m.k, m.p);
    PlacedHead(x.backup.open, x.link);
  }

  /** Whatever happens leaves the two in step exactly if it is benign. */
  lemma StepKeepsIff(x: Pair, h: Happening, hz: nat)
    requires InStep(x) && Enabled(x, h)
    ensures InStep(Next(x, h, hz)) <==> Benign(x, h)
  {
    match h {
      case Asks(k, now, flags) => AskKeepsIff(x, k, now, flags, hz);
      case Answers(port, now, flags) => ReplyRight(x.active, port, now, flags);
      case Hears(now) => HearKeepsIff(x, now, hz);
      case Drops(portId) => DropKeepsIff(x, portId);
    }
  }

  ghost predicate IsRun(xs: seq<Pair>, hs: seq<Happening>, hz: nat) {
    && |xs| == |hs| + 1 && InStep(xs[0])
    && forall i :: 0 <= i < |hs| ==>
         Enabled(xs[i], hs[i]) && Benign(xs[i], hs[i]) && (InStep(xs[i]) ==> xs[i + 1] == Next(xs[i], hs[i], hz))
  }

  /** Over every run, whenever nothing is under way the backup has the same clients in the same
      slots as the active. */
  lemma {:induction false} BackupFollows(xs: seq<Pair>, hs: seq<Happening>, hz: nat, n: nat)
    requires IsRun(xs, hs, hz) && n < |xs|
    ensures InStep(xs[n]) && (xs[n].link == [] ==> xs[n].backup.open == xs[n].active.open)
  {
    if n > 0 {
      BackupFollows(xs, hs, hz, n - 1);
      StepKeepsIff(xs[n - 1], hs[n - 1], hz);
    }
  }

  /** Two instances that have just started. */
  const UNUSED: Svc := Svc(seq(PORT_COUNT, _ => Conn(0, Client(0, 0, 0), Transient)), map[], 0)
  const STARTED: Pair := Pair(UNUSED, [], UNUSED)

  lemma StartedInStep()
    ensures InStep(STARTED)
  {
  }

  lemma FirstGetsSlotOne(k: Client)
    ensures Requested(UNUSED, k, 31, 1, None).1 == Some(1)
  {
    assert IsOld(UNUSED.conns[1], 31, 1);
    assert FirstOld(UNUSED.conns, 1, PORT_COUNT, 31, 1) == Some(1);
  }

  /** Any client's first request, with the message about it still under way when the client's
      interface is deleted: the message then brings the client back, on the backup only. */
  lemma LateMessageRevives(k: Client)
    ensures var x := Next(STARTED, Asks(k, 31, None), 1);
            && InStep(STARTED) && Benign(STARTED, Asks(k, 31, None)) && InStep(x)
            && x.link == [Msg(k, 1)] && !InStep(Dropped(x, k.portId))
            && Dropped(x, k.portId).active.open == map[]
            && AllPlaced(Dropped(x, k.portId).backup.open, x.link) == map[k := 1]
  {
    StartedInStep();
    FirstGetsSlotOne(k);
    AskKeepsIff(STARTED, k, 31, None, 1);
    var x := Next(STARTED, Asks(k, 31, None), 1);
    RequestRight(UNUSED, k, 31, 1, None);
    assert x.link == [Msg(k, 1)] && x.active.open == map[k := 1];
    DropKeepsIff(x, k.portId);
    assert Msg(k, 1) in x.link;
    assert Told(x.link, k);
    DelIfaceRight(x.active, k.portId);
  }

  // ---------- dumps ----------

  /** dp_synchronize_virtsvc_connections: a message for each of the first i slots in use. */
  function Dumped(a: Svc, b: Svc, i: nat, now: uint64): (r: Svc)
    requires i <= |a.conns| <= |b.conns|
    ensures |r.conns| == |b.conns|
  {
    if i == 0 then b else
    var r := Dumped(a, b, i - 1, now);
    if a.conns[i - 1].ts == 0 then r else Synced(r, a.conns[i - 1].client, i - 1, now)
  }

  /** Who holds what after the first i slots: what the active instance has there, and of the rest
      what no message was about. */
  ghost predicate Merged(a: Svc, b: Svc, i: nat, k: Client, p: nat)
    requires i <= |a.conns|
  {
    || (p < i && Has(a, k, p))
    || (Has(b, k, p) && !(p < i && a.conns[p].ts != 0) && !(k in a.open && a.open[k] < i))
  }

  lemma DumpStep(a: Svc, b: Svc, r: Svc, i: nat, now: uint64)
    requires Valid(a) && Valid(b) && Valid(r) && i < PORT_COUNT && now != 0
    requires forall k, p :: Has(r, k, p) <==> Merged(a, b, i, k, p)
    ensures var n := if a.conns[i].ts == 0 then r else Synced(r, a.conns[i].client, i, now);
            Valid(n) && forall k, p :: Has(n, k, p) <==> Merged(a, b, i + 1, k, p)
  {
    var c := a.conns[i].client;
    assert Listed(a, i);
    forall k | k in a.open ensures a.open[k] == i <==> a.conns[i].ts != 0 && k == c {
      ByOpen(a, k);
    }
    var n := if a.conns[i].ts == 0 then r else Synced(r, c, i, now);
    if a.conns[i].ts != 0 {
      SyncRight(r, c, i, now);
    }
    forall k, p ensures Has(n, k, p) <==> Merged(a, b, i + 1, k, p) {
      assert Has(r, k, p) <==> Merged(a, b, i, k, p);
    }
  }

  /** A dump into any backup: afterwards the backup has every connection of the active instance,
      and of its own former ones only those that clash with none of them. */
  lemma {:induction false} DumpMerges(a: Svc, b: Svc, i: nat, now: uint64)
    requires Valid(a) && Valid(b) && i <= PORT_COUNT && now != 0
    ensures Valid(Dumped(a, b, i, now)) && forall k, p :: Has(Dumped(a, b, i, now), k, p) <==> Merged(a, b, i, k, p)
  {
    if i > 0 {
      DumpMerges(a, b, i - 1, now);
      DumpStep(a, b, Dumped(a, b, i - 1, now), i - 1, now);
    }
  }

  /** A backup that starts empty has exactly the active instance's connections after a dump. */
  lemma DumpRebuilds(a: Svc, b: Svc, now: uint64)
    requires Valid(a) && Valid(b) && now != 0 && b.open == map[]
    ensures Dumped(a, b, PORT_COUNT, now).open == a.open
  {
    DumpMerges(a, b, PORT_COUNT, now);
    var n := Dumped(a, b, PORT_COUNT, now);
    forall k | k in a.open ensures k in n.open && n.open[k] == a.open[k] {
      ByOpen(a, k);
      assert Has(n, k, a.open[k]);
    }
    forall k | k in n.open ensures k in a.open {
      assert Has(n, k, n.open[k]);
    }
  }
}
