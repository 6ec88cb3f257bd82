/** Replicating the NAT tables from the active instance to its backup. */
module SyncProtocol {
  import opened Words
  import opened FlowKeys
  import opened NatTables

  datatype Msg = NatCreate(a: Alloc, meta: SyncMeta) | NatDelete(a: Alloc) | RequestDump

  /** What the backup does with a message. */
  function Apply(t: Tables, m: Msg): Tables {
    match m
    case NatCreate(a, meta) => AllocateSync(t, a.pk, a.ok, meta)
    case NatDelete(a) => Delete(t, a.pk, a.ok)
    case RequestDump => t
  }

  function ApplyAll(t: Tables, ms: seq<Msg>): Tables {
    if ms == [] then t else Apply(ApplyAll(t, ms[..|ms| - 1]), ms[|ms| - 1])
  }

  /** Equal but for the metadata that only a backup keeps. */
  ghost predicate Same(t: Tables, u: Tables) {
    t.portmap == u.portmap && t.overload.Keys == u.overload.Keys
  }

  lemma ApplyAllAppend(t: Tables, ms: seq<Msg>, m: Msg)
    ensures ApplyAll(t, ms + [m]) == Apply(ApplyAll(t, ms), m)
  {
    assert (ms + [m])[..|ms|] == ms;
  }

  lemma {:induction false} ApplyAllHead(t: Tables, ms: seq<Msg>)
    requires ms != []
    ensures ApplyAll(t, ms) == ApplyAll(Apply(t, ms[0]), ms[1..])
  {
    if |ms| > 1 {
      var n := |ms| - 1;
      ApplyAllHead(t, ms[..n]);
      assert ms[..n][1..] == ms[1..][..n - 1];
    }
  }

  lemma ApplyRespectsSame(t: Tables, u: Tables, m: Msg)
    requires Same(t, u)
    ensures Same(Apply(t, m), Apply(u, m))
  {
  }

  // ---------- the two instances and the link between them ----------

  /** The active with its tables and live allocations, the messages under way in order, and the
      backup. */
  datatype Net = Net(active: Tables, ledger: Ledger, link: seq<Msg>, backup: Tables)

  datatype Step =
    | Allocates(id: nat, pk: PortmapKey, ok: OverloadKey, min: uint16, max: uint16, hash: uint32, meta: SyncMeta)
    | Releases(id: nat)
    | Dumps(order: seq<nat>, metas: map<nat, SyncMeta>)
    | Delivers

  /** The messages of a full dump, in whatever order the flow table yields. */
  function Dump(l: Ledger, order: seq<nat>, metas: map<nat, SyncMeta>): seq<Msg>
    requires forall i :: i in order ==> i in l && i in metas
  {
    if order == [] then []
    else Dump(l, order[..|order| - 1], metas) + [NatCreate(l[order[|order| - 1]], metas[order[|order| - 1]])]
  }

  /** Which steps the run may take: flows have an identity of their own, only live flows are
      released or dumped, and no client holds 2^16 - 1 flows when it asks for another. */
  ghost predicate Enabled(n: Net, s: Step) {
    match s
    case Allocates(id, pk, _, _, _, _, _) =>
      id !in n.ledger && (pk in n.active.portmap ==> n.active.portmap[pk].flowCnt < 0xffff)
    case Releases(id) => id in n.ledger
    case Dumps(order, metas) => forall i :: i in order ==> i in n.ledger && i in metas
    case Delivers => n.link != []
  }

  ghost function Took(n: Net, s: Step): Net
    requires Enabled(n, s)
  {
    match s
    case Allocates(id, pk, ok, min, max, hash, meta) =>
      (match Allocate(n.active, pk, ok, min, max, hash)
       case Done(t, port) =>
         var a := Alloc(pk, ok.(natPort := port));
         n.(active := t, ledger := n.ledger[id := a], link := n.link + [NatCreate(a, meta)])
       case _ => n)
    case Releases(id) =>
      var a := n.ledger[id];
      n.(active := Delete(n.active, a.pk, a.ok), ledger := n.ledger - {id}, link := n.link + [NatDelete(a)])
    case Dumps(order, metas) => n.(link := n.link + Dump(n.ledger, order, metas))
    case Delivers => n.(backup := Apply(n.backup, n.link[0]), link := n.link[1..])
  }

  /** In step: once everything under way has arrived, the backup holds the active's tables. */
  ghost predicate InStep(n: Net) {
    Tracks(n.active, n.ledger) && Same(ApplyAll(n.backup, n.link), n.active)
  }

  /** A create message does on equal tables what the allocation it reports did. */
  lemma CreateReplays(t: Tables, u: Tables, pk: PortmapKey, ok: OverloadKey, min: uint16, max: uint16, hash: uint32,
                      meta: SyncMeta)
    requires Same(u, t) && Allocate(t, pk, ok, min, max, hash).Done?
    ensures var o := Allocate(t, pk, ok, min, max, hash);
            Same(Apply(u, NatCreate(Alloc(pk, ok.(natPort := o.natPort)), meta)), o.t)
  {
    var o := Allocate(t, pk, ok, min, max, hash);
    var key := ok.(natPort := o.natPort);
    assert key !in t.overload.Keys && key !in u.overload.Keys;
  }

  /** A create message for something live changes nothing. */
  lemma CreateOfLiveIsIgnored(t: Tables, l: Ledger, i: nat, u: Tables, meta: SyncMeta)
    requires Tracks(t, l) && i in l && Same(u, t)
    ensures Apply(u, NatCreate(l[i], meta)) == u
  {
    assert Placed(t, l[i]);
    OwnWire(l, i);
    assert l[i].ok in t.overload.Keys && l[i].ok in u.overload.Keys;
    assert l[i].ok.(natPort := u.portmap[l[i].pk].natPort) == l[i].ok;
  }

  lemma {:induction false} DumpIsIgnored(n: Net, order: seq<nat>, metas: map<nat, SyncMeta>, link: seq<Msg>)
    requires Tracks(n.active, n.ledger) && forall i :: i in order ==> i in n.ledger && i in metas
    requires Same(ApplyAll(n.backup, link), n.active)
    ensures ApplyAll(n.backup, link + Dump(n.ledger, order, metas)) == ApplyAll(n.backup, link)
  {
    if order == [] {
      assert link + [] == link;
    } else {
      var init, i := order[..|order| - 1], order[|order| - 1];
      DumpIsIgnored(n, init, metas, link);
      var ms := link + Dump(n.ledger, init, metas);
      assert link + Dump(n.ledger, order, metas) == ms + [NatCreate(n.ledger[i], metas[i])];
      ApplyAllAppend(n.backup, ms, NatCreate(n.ledger[i], metas[i]));
      CreateOfLiveIsIgnored(n.active, n.ledger, i, ApplyAll(n.backup, ms), metas[i]);
    }
  }

  lemma StepKeepsInStep(n: Net, s: Step)
    requires InStep(n) && Enabled(n, s)
    ensures InStep(Took(n, s))
  {
    var u := ApplyAll(n.backup, n.link);
    match s {
      case Allocates(id, pk, ok, min, max, hash, meta) =>
        var o := Allocate(n.active, pk, ok, min, max, hash);
        if o.Done? {
          var a := Alloc(pk, ok.(natPort := o.natPort));
          AllocateTracksIff(n.active, n.ledger, id, pk, ok, min, max, hash);
          CreateReplays(n.active, u, pk, ok, min, max, hash, meta);
          ApplyAllAppend(n.backup, n.link, NatCreate(a, meta));
        }
      case Releases(id) =>
        ReleaseTracks(n.active, n.ledger, id);
        ApplyRespectsSame(u, n.active, NatDelete(n.ledger[id]));
        ApplyAllAppend(n.backup, n.link, NatDelete(n.ledger[id]));
      case Dumps(order, metas) =>
        DumpIsIgnored(n, order, metas, n.link);
      case Delivers =>
        ApplyAllHead(n.backup, n.link);
    }
  }

  /** A run: consecutive states related by enabled steps. */
  ghost predicate IsRun(ns: seq<Net>, ss: seq<Step>) {
    && |ns| == |ss| + 1
    && forall k :: 0 <= k < |ss| ==> Enabled(ns[k], ss[k]) && ns[k + 1] == Took(ns[k], ss[k])
  }

  /** Over every run with in-order, lossless delivery from a synchronised start, whenever nothing
      is under way the backup's tables are the active's. */
  lemma {:induction false} BackupFollowsActive(ns: seq<Net>, ss: seq<Step>)
    requires IsRun(ns, ss) && InStep(ns[0])
    ensures forall k :: 0 <= k < |ns| ==> InStep(ns[k]) && (ns[k].link == [] ==> Same(ns[k].backup, ns[k].active))
  {
    if ss != [] {
      var m := |ss| - 1;
      BackupFollowsActive(ns[..m + 1], ss[..m]);
      assert InStep(ns[..m + 1][m]);
      StepKeepsInStep(ns[m], ss[m]);
      forall k | 0 <= k < |ns| ensures InStep(ns[k]) {
        if k <= m { assert InStep(ns[..m + 1][k]); }
      }
    }
  }

  // ---------- a backup that starts with less ----------

  ghost predicate Part(p: Ledger, l: Ledger) {
    forall i :: i in p ==> i in l && p[i] == l[i]
  }

  /** The allocations a backup knows that knew the part p and has been told of those in order. */
  ghost function Known(p: Ledger, l: Ledger, order: seq<nat>): Ledger {
    map i | i in l && (i in p || i in order) :: l[i]
  }

  /** What a restored flow takes from an entry's metadata; the type matters for ICMP only. */
  predicate Alike(m: SyncMeta, n: SyncMeta, l4Type: uint8) {
    m.pk == n.pk && m.port == n.port && (l4Type == ICMP || l4Type == ICMPV6 ==> m.icmpType == n.icmpType)
  }

  ghost predicate TaggedOne(u: Tables, a: Alloc, meta: SyncMeta) {
    a.ok in u.overload && u.overload[a.ok].Some? && Alike(u.overload[a.ok].value, meta, a.ok.l4Type)
  }

  /** The backup's entries carry the metadata of their allocations. */
  ghost predicate Tagged(u: Tables, l: Ledger, metas: map<nat, SyncMeta>) {
    l.Keys <= metas.Keys && forall i :: i in l ==> TaggedOne(u, l[i], metas[i])
  }

  /** A create message for a live allocation brings a backup that knows only part of the ledger
      one allocation further. */
  lemma CreateCompletes(t: Tables, l: Ledger, u: Tables, p: Ledger, i: nat, meta: SyncMeta)
    requires Tracks(t, l) && OneAddress(t, l)
    requires Tracks(u, p) && OneAddress(u, p) && Part(p, l) && i in l
    ensures var u' := Apply(u, NatCreate(l[i], meta));
            && Tracks(u', p[i := l[i]]) && OneAddress(u', p[i := l[i]])
            && u'.overload == if i in p then u.overload else u.overload[l[i].ok := Some(meta)]
  {
    if i in p {
      CreateOfLiveIsIgnored(u, p, i, u, meta);
      assert p[i := l[i]] == p;
    } else {
      var a := l[i];
      assert Placed(t, a) && Counted(u, p, a.pk) && Counted(t, l, a.pk);
      FreeWire(l, u, p, i);
      UsersOfPart(p, l, i);
      if a.pk in u.portmap {
        SharedPort(t, l, u, p, i);
      }
      var d := if a.pk in u.portmap then u.portmap[a.pk].(flowCnt := Wrap16(u.portmap[a.pk].flowCnt + 1))
               else PortmapData(a.ok.natIp, a.ok.natPort, 1);
      FilingTracks(u, p, i, a, d, Some(meta));
    }
  }

  lemma CreateTags(l: Ledger, u: Tables, u': Tables, p: Ledger, i: nat, metas: map<nat, SyncMeta>)
    requires OneOwner(l) && Part(p, l) && i in l && i in metas && Tagged(u, p, metas)
    requires u'.overload == if i in p then u.overload else u.overload[l[i].ok := Some(metas[i])]
    ensures Tagged(u', p[i := l[i]], metas)
  {
    var q := p[i := l[i]];
    forall j | j in q ensures TaggedOne(u', q[j], metas[j]) {
      if j in p { assert TaggedOne(u, p[j], metas[j]); }
    }
  }

  lemma FreeWire(l: Ledger, u: Tables, p: Ledger, i: nat)
    requires OneOwner(l) && Tracks(u, p) && Part(p, l) && i in l && i !in p
    ensures l[i].ok !in u.overload
  {
    forall j | j in p ensures p[j].ok != l[i].ok {
      assert j in l && j != i;
    }
  }

  lemma UsersOfPart(p: Ledger, l: Ledger, i: nat)
    requires Part(p, l) && i in l && i !in p
    ensures |Users(p, l[i].pk)| < |Users(l, l[i].pk)|
  {
    var pk := l[i].pk;
    assert Users(p, pk) <= Users(l, pk) - {i};
    OwnWire(l, i);
    SubsetCard(Users(p, pk), Users(l, pk) - {i});
  }

  lemma SubsetCard<T>(a: set<T>, b: set<T>)
    requires a <= b
    ensures |a| <= |b|
  {
    assert b == a + (b - a);
  }

  lemma SharedPort(t: Tables, l: Ledger, u: Tables, p: Ledger, i: nat)
    requires Tracks(t, l) && OneAddress(t, l) && Tracks(u, p) && OneAddress(u, p)
    requires Part(p, l) && i in l && l[i].pk in u.portmap
    ensures u.portmap[l[i].pk].natPort == l[i].ok.natPort && u.portmap[l[i].pk].natIp == l[i].ok.natIp
  {
    var pk := l[i].pk;
    assert Counted(u, p, pk);
    assert Users(p, pk) != {};
    var j :| j in Users(p, pk);
    assert Placed(u, p[j]) && Placed(t, l[j]) && Placed(t, l[i]);
  }

  lemma {:induction false} DumpAdds(t: Tables, l: Ledger, u: Tables, p: Ledger, order: seq<nat>,
                                    metas: map<nat, SyncMeta>)
    requires Tracks(t, l) && OneAddress(t, l)
    requires Tracks(u, p) && OneAddress(u, p) && Part(p, l) && Tagged(u, p, metas)
    requires forall i :: i in order ==> i in l && i in metas
    ensures var u' := ApplyAll(u, Dump(l, order, metas));
            && Tracks(u', Known(p, l, order)) && OneAddress(u', Known(p, l, order))
            && Tagged(u', Known(p, l, order), metas)
  {
    if order == [] {
      KnownNothingMore(p, l);
    } else {
      var init, i := order[..|order| - 1], order[|order| - 1];
      assert order == init + [i];
      DumpAdds(t, l, u, p, init, metas);
      var q, v := Known(p, l, init), ApplyAll(u, Dump(l, init, metas));
      ApplyAllAppend(u, Dump(l, init, metas), NatCreate(l[i], metas[i]));
      CreateCompletes(t, l, v, q, i, metas[i]);
      CreateTags(l, v, Apply(v, NatCreate(l[i], metas[i])), q, i, metas);
      KnownOneMore(p, l, init, i);
    }
  }

  lemma KnownNothingMore(p: Ledger, l: Ledger)
    requires Part(p, l)
    ensures Known(p, l, []) == p
  {
    assert forall i :: i in Known(p, l, []) <==> i in p;
  }

  lemma KnownOneMore(p: Ledger, l: Ledger, init: seq<nat>, i: nat)
    requires i in l
    ensures Known(p, l, init)[i := l[i]] == Known(p, l, init + [i]) && Part(Known(p, l, init), l)
  {
  }

  /** A dump, in any order, gives a backup that correctly knows some part of the live allocations -
      none, if it just started - those it lists, with their metadata; it then equals the active
      exactly if nothing was left out. */
  lemma DumpRebuildsIff(t: Tables, l: Ledger, u: Tables, p: Ledger, order: seq<nat>, metas: map<nat, SyncMeta>)
    requires Tracks(t, l) && OneAddress(t, l)
    requires Tracks(u, p) && OneAddress(u, p) && Part(p, l) && Tagged(u, p, metas)
    requires forall i :: i in order ==> i in l && i in metas
    ensures var u' := ApplyAll(u, Dump(l, order, metas));
            && Tagged(u', Known(p, l, order), metas)
            && (Same(u', t) <==> Known(p, l, order) == l)
  {
    DumpAdds(t, l, u, p, order, metas);
    EqualIff(t, l, ApplyAll(u, Dump(l, order, metas)), Known(p, l, order));
  }

  lemma EqualIff(t: Tables, l: Ledger, u: Tables, m: Ledger)
    requires Tracks(t, l) && OneAddress(t, l) && Tracks(u, m) && OneAddress(u, m) && Part(m, l)
    ensures Same(u, t) <==> m == l
  {
    if m == l {
      LedgerDetermines(u, t, l);
    }
    if Same(u, t) {
      SameWiresSamePart(m, l);
    }
  }

  lemma SameWiresSamePart(m: Ledger, l: Ledger)
    requires OneOwner(l) && Part(m, l) && Wires(m) == Wires(l)
    ensures m == l
  {
    forall i | i in l ensures i in m {
      OwnWire(l, i);
      var j :| j in m && m[j].ok == l[i].ok;
      assert j in l && l[j].ok == l[i].ok;
    }
  }

  // ---------- a backup told to delete what it never heard of ----------

  /** v is u with one flow of the client not counted, and no entry for it if it was the only one. */
  ghost predicate Short(v: Tables, u: Tables, pk: PortmapKey) {
    && pk in u.portmap && u.portmap[pk].flowCnt > 0 && v.overload.Keys == u.overload.Keys
    && v.portmap == if u.portmap[pk].flowCnt == 1 then u.portmap - {pk}
                    else u.portmap[pk := u.portmap[pk].(flowCnt := u.portmap[pk].flowCnt - 1)]
  }

  /** A stray delete leaves the backup short of a flow if it knows the client. */
  lemma StrayIsShort(u: Tables, p: Ledger, a: Alloc)
    requires Tracks(u, p) && a.ok !in u.overload
    ensures if a.pk in u.portmap then Short(Delete(u, a.pk, a.ok), u, a.pk) else Delete(u, a.pk, a.ok) == u
  {
    assert Counted(u, p, a.pk);
    assert u.overload - {a.ok} == u.overload;
  }

  ghost predicate AtEntry(u: Tables, a: Alloc) {
    a.pk in u.portmap && u.portmap[a.pk].natPort == a.ok.natPort && u.portmap[a.pk].natIp == a.ok.natIp
  }

  lemma ShortKnown(u: Tables, v: Tables, pk: PortmapKey, a: Alloc, meta: SyncMeta)
    requires Short(v, u, pk) && a.ok in u.overload && AtEntry(u, a)
    ensures var v' := Apply(v, NatCreate(a, meta));
            if a.pk == pk && u.portmap[pk].flowCnt == 1 then Same(v', u) else v' == v
  {
    assert a.ok.(natPort := u.portmap[a.pk].natPort) == a.ok;
    assert a.ok in v.overload.Keys;
    if a.pk == pk && u.portmap[pk].flowCnt == 1 {
      assert (u.portmap - {pk})[pk := PortmapData(a.ok.natIp, a.ok.natPort, 1)] == u.portmap;
    }
  }

  lemma ShortNew(u: Tables, v: Tables, pk: PortmapKey, a: Alloc, meta: SyncMeta)
    requires Short(v, u, pk) && a.ok !in u.overload
    requires a.pk in u.portmap ==> AtEntry(u, a) && 0 < u.portmap[a.pk].flowCnt < 0xffff
    ensures Short(Apply(v, NatCreate(a, meta)), Apply(u, NatCreate(a, meta)), pk)
  {
    assert a.ok !in v.overload.Keys;
    if a.pk in u.portmap {
      assert a.ok.(natPort := u.portmap[a.pk].natPort) == a.ok;
    }
  }

  /** The next create message makes up for it exactly if it is about the client's only known flow. */
  lemma ShortStep(t: Tables, l: Ledger, u: Tables, p: Ledger, v: Tables, pk: PortmapKey, i: nat, meta: SyncMeta)
    requires Tracks(t, l) && OneAddress(t, l) && Tracks(u, p) && OneAddress(u, p) && Part(p, l) && i in l
    requires Short(v, u, pk)
    ensures var u', v' := Apply(u, NatCreate(l[i], meta)), Apply(v, NatCreate(l[i], meta));
            if i in Users(p, pk) && |Users(p, pk)| == 1 then Same(v', u') else Short(v', u', pk)
  {
    assert Counted(u, p, pk);
    if i in p {
      CreateOfLiveIsIgnored(u, p, i, u, meta);
      OwnWire(p, i);
      assert Placed(u, p[i]);
      ShortKnown(u, v, pk, l[i], meta);
    } else {
      NewHasRoom(t, l, u, p, i);
      ShortNew(u, v, pk, l[i], meta);
    }
  }

  lemma NewHasRoom(t: Tables, l: Ledger, u: Tables, p: Ledger, i: nat)
    requires Tracks(t, l) && OneAddress(t, l) && Tracks(u, p) && OneAddress(u, p) && Part(p, l) && i in l && i !in p
    ensures l[i].ok !in u.overload
    ensures l[i].pk in u.portmap ==> AtEntry(u, l[i]) && 0 < u.portmap[l[i].pk].flowCnt < 0xffff
  {
    FreeWire(l, u, p, i);
    UsersOfPart(p, l, i);
    assert Placed(t, l[i]) && Counted(u, p, l[i].pk) && Counted(t, l, l[i].pk);
    if l[i].pk in u.portmap {
      SharedPort(t, l, u, p, i);
    }
  }

  /** The first flow of the client that a dump lists. */
  ghost function FirstOf(l: Ledger, order: seq<nat>, pk: PortmapKey): Option<nat> {
    if order == [] then None else
    var o, i := FirstOf(l, order[..|order| - 1], pk), order[|order| - 1];
    if o.Some? then o else if i in Users(l, pk) then Some(i) else None
  }

  lemma {:induction false} FirstOfRight(l: Ledger, order: seq<nat>, pk: PortmapKey)
    ensures var o := FirstOf(l, order, pk);
            if o.Some? then o.value in order && o.value in Users(l, pk)
            else forall i :: i in order ==> i !in Users(l, pk)
  {
    if order != [] {
      FirstOfRight(l, order[..|order| - 1], pk);
      assert order == order[..|order| - 1] + [order[|order| - 1]];
    }
  }

  /** The backup knew one flow of the client, and that one comes first. */
  ghost predicate Mends(p: Ledger, l: Ledger, order: seq<nat>, pk: PortmapKey) {
    |Users(p, pk)| == 1 && FirstOf(l, order, pk).Some? && FirstOf(l, order, pk).value in p
  }

  lemma MendsNext(p: Ledger, l: Ledger, init: seq<nat>, i: nat, pk: PortmapKey)
    requires Part(p, l) && i in l && |Users(p, pk)| > 0 && !Mends(p, l, init, pk)
    ensures var q := Known(p, l, init);
            Mends(p, l, init + [i], pk) <==> i in Users(q, pk) && |Users(q, pk)| == 1
  {
    var q := Known(p, l, init);
    FirstOfRight(l, init, pk);
    assert (init + [i])[..|init|] == init;
    assert Users(p, pk) <= Users(q, pk);
    if f :| f in init && f in Users(l, pk) && FirstOf(l, init, pk) == Some(f) {
      assert f in Users(q, pk);
      if |Users(q, pk)| == 1 {
        OnlyOne(Users(p, pk), Users(q, pk), f);
      }
    } else {
      assert Users(q, pk) == Users(p, pk);
    }
  }

  lemma OnlyOne<T>(a: set<T>, b: set<T>, x: T)
    requires a <= b && a != {} && x in b && |b| == 1
    ensures a == {x}
  {
    var y :| y in a;
    assert |b - {x}| == 0;
    assert b == {x};
  }

  /** How the backup that is short fares: against what it would be otherwise, after part of a dump. */
  ghost predicate Fares(v: Tables, u: Tables, p: Ledger, l: Ledger, order: seq<nat>, pk: PortmapKey) {
    if Mends(p, l, order, pk) then Same(v, u) else Short(v, u, pk)
  }

  /** One more message of the dump. */
  lemma ShortNext(t: Tables, l: Ledger, u: Tables, p: Ledger, v: Tables, pk: PortmapKey, init: seq<nat>, i: nat,
                  meta: SyncMeta)
    requires Tracks(t, l) && OneAddress(t, l) && Part(p, l) && i in l && |Users(p, pk)| > 0
    requires Tracks(u, Known(p, l, init)) && OneAddress(u, Known(p, l, init)) && Fares(v, u, p, l, init, pk)
    ensures Fares(Apply(v, NatCreate(l[i], meta)), Apply(u, NatCreate(l[i], meta)), p, l, init + [i], pk)
  {
    assert (init + [i])[..|init|] == init;
    if Mends(p, l, init, pk) {
      ApplyRespectsSame(v, u, NatCreate(l[i], meta));
    } else {
      KnownOneMore(p, l, init, i);
      ShortStep(t, l, u, Known(p, l, init), v, pk, i, meta);
      MendsNext(p, l, init, i, pk);
    }
  }

  lemma DumpNext(u: Tables, l: Ledger, init: seq<nat>, i: nat, metas: map<nat, SyncMeta>)
    requires forall j :: j in init + [i] ==> j in l && j in metas
    ensures ApplyAll(u, Dump(l, init + [i], metas)) ==
            Apply(ApplyAll(u, Dump(l, init, metas)), NatCreate(l[i], metas[i]))
  {
    assert i in init + [i] && forall j :: j in init ==> j in init + [i];
    assert (init + [i])[..|init|] == init;
    ApplyAllAppend(u, Dump(l, init, metas), NatCreate(l[i], metas[i]));
  }

  lemma {:induction false} ShortDump(t: Tables, l: Ledger, u: Tables, p: Ledger, v: Tables, pk: PortmapKey,
                                     order: seq<nat>, metas: map<nat, SyncMeta>)
    requires Tracks(t, l) && OneAddress(t, l)
    requires Tracks(u, p) && OneAddress(u, p) && Part(p, l) && Tagged(u, p, metas)
    requires Short(v, u, pk) && forall i :: i in order ==> i in l && i in metas
    ensures Fares(ApplyAll(v, Dump(l, order, metas)), ApplyAll(u, Dump(l, order, metas)), p, l, order, pk)
    decreases |order|
  {
    if order != [] {
      var init, i := order[..|order| - 1], order[|order| - 1];
      assert order == init + [i];
      ShortDump(t, l, u, p, v, pk, init, metas);
      DumpAdds(t, l, u, p, init, metas);
      DumpNext(u, l, init, i, metas);
      DumpNext(v, l, init, i, metas);
      assert Counted(u, p, pk);
      ShortNext(t, l, ApplyAll(u, Dump(l, init, metas)), p, ApplyAll(v, Dump(l, init, metas)), pk, init, i, metas[i]);
    }
  }

  ghost predicate FullDump(l: Ledger, order: seq<nat>) {
    (forall i :: i in order ==> i in l) && (forall i :: i in l ==> i in order)
  }

  lemma FullRebuilds(t: Tables, l: Ledger, u: Tables, p: Ledger, order: seq<nat>, metas: map<nat, SyncMeta>)
    requires Tracks(t, l) && OneAddress(t, l)
    requires Tracks(u, p) && OneAddress(u, p) && Part(p, l) && Tagged(u, p, metas)
    requires FullDump(l, order) && l.Keys <= metas.Keys
    ensures Same(ApplyAll(u, Dump(l, order, metas)), t)
  {
    DumpRebuildsIff(t, l, u, p, order, metas);
    assert Known(p, l, order) == l;
  }

  lemma FaresIff(v: Tables, u: Tables, t: Tables, p: Ledger, l: Ledger, order: seq<nat>, pk: PortmapKey)
    requires Fares(v, u, p, l, order, pk) && Same(u, t)
    ensures Same(v, t) <==> Mends(p, l, order, pk)
  {
    if Short(v, u, pk) && u.portmap[pk].flowCnt != 1 {
      assert v.portmap[pk] != u.portmap[pk];
    }
  }

  /** What a dump mends. A backup that is listening before the dump it asked for can be told to
      delete an allocation it never heard of, which takes the count of one it does know. A full
      dump then makes it an equal of the active exactly if it does not know the client, or knows
      one flow of it and that one is the first of the client's to be listed. */
  lemma DumpMendsIff(t: Tables, l: Ledger, u: Tables, p: Ledger, a: Alloc, order: seq<nat>,
                     metas: map<nat, SyncMeta>)
    requires Tracks(t, l) && OneAddress(t, l)
    requires Tracks(u, p) && OneAddress(u, p) && Part(p, l) && Tagged(u, p, metas)
    requires a.ok !in u.overload && FullDump(l, order) && l.Keys <= metas.Keys
    ensures Same(ApplyAll(Apply(u, NatDelete(a)), Dump(l, order, metas)), t) <==>
              a.pk !in u.portmap || Mends(p, l, order, a.pk)
  {
    StrayIsShort(u, p, a);
    FullRebuilds(t, l, u, p, order, metas);
    if a.pk in u.portmap {
      var v := Apply(u, NatDelete(a));
      ShortDump(t, l, u, p, v, a.pk, order, metas);
      FaresIff(ApplyAll(v, Dump(l, order, metas)), ApplyAll(u, Dump(l, order, metas)), t, p, l, order, a.pk);
    }
  }

  lemma {:induction false} Listing(s: set<nat>) returns (order: seq<nat>)
    ensures forall i :: i in order <==> i in s
    decreases |s|
  {
    if s == {} {
      order := [];
    } else {
      var i :| i in s;
      var rest := Listing(s - {i});
      order := rest + [i];
    }
  }

  lemma {:induction false} FirstIsHead(l: Ledger, i: nat, rest: seq<nat>, pk: PortmapKey)
    requires i in Users(l, pk)
    ensures FirstOf(l, [i] + rest, pk) == Some(i)
  {
    if rest != [] {
      FirstIsHead(l, i, rest[..|rest| - 1], pk);
      assert ([i] + rest)[..|rest|] == [i] + rest[..|rest| - 1];
    }
  }

  /** A full dump that begins with a flow of the client which the backup does not know of, if the
      active has one. */
  lemma UnknownFirst(l: Ledger, p: Ledger, pk: PortmapKey) returns (order: seq<nat>)
    requires Part(p, l) && Users(l, pk) != {} && (|Users(p, pk)| == 1 ==> |Users(l, pk)| > 1)
    ensures FullDump(l, order) && !Mends(p, l, order, pk)
  {
    var rest := Listing(l.Keys);
    if |Users(p, pk)| == 1 {
      SubsetCard(Users(p, pk), Users(l, pk));
      if Users(l, pk) <= Users(p, pk) { SubsetCard(Users(l, pk), Users(p, pk)); }
      var i :| i in Users(l, pk) && i !in Users(p, pk);
      order := [i] + rest;
      FirstIsHead(l, i, rest, pk);
    } else {
      order := rest;
    }
  }

  /** Whatever the order, which the flow table's hashing decides: exactly if the client is not known
      or has only the one flow that is. */
  lemma EveryDumpMendsIff(t: Tables, l: Ledger, u: Tables, p: Ledger, a: Alloc, metas: map<nat, SyncMeta>)
    requires Tracks(t, l) && OneAddress(t, l)
    requires Tracks(u, p) && OneAddress(u, p) && Part(p, l) && Tagged(u, p, metas)
    requires a.ok !in u.overload && l.Keys <= metas.Keys
    ensures (forall order :: FullDump(l, order) ==>
               Same(ApplyAll(Apply(u, NatDelete(a)), Dump(l, order, metas)), t)) <==>
            a.pk !in u.portmap || (u.portmap[a.pk].flowCnt == 1 && |Users(l, a.pk)| == 1)
  {
    var pk := a.pk;
    assert Counted(u, p, pk);
    assert Users(p, pk) <= Users(l, pk);
    if pk in u.portmap {
      if |Users(p, pk)| == 1 && |Users(l, pk)| == 1 {
        forall order | FullDump(l, order)
          ensures Same(ApplyAll(Apply(u, NatDelete(a)), Dump(l, order, metas)), t)
        {
          OnlyOneMends(l, p, order, pk);
          DumpMendsIff(t, l, u, p, a, order, metas);
        }
      } else {
        var order := UnknownFirst(l, p, pk);
        DumpMendsIff(t, l, u, p, a, order, metas);
      }
    } else {
      forall order | FullDump(l, order)
        ensures Same(ApplyAll(Apply(u, NatDelete(a)), Dump(l, order, metas)), t)
      {
        DumpMendsIff(t, l, u, p, a, order, metas);
      }
    }
  }

  lemma OnlyOneMends(l: Ledger, p: Ledger, order: seq<nat>, pk: PortmapKey)
    requires Part(p, l) && FullDump(l, order) && |Users(p, pk)| == 1 && |Users(l, pk)| == 1
    ensures Mends(p, l, order, pk)
  {
    FirstOfRight(l, order, pk);
    var i :| i in Users(p, pk);
    assert Users(p, pk) <= Users(l, pk);
    OnlyOne(Users(p, pk), Users(l, pk), i);
    assert i in order && i in Users(l, pk);
    OnlyOne(Users(l, pk), Users(l, pk), i);
  }

  /** A backup that knows one flow of three and is told to delete a fourth: a dump that does not
      begin with the one it knows leaves it a flow short for good. */
  lemma DumpAfterStrayDelete()
    ensures var started := Apply(Apply(EMPTY, NatCreate(Flow(4), META)), NatDelete(Flow(1)));
            var dumped := Apply(Apply(Apply(started, NatCreate(Flow(2), META)), NatCreate(Flow(4), META)),
                NatCreate(Flow(3), META));
            && dumped.overload.Keys == {Flow(2).ok, Flow(3).ok, Flow(4).ok}
            && CLIENT in dumped.portmap && dumped.portmap[CLIENT].flowCnt == 2
  {
    var started := Apply(Apply(EMPTY, NatCreate(Flow(4), META)), NatDelete(Flow(1)));
    assert started.overload.Keys == {Flow(4).ok} && CLIENT !in started.portmap;
    var second := Apply(started, NatCreate(Flow(2), META));
    assert second.overload.Keys == {Flow(2).ok, Flow(4).ok};
    assert Apply(second, NatCreate(Flow(4), META)) == second;
  }

  /** One client talking to destinations that differ in their address only. */
  const CLIENT: PortmapKey := PortmapKey(7, V4(1), 1000)
  const META: SyncMeta := SyncMeta(CLIENT, 0, 0)

  function Flow(dst: uint32): Alloc { Alloc(CLIENT, OverloadKey(9, 5000, dst, 80, TCP)) }

  // ---------- the sync node ----------

  class SyncNode {
    var backupMode: bool
    const store: NatStore

    constructor (store: NatStore)
      ensures backupMode && this.store == store
    {
      backupMode := true;
      this.store := store;
    }

    /** sync_node_switch_mode: there is no way back. */
    method SwitchMode()
      modifies this
      ensures !backupMode
    {
      backupMode := false;
    }

    /** process_packet: a backup applies table changes and ignores requests, an active answers
        requests from its flows and ignores table changes. */
    method Process(m: Msg, flows: seq<(Alloc, SyncMeta)>) returns (out: seq<Msg>)
      modifies store
      ensures store.Now() == if backupMode then Apply(old(store.Now()), m) else old(store.Now())
      ensures |out| == if m.RequestDump? && !backupMode then |flows| else 0
      ensures forall k :: 0 <= k < |out| ==> out[k] == NatCreate(flows[k].0, flows[k].1)
    {
      out := [];
      match m {
        case RequestDump =>
          if !backupMode {
            for k := 0 to |flows|
              invariant |out| == k && forall j :: 0 <= j < k ==> out[j] == NatCreate(flows[j].0, flows[j].1)
              invariant store.Now() == old(store.Now())
            {
              out := out + [NatCreate(flows[k].0, flows[k].1)];
            }
          }
        case NatCreate(a, meta) =>
          if backupMode {
            store.AllocateFromSync(a.pk, a.ok, meta);
          }
        case NatDelete(a) =>
          if backupMode {
            store.DeleteEntries(a.pk, a.ok);
          }
      }
    }
  }
}
