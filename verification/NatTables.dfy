/** The two coupled NAT tables: the portmap remembers which NAT port a client's source port got
    and how many flows use it, the portoverload table which NAT ports are taken towards which
    destination. A ledger of the live allocations says what they should hold. */
module NatTables {
  import opened Words
  import opened FlowKeys
  import opened NatPorts

  datatype PortmapData = PortmapData(natIp: uint32, natPort: uint16, flowCnt: uint16)

  /** The portoverload table maps to nothing on the active and to metadata on the backup. */
  datatype Tables = Tables(portmap: map<PortmapKey, PortmapData>, overload: map<OverloadKey, Option<SyncMeta>>)

  const EMPTY: Tables := Tables(map[], map[])

  datatype Outcome = Done(t: Tables, natPort: uint16) | Exists | NoEntry | Full

  /** dp_use_existing_portmap_entry */
  function UseExisting(t: Tables, pk: PortmapKey, ok: OverloadKey, data: Option<SyncMeta>): Outcome {
    if pk !in t.portmap then NoEntry else
    var d := t.portmap[pk];
    var key := ok.(natPort := d.natPort);
    if key in t.overload then Exists
    else Done(Tables(t.portmap[pk := d.(flowCnt := Wrap16(d.flowCnt + 1))], t.overload[key := data]), d.natPort)
  }

  /** dp_create_new_portmap_entry */
  function CreateNew(t: Tables, pk: PortmapKey, ok: OverloadKey, data: Option<SyncMeta>): Tables {
    Tables(t.portmap[pk := PortmapData(ok.natIp, ok.natPort, 1)], t.overload[ok := data])
  }

  /** dp_allocate_network_snat_port, from the point where the keys are known. */
  function Allocate(t: Tables, pk: PortmapKey, ok: OverloadKey, min: uint16, max: uint16, hash: uint32): Outcome {
    match UseExisting(t, pk, ok, None)
    case NoEntry =>
      (match FindPort(t.overload.Keys, ok, min, max, hash, 0)
       case None => Full
       case Some(port) => Done(CreateNew(t, pk, ok.(natPort := port), None), port))
    case o => o
  }

  /** dp_allocate_sync_snat_port */
  function AllocateSync(t: Tables, pk: PortmapKey, ok: OverloadKey, meta: SyncMeta): Tables {
    match UseExisting(t, pk, ok, Some(meta))
    case Done(t', _) => t'
    case NoEntry => CreateNew(t, pk, ok, Some(meta))
    case _ => t
  }

  /** dp_delete_snat_entries */
  function Delete(t: Tables, pk: PortmapKey, ok: OverloadKey): Tables {
    var overload := t.overload - {ok};
    if pk !in t.portmap then Tables(t.portmap, overload) else
    var d := t.portmap[pk];
    var cnt := Wrap16(d.flowCnt - 1);
    Tables(if cnt == 0 then t.portmap - {pk} else t.portmap[pk := d.(flowCnt := cnt)], overload)
  }

  // ---------- the ledger ----------

  /** The live allocations, by the flow that owns each. */
  type Ledger = map<nat, Alloc>

  ghost function Users(l: Ledger, pk: PortmapKey): set<nat> { set i | i in l && l[i].pk == pk }

  ghost function Wires(l: Ledger): set<OverloadKey> { set i | i in l :: l[i].ok }

  ghost predicate OneOwner(l: Ledger) { forall i, j :: i in l && j in l && l[i].ok == l[j].ok ==> i == j }

  /** A client has a portmap entry exactly while it has allocations, and it counts them. */
  ghost predicate Counted(t: Tables, l: Ledger, pk: PortmapKey) {
    if pk in t.portmap then t.portmap[pk].flowCnt == |Users(l, pk)| > 0 else |Users(l, pk)| == 0
  }

  /** An allocation uses the port its client's entry names. */
  ghost predicate Placed(t: Tables, a: Alloc) {
    a.pk in t.portmap && t.portmap[a.pk].natPort == a.ok.natPort
  }

  /** The tables hold what the ledger says. */
  ghost predicate Tracks(t: Tables, l: Ledger) {
    && OneOwner(l)
    && t.overload.Keys == Wires(l)
    && (forall pk :: Counted(t, l, pk))
    && (forall i :: i in l ==> Placed(t, l[i]))
  }

  /** All of a client's allocations are on the address its portmap entry was created with. */
  ghost predicate OneAddress(t: Tables, l: Ledger) {
    forall i :: i in l ==> l[i].pk in t.portmap && t.portmap[l[i].pk].natIp == l[i].ok.natIp
  }

  lemma EmptyTracks()
    ensures Tracks(EMPTY, map[])
  {
    forall pk ensures Counted(EMPTY, map[], pk) {
      assert Users(map[], pk) == {};
    }
  }

  lemma AddedUsers(l: Ledger, i: nat, a: Alloc, pk: PortmapKey)
    requires i !in l
    ensures |Users(l[i := a], pk)| == |Users(l, pk)| + if a.pk == pk then 1 else 0
  {
    assert Users(l[i := a], pk) == Users(l, pk) + if a.pk == pk then {i} else {};
  }

  lemma AddedWires(l: Ledger, i: nat, a: Alloc)
    requires i !in l
    ensures Wires(l[i := a]) == Wires(l) + {a.ok}
  {
    var l' := l[i := a];
    assert i in l' && l'[i].ok == a.ok;
    forall ok | ok in Wires(l) ensures ok in Wires(l') {
      var j :| j in l && l[j].ok == ok;
      assert j in l' && l'[j].ok == ok;
    }
  }

  lemma OwnWire(l: Ledger, j: nat)
    requires j in l
    ensures l[j].ok in Wires(l) && j in Users(l, l[j].pk) && |Users(l, l[j].pk)| > 0
  {
  }

  /** Filing one more allocation under a free wire key, in either way, keeps track of it. */
  lemma FilingTracks(t: Tables, l: Ledger, i: nat, a: Alloc, d: PortmapData, data: Option<SyncMeta>)
    requires Tracks(t, l) && i !in l && a.ok !in t.overload && d.natPort == a.ok.natPort
    requires a.pk in t.portmap ==> t.portmap[a.pk].natPort == a.ok.natPort
    requires d.flowCnt == |Users(l, a.pk)| + 1
    ensures Tracks(Tables(t.portmap[a.pk := d], t.overload[a.ok := data]), l[i := a])
  {
    var t', l' := Tables(t.portmap[a.pk := d], t.overload[a.ok := data]), l[i := a];
    AddedWires(l, i, a);
    forall pk ensures Counted(t', l', pk) {
      AddedUsers(l, i, a, pk);
      assert Counted(t, l, pk);
    }
    forall j | j in l' ensures Placed(t', l'[j]) && (l'[j].ok == a.ok ==> j == i) {
      if j in l {
        OwnWire(l, j);
        assert Placed(t, l[j]);
      }
    }
  }

  /** Every allocation keeps the tables in step with the ledger exactly while the client's 16-bit
      flow counter has room. */
  lemma AllocateTracksIff(t: Tables, l: Ledger, i: nat, pk: PortmapKey, ok: OverloadKey, min: uint16, max: uint16,
                          hash: uint32)
    requires Tracks(t, l) && i !in l && Allocate(t, pk, ok, min, max, hash).Done?
    ensures var o := Allocate(t, pk, ok, min, max, hash);
            Tracks(o.t, l[i := Alloc(pk, ok.(natPort := o.natPort))]) <==>
              !(pk in t.portmap && t.portmap[pk].flowCnt == 0xffff)
  {
    var o := Allocate(t, pk, ok, min, max, hash);
    var a := Alloc(pk, ok.(natPort := o.natPort));
    assert Counted(t, l, pk);
    if pk in t.portmap && t.portmap[pk].flowCnt == 0xffff {
      AddedUsers(l, i, a, pk);
      assert !Counted(o.t, l[i := a], pk);
    } else {
      FilingTracks(t, l, i, a, o.t.portmap[pk], None);
    }
  }

  /** Why an allocation is refused. The second case is not only a repeated flow: it also hits a
      client whose port another client already uses towards the same destination. */
  lemma AllocateRefusedIff(t: Tables, l: Ledger, pk: PortmapKey, ok: OverloadKey, min: uint16, max: uint16,
                           hash: uint32)
    requires Tracks(t, l)
    ensures Allocate(t, pk, ok, min, max, hash).Full? <==>
              pk !in t.portmap && AllProbesTaken(Wires(l), ok, min, max, hash)
    ensures Complete(hash, Width(min, max)) ==>
              (AllProbesTaken(Wires(l), ok, min, max, hash) <==>
               forall port: uint16 :: InPorts(port, min, max) ==> ok.(natPort := port) in Wires(l))
    ensures Allocate(t, pk, ok, min, max, hash).Exists? <==>
              pk in t.portmap && exists i :: i in l && l[i].ok == ok.(natPort := t.portmap[pk].natPort)
    ensures !Allocate(t, pk, ok, min, max, hash).NoEntry?
  {
    FailsIff(t.overload.Keys, ok, min, max, hash);
    if Complete(hash, Width(min, max)) {
      SearchFailsIff(t.overload.Keys, ok, min, max, hash);
    }
  }

  /** A client that is refused although it has no flow to that destination and its range is
      otherwise free. */
  lemma BorrowedPortBlocks()
    ensures var a := Alloc(PortmapKey(7, V4(1), 1000), OverloadKey(9, 5000, 100, 80, TCP));
            var b := Alloc(PortmapKey(7, V4(2), 1000), OverloadKey(9, 5000, 200, 80, TCP));
            var l := map[0 := a, 1 := b];
            exists t :: Tracks(t, l) && Allocate(t, a.pk, b.ok.(natPort := 0), 5000, 6000, 0).Exists?
  {
    var a := Alloc(PortmapKey(7, V4(1), 1000), OverloadKey(9, 5000, 100, 80, TCP));
    var b := Alloc(PortmapKey(7, V4(2), 1000), OverloadKey(9, 5000, 200, 80, TCP));
    EmptyTracks();
    var l0: Ledger := map[];
    var t1 := CreateNew(EMPTY, a.pk, a.ok, None);
    assert Users(l0, a.pk) == {} && Users(l0[0 := a], b.pk) == {};
    FilingTracks(EMPTY, l0, 0, a, PortmapData(9, 5000, 1), None);
    FilingTracks(t1, l0[0 := a], 1, b, PortmapData(9, 5000, 1), None);
    var t2 := CreateNew(t1, b.pk, b.ok, None);
    assert l0[0 := a][1 := b] == map[0 := a, 1 := b];
    assert Tracks(t2, map[0 := a, 1 := b]);
    assert b.ok.(natPort := 0).(natPort := 5000) == b.ok;
    assert Allocate(t2, a.pk, b.ok.(natPort := 0), 5000, 6000, 0).Exists?;
  }

  lemma RemovedUsers(l: Ledger, i: nat, pk: PortmapKey)
    requires i in l
    ensures |Users(l - {i}, pk)| == |Users(l, pk)| - if l[i].pk == pk then 1 else 0
  {
    assert Users(l - {i}, pk) == Users(l, pk) - {i};
    OwnWire(l, i);
  }

  lemma RemovedWires(l: Ledger, i: nat)
    requires OneOwner(l) && i in l
    ensures Wires(l - {i}) == Wires(l) - {l[i].ok}
  {
    forall ok | ok in Wires(l) - {l[i].ok} ensures ok in Wires(l - {i}) {
      var j :| j in l && l[j].ok == ok;
      assert j in l - {i};
    }
  }

  /** Releasing an allocation keeps the tables in step. */
  lemma ReleaseTracks(t: Tables, l: Ledger, i: nat)
    requires Tracks(t, l) && i in l
    ensures Tracks(Delete(t, l[i].pk, l[i].ok), l - {i})
  {
    var a, l' := l[i], l - {i};
    var t' := Delete(t, a.pk, a.ok);
    RemovedWires(l, i);
    assert Placed(t, a) && Counted(t, l, a.pk);
    forall pk ensures Counted(t', l', pk) {
      RemovedUsers(l, i, pk);
      assert Counted(t, l, pk);
    }
    forall j | j in l' ensures Placed(t', l'[j]) {
      assert Placed(t, l[j]);
      OwnWire(l', j);
      assert Counted(t', l', l[j].pk);
    }
  }

  ghost function Without(l: Ledger, ok: OverloadKey): Ledger { map i | i in l && l[i].ok != ok :: l[i] }

  /** Releasing anything but a live allocation is harmless exactly when neither table knows it. */
  lemma StrayReleaseTracksIff(t: Tables, l: Ledger, pk: PortmapKey, ok: OverloadKey)
    requires Tracks(t, l) && forall i :: i in l ==> l[i] != Alloc(pk, ok)
    ensures Tracks(Delete(t, pk, ok), Without(l, ok)) <==> (ok !in t.overload && pk !in t.portmap)
  {
    var t', l' := Delete(t, pk, ok), Without(l, ok);
    if ok in t.overload {
      var j :| j in l && l[j].ok == ok;
      assert l' == l - {j};
      RemovedUsers(l, j, l[j].pk);
      assert Placed(t, l[j]) && Counted(t, l, l[j].pk);
      assert !Counted(t', l', l[j].pk);
    } else {
      forall i | i in l ensures l[i].ok != ok { OwnWire(l, i); }
      assert l' == l;
      assert Counted(t, l, pk);
      if pk in t.portmap {
        assert !Counted(t', l', pk);
      } else {
        assert t' == t;
      }
    }
  }

  /** Releasing a flow right after its allocation restores both tables. */
  lemma ReleaseUndoesAllocate(t: Tables, l: Ledger, pk: PortmapKey, ok: OverloadKey, min: uint16, max: uint16,
                              hash: uint32)
    requires Tracks(t, l) && Allocate(t, pk, ok, min, max, hash).Done?
    ensures var o := Allocate(t, pk, ok, min, max, hash);
            Delete(o.t, pk, ok.(natPort := o.natPort)) == t
  {
    var o := Allocate(t, pk, ok, min, max, hash);
    var key := ok.(natPort := o.natPort);
    assert (t.overload[key := None] - {key}) == t.overload;
    assert Counted(t, l, pk);
    if pk in t.portmap {
      assert o.t.portmap[pk := t.portmap[pk]] == t.portmap;
    } else {
      assert o.t.portmap - {pk} == t.portmap;
    }
  }

  /** An allocation keeps its client on one address exactly if the client's entry, when there is
      one, was created with the address now asked for. */
  lemma AddressKeptIff(t: Tables, l: Ledger, i: nat, pk: PortmapKey, ok: OverloadKey, min: uint16, max: uint16,
                       hash: uint32)
    requires Tracks(t, l) && OneAddress(t, l) && i !in l && Allocate(t, pk, ok, min, max, hash).Done?
    ensures var o := Allocate(t, pk, ok, min, max, hash);
            OneAddress(o.t, l[i := Alloc(pk, ok.(natPort := o.natPort))]) <==>
                (pk in t.portmap ==> t.portmap[pk].natIp == ok.natIp)
  {
    var o := Allocate(t, pk, ok, min, max, hash);
    var l' := l[i := Alloc(pk, ok.(natPort := o.natPort))];
    assert i in l' && l'[i].pk == pk && pk in o.t.portmap;
    assert Counted(t, l, pk);
    forall j | j in l ensures l[j].pk in t.portmap && (l[j].pk == pk ==> pk in t.portmap) {
      assert Placed(t, l[j]);
    }
  }

  lemma ReleaseKeepsAddress(t: Tables, l: Ledger, i: nat)
    requires Tracks(t, l) && OneAddress(t, l) && i in l
    ensures OneAddress(Delete(t, l[i].pk, l[i].ok), l - {i})
  {
    ReleaseTracks(t, l, i);
    var t', l' := Delete(t, l[i].pk, l[i].ok), l - {i};
    forall j | j in l' ensures l'[j].pk in t'.portmap && t'.portmap[l'[j].pk].natIp == l'[j].ok.natIp {
      assert Placed(t', l'[j]);
    }
  }

  /** The ledger determines the tables, up to the metadata only a backup keeps. */
  lemma LedgerDetermines(t: Tables, u: Tables, l: Ledger)
    requires Tracks(t, l) && Tracks(u, l) && OneAddress(t, l) && OneAddress(u, l)
    ensures t.portmap == u.portmap && t.overload.Keys == u.overload.Keys
  {
    forall pk | pk in t.portmap ensures pk in u.portmap && t.portmap[pk] == u.portmap[pk] {
      assert Counted(t, l, pk) && Counted(u, l, pk);
      assert Users(l, pk) != {};
      var i :| i in Users(l, pk);
      assert Placed(t, l[i]) && Placed(u, l[i]);
    }
    forall pk ensures pk in t.portmap <==> pk in u.portmap {
      assert Counted(t, l, pk) && Counted(u, l, pk);
    }
    assert t.portmap.Keys == u.portmap.Keys;
  }

  // ---------- the tables in place ----------

  class NatStore {
    var portmap: map<PortmapKey, PortmapData>
    var overload: map<OverloadKey, Option<SyncMeta>>

    ghost function Now(): Tables
      reads this
    {
      Tables(portmap, overload)
    }

    constructor ()
      ensures Now() == EMPTY
    {
      portmap, overload := map[], map[];
    }

    /** Whether a portmap entry was there to use, and the NAT port it led to if its wire key was
        still free. */
    method UseEntry(pk: PortmapKey, ok: OverloadKey, data: Option<SyncMeta>) returns (known: bool, port: Option<uint16>)
      modifies this
      ensures match UseExisting(old(Now()), pk, ok, data)
              case Done(t, p) => known && port == Some(p) && Now() == t
              case NoEntry => !known && port == None && Now() == old(Now())
              case _ => known && port == None && Now() == old(Now())
    {
      if pk !in portmap {
        return false, None;
      }
      var d := portmap[pk];
      var key := ok.(natPort := d.natPort);
      if key in overload {
        return true, None;
      }
      overload := overload[key := data];
      portmap := portmap[pk := d.(flowCnt := Wrap16(d.flowCnt + 1))];
      return true, Some(d.natPort);
    }

    method CreateEntry(pk: PortmapKey, ok: OverloadKey, data: Option<SyncMeta>)
      modifies this
      ensures Now() == CreateNew(old(Now()), pk, ok, data)
    {
      overload := overload[ok := data];
      portmap := portmap[pk := PortmapData(ok.natIp, ok.natPort, 1)];
    }

    method AllocatePort(pk: PortmapKey, ok: OverloadKey, min: uint16, max: uint16, hash: uint32)
        returns (port: Option<uint16>)
      modifies this
      ensures match Allocate(old(Now()), pk, ok, min, max, hash)
              case Done(t, p) => port == Some(p) && Now() == t
              case _ => port == None && Now() == old(Now())
    {
      var known;
      known, port := UseEntry(pk, ok, None);
      if !known {
        port := FindNewPort(overload.Keys, ok, min, max, hash);
        if port.Some? {
          CreateEntry(pk, ok.(natPort := port.value), None);
        }
      }
    }

    method AllocateFromSync(pk: PortmapKey, ok: OverloadKey, meta: SyncMeta)
      modifies this
      ensures Now() == AllocateSync(old(Now()), pk, ok, meta)
    {
      var known, _ := UseEntry(pk, ok, Some(meta));
      if !known {
        CreateEntry(pk, ok, Some(meta));
      }
    }

    method DeleteEntries(pk: PortmapKey, ok: OverloadKey)
      modifies this
      ensures Now() == Delete(old(Now()), pk, ok)
    {
      overload := overload - {ok};
      if pk in portmap {
        var d := portmap[pk];
        var cnt := Wrap16(d.flowCnt - 1);
        if cnt == 0 {
          portmap := portmap - {pk};
        } else {
          portmap := portmap[pk := d.(flowCnt := cnt)];
        }
      }
    }
  }
}
