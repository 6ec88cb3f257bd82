/** The connection table of a virtual service as the worker changes it in place. */
module VirtSvcTable {
  import opened Words
  import opened VirtSvc

  lemma FirstOldIs(conns: seq<Conn>, lo: nat, hi: nat, now: uint64, hz: nat, i: nat)
    requires lo <= i < hi <= |conns| && IsOld(conns[i], now, hz)
             && forall j :: lo <= j < i ==> !IsOld(conns[j], now, hz)
    ensures FirstOld(conns, lo, hi, now, hz) == Some(i)
  {
    var r := FirstOld(conns, lo, hi, now, hz);
    assert r.Some? ==> r.value >= i;
  }

  lemma NoneOldIs(conns: seq<Conn>, lo: nat, hi: nat, now: uint64, hz: nat)
    requires lo <= hi <= |conns| && forall j :: lo <= j < hi ==> !IsOld(conns[j], now, hz)
    ensures FirstOld(conns, lo, hi, now, hz) == None
  {
    assert FirstOld(conns, lo, hi, now, hz).None?;
  }

  class Table {
    const conns: array<Conn>
    var open: map<Client, nat>
    var last: nat

    ghost function Now(): Svc
      reads this, conns
    {
      Svc(conns[..], open, last)
    }

    constructor ()
      ensures fresh(conns) && Valid(Now()) && open == map[] && last == 0
    {
      conns := new Conn[PORT_COUNT](_ => Conn(0, Client(0, 0, 0), Transient));
      open, last := map[], 0;
    }

    method GetFreePort(now: uint64, hz: nat) returns (f: Option<nat>)
      requires last < conns.Length
      modifies this`last
      ensures f == FreePort(conns[..], old(last), now, hz)
      ensures last == if f.Some? then f.value else old(last)
    {
      var port := last + 1;
      while port < conns.Length
        invariant last + 1 <= port <= conns.Length
        invariant forall j :: last + 1 <= j < port ==> !IsOld(conns[..][j], now, hz)
      {
        if IsOld(conns[port], now, hz) {
          FirstOldIs(conns[..], last + 1, conns.Length, now, hz, port);
          last := port;
          return Some(port);
        }
        port := port + 1;
      }
      NoneOldIs(conns[..], last + 1, conns.Length, now, hz);
      port := 0;
      while port <= last
        invariant port <= last + 1
        invariant forall j :: 0 <= j < port ==> !IsOld(conns[..][j], now, hz)
      {
        if IsOld(conns[port], now, hz) {
          FirstOldIs(conns[..], 0, last + 1, now, hz, port);
          last := port;
          return Some(port);
        }
        port := port + 1;
      }
      NoneOldIs(conns[..], 0, last + 1, now, hz);
      return None;
    }

    method UsePort(k: Client, p: nat)
      requires p < conns.Length
      modifies this`open, conns
      ensures Now() == Used(old(Now()), k, p)
    {
      if conns[p].ts != 0 {
        open := open - {conns[p].client};
      }
      open := open[k := p];
      conns[p] := conns[p].(client := k, state := Transient);
    }

    method Touch(p: nat, now: uint64, flags: Option<bv8>)
      requires p < conns.Length
      modifies conns
      ensures Now() == Touched(old(Now()), p, now, flags)
    {
      conns[p] := conns[p].(ts := now);
      conns[p] := conns[p].(state := NextState(conns[p].state, flags));
    }

    /** A request leaves with the port of its client's slot, which is the client's alone. */
    method Request(k: Client, now: uint64, hz: nat, flags: Option<bv8>) returns (port: Option<uint16>)
      requires Valid(Now())
      modifies this, conns
      ensures Now() == Requested(old(Now()), k, now, hz, flags).0
      ensures var o := Requested(old(Now()), k, now, hz, flags).1;
              port.Some? == o.Some? && (o.Some? ==> port.value == o.value + SYSTEM_PORTS)
      ensures Valid(Now()) <==> now != 0 || k !in old(open)
    {
      RequestRight(Now(), k, now, hz, flags);
      var p;
      if k in open {
        ByOpen(Now(), k);
        p := open[k];
      } else {
        FreePortRight(conns[..], last, now, hz);
        var f := GetFreePort(now, hz);
        if f.None? {
          return None;
        }
        p := f.value;
        UsePort(k, p);
      }
      Touch(p, now, flags);
      return Some(PortOf(p));
    }

    /** The result says where the source would index past its array, which this cannot. */
    method Reply(port: uint16, now: uint64, flags: Option<bv8>) returns (o: Answer)
      requires Valid(Now())
      modifies conns
      ensures (Now(), o) == Replied(old(Now()), port, now, flags)
      ensures Valid(Now()) <==> now != 0 || !o.ToClient?
    {
      ReplyRight(Now(), port, now, flags);
      var p := SlotOf(port);
      if p >= conns.Length {
        return PastTable;
      }
      if conns[p].ts == 0 {
        return Dropped;
      }
      o := ToClient(conns[p].client);
      Touch(p, now, flags);
    }

    /** The same for the slot a message names. */
    method OpenSyncConnection(k: Client, p: uint16, now: uint64) returns (within: bool)
      requires Valid(Now())
      modifies this, conns
      ensures within <==> p < PORT_COUNT
      ensures Now() == if within then Synced(old(Now()), k, p, now) else old(Now())
      ensures Valid(Now()) <==> now != 0 || !within
    {
      within := p < conns.Length;
      if !within {
        return;
      }
      SyncRight(Now(), k, p, now);
      if k in open {
        ByOpen(Now(), k);
        conns[open[k]] := conns[open[k]].(ts := 0);
        open := open - {k};
      }
      UsePort(k, p);
      conns[p] := conns[p].(ts := now);
      last := p;
    }

    /** One pass over all slots, whatever their order in the hash table. */
    method DelIface(portId: uint16)
      requires Valid(Now())
      modifies this`open, conns
      ensures Now() == WithoutIface(old(Now()), portId) && Valid(Now())
    {
      ghost var s := Now();
      DelIfaceRight(s, portId);
      var i := 0;
      while i < conns.Length
        invariant i <= conns.Length == |s.conns|
        invariant forall j :: 0 <= j < i ==> conns[j] == Closed(s.conns[j], portId)
        invariant forall j :: i <= j < conns.Length ==> conns[j] == s.conns[j]
        invariant open == OpenFrom(s, portId, i)
      {
        assert Listed(s, i);
        if conns[i].client.portId == portId && conns[i].ts != 0 {
          conns[i] := conns[i].(ts := 0);
          open := open - {conns[i].client};
        }
        OpenStep(s, portId, i);
        i := i + 1;
      }
      assert conns[..] == WithoutIface(s, portId).conns;
      OpenAll(s, portId);
    }
  }

  /** The hash table when the pass has come to slot i. */
  ghost function OpenFrom(s: Svc, portId: uint16, i: nat): map<Client, nat> {
    map k | k in s.open && !(k.portId == portId && s.open[k] < i) :: s.open[k]
  }

  lemma OpenAll(s: Svc, portId: uint16)
    requires Valid(s)
    ensures OpenFrom(s, portId, |s.conns|) == WithoutIface(s, portId).open
  {
    forall k | k in s.open ensures s.open[k] < |s.conns| { assert LeadsBack(s, k); }
  }

  lemma OpenStep(s: Svc, portId: uint16, i: nat)
    requires Valid(s) && i < |s.conns|
    ensures OpenFrom(s, portId, i + 1) ==
            if s.conns[i].client.portId == portId && s.conns[i].ts != 0
                then OpenFrom(s, portId, i) - {s.conns[i].client} else OpenFrom(s, portId, i)
  {
    assert Listed(s, i);
    forall k | k in s.open ensures s.open[k] == i <==> s.conns[i].ts != 0 && k == s.conns[i].client {
      assert LeadsBack(s, k);
    }
  }
}
