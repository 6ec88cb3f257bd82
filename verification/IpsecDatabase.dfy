/** The Security Association database as the control thread changes it in place. */
module IpsecDatabase {
  import opened Words
  import opened IpsecSad

  lemma FirstIsIndexOf(slots: seq<Option<nat>>, x: Option<nat>, i: nat)
    requires i <= |slots| && (i < |slots| ==> slots[i] == x) && forall j :: 0 <= j < i ==> slots[j] != x
    ensures i == IndexOf(slots, x)
  {
    var k := IndexOf(slots, x);
    assert k < |slots| ==> slots[k] == x;
  }

  lemma HeldStep(slots: seq<Option<nat>>, i: nat)
    requires i < |slots|
    ensures Held(slots[..i + 1]) == Held(slots[..i]) + (if slots[i].Some? then {slots[i].value} else {})
  {
    var all, init := slots[..i + 1], slots[..i];
    assert all == init + [slots[i]];
    forall id | id in Held(init) ensures id in Held(all) {
      var j :| 0 <= j < |init| && init[j] == Some(id);
      assert all[j] == Some(id);
    }
    assert slots[i].Some? ==> all[i] == Some(slots[i].value);
  }

  lemma UpdateKeeps(s: Sad, spec: Spec, request: Sa, luck: Luck)
    requires Valid(s) && (spec.dir == Egress ==> SameKey(spec, request))
    ensures Valid(Update(s, spec, request, luck).0)
  {
    UpdateRight(s, spec, request, luck);
  }

  class Database {
    var enabled: bool
    var local: uint64
    var index: map<Key, nat>
    const slots: array<Option<nat>>
    var live: map<nat, Sa>
    var nextId: nat

    ghost function Now(): Sad
      reads this, slots
    {
      Sad(enabled, local, index, slots[..], live, nextId)
    }

    constructor (local: uint64)
      ensures fresh(slots) && Now() == Fresh(local) && Valid(Now())
    {
      this.enabled, this.local, this.index, this.live, this.nextId := true, local, map[], map[], 0;
      slots := new Option<nat>[MAX_SA](_ => None);
      new;
      assert slots[..] == Fresh(local).slots;
      FreshValid(local);
    }

    /** The two scans over the slots: for a free one, and for the one an association owns. */
    method FirstSlot(x: Option<nat>) returns (i: nat)
      ensures i == IndexOf(slots[..], x)
    {
      i := 0;
      while i < slots.Length && slots[i] != x
        invariant i <= slots.Length && forall j :: 0 <= j < i ==> slots[j] != x
      {
        i := i + 1;
      }
      FirstIsIndexOf(slots[..], x, i);
    }

    /** Takes memory and a crypto session; what was taken before a failure is given back. */
    method BuildSa(request: Sa, luck: Luck) returns (st: Status)
      requires nextId !in live
      modifies this`live
      ensures st == Built(old(Now()), luck)
      ensures live == if st == Done then old(live)[nextId := request.Masked()] else old(live)
    {
      if !luck.memory {
        return NoMemory;
      }
      if !luck.session || |live| >= MAX_SA {
        return CannotCreate;
      }
      live := live[nextId := request];
      if !luck.framing {
        FreeSa(nextId);
        return CannotCreate;
      }
      live := live[nextId := request.Masked()];
      return Done;
    }

    method FreeSa(id: nat)
      modifies this`live
      ensures live == old(live) - {id}
    {
      live := live - {id};
    }

    /** built is the state in which the association exists but cannot be found yet. */
    method BuildAndFile(key: Key, request: Sa, luck: Luck) returns (st: Status, ghost built: Sad)
      requires nextId !in live
      modifies this`live, this`index, this`nextId
      ensures st == BuiltAndFiled(old(Now()), luck)
      ensures st != Done ==> Now() == old(Now())
      ensures st == Done ==>
                && built == old(Now()).(live := old(live)[old(nextId) := request.Masked()], nextId := old(nextId) + 1)
                && Now() == built.(index := built.index[key := old(nextId)])
    {
      var id := nextId;
      st := BuildSa(request, luck);
      built := Now();
      if st != Done {
        return;
      }
      if !luck.filing {
        FreeSa(id);
        assert live == old(live);
        return CannotCreate, built;
      }
      nextId := nextId + 1;
      built := Now();
      index := index[key := id];
    }

    method CreateSa(request: Sa, luck: Luck) returns (st: Status)
      requires Valid(Now())
      modifies this, slots
      ensures (Now(), st) == Create(old(Now()), request, luck) && Valid(Now())
    {
      CreateRight(Now(), request, luck);
      NextIsNew(Now());
      st := TryCreate(request, luck);
    }

    method TryCreate(request: Sa, luck: Luck) returns (st: Status)
      requires nextId !in live
      modifies this, slots
      ensures (Now(), st) == Create(old(Now()), request, luck)
    {
      if !enabled {
        return Disabled;
      }
      st := Checked(local, request);
      if st != Done {
        return;
      }
      var key := KeyOf(request.Name());
      if key in index {
        return Exists;
      }
      var slot := FirstSlot(None);
      if slot == slots.Length {
        return LimitReached;
      }
      var id := nextId;
      ghost var built;
      st, built := BuildAndFile(key, request, luck);
      if st == Done {
        slots[slot] := Some(id);
      }
    }

    method FindSa(spec: Spec) returns (o: Option<nat>)
      requires NoneDangling(Now())
      ensures o == Find(Now(), spec)
    {
      var key := KeyOf(spec);
      if key !in index {
        return None;
      }
      var sa := live[index[key]];
      if sa.dir != spec.dir || sa.vni != spec.vni || sa.spi != spec.spi {
        return None;
      }
      return Some(index[key]);
    }

    /** The states gone through are the gapless ones. */
    method UpdateSa(spec: Spec, request: Sa, luck: Luck) returns (st: Status, ghost trace: seq<Sad>)
      requires Valid(Now()) && (spec.dir == Egress ==> SameKey(spec, request))
      modifies this, slots
      ensures (Now(), st) == Update(old(Now()), spec, request, luck) && Valid(Now())
      ensures st == Done ==> |trace| == 5 && trace[4] == Now() && Gapless(old(Now()), spec, request, trace)
    {
      ghost var s := Now();
      UpdateKeeps(s, spec, request, luck);
      NextIsNew(s);
      st, trace := TryUpdate(spec, request, luck);
      if st == Done {
        Traced(s, spec, request, trace);
      }
    }

    method TryUpdate(spec: Spec, request: Sa, luck: Luck) returns (st: Status, ghost trace: seq<Sad>)
      requires NoneDangling(Now())
      modifies this, slots
      ensures (Now(), st) == Update(old(Now()), spec, request, luck)
      ensures st == Done ==> |trace| == 5 && trace[4] == Now()
      ensures st == Done ==>
                && Find(old(Now()), spec).Some?
                && IndexOf(old(slots[..]), Find(old(Now()), spec)) < slots.Length
                && trace == Replacing(old(Now()), spec, request, Find(old(Now()), spec).value,
                                      IndexOf(old(slots[..]), Find(old(Now()), spec)))
    {
      trace := [Now()];
      if !enabled {
        return Disabled, trace;
      }
      if spec.dir != Egress {
        return BadDirection, trace;
      }
      st := Checked(local, request);
      if st != Done {
        return;
      }
      var found := FindSa(spec);
      if found.None? {
        return NotFound, trace;
      }
      var slot := FirstSlot(found);
      if slot == slots.Length {
        return NotFound, trace;
      }
      var id := nextId;
      ghost var built;
      st, built := BuildAndFile(BuildKey(LookupSpi(spec), request.src, request.dst), request, luck);
      if st != Done {
        return;
      }
      trace := trace + [built, Now()];
      slots[slot] := Some(id);
      trace := trace + [Now()];
      FreeSa(found.value);
      trace := trace + [Now()];
    }

    method DeleteSa(spec: Spec) returns (st: Status)
      requires Valid(Now())
      modifies this, slots
      ensures (Now(), st) == Delete(old(Now()), spec) && Valid(Now())
    {
      DeleteRight(Now(), spec);
      NextIsNew(Now());
      st := TryDelete(spec);
    }

    method TryDelete(spec: Spec) returns (st: Status)
      requires NoneDangling(Now())
      modifies this, slots
      ensures (Now(), st) == Delete(old(Now()), spec)
    {
      if !enabled {
        return Disabled;
      }
      var found := FindSa(spec);
      if found.None? {
        return NotFound;
      }
      index := index - {KeyOf(spec)};
      var slot := FirstSlot(found);
      if slot < slots.Length {
        slots[slot] := None;
      }
      FreeSa(found.value);
      return Done;
    }

    method GetSa(spec: Spec) returns (st: Status, sa: Option<Sa>)
      requires Valid(Now())
      ensures st == Done <==> enabled && Find(Now(), spec).Some?
      ensures sa.Some? <==> st == Done
      ensures sa.Some? ==>
                && KeyOf(spec) in View(Now())
                && sa.value == View(Now())[KeyOf(spec)] && sa.value.spi == spec.spi
    {
      if !enabled {
        return Disabled, None;
      }
      NextIsNew(Now());
      var found := FindSa(spec);
      FindIff(Now(), spec);
      if found.None? {
        return NotFound, None;
      }
      return Done, Some(live[found.value]);
    }

    /** dp_ipsec_free: no association outlives the database. */
    method Free()
      requires Owns(slots[..], live)
      modifies this, slots
      ensures live == map[] && index == map[] && !enabled && forall i :: 0 <= i < slots.Length ==> slots[i].None?
    {
      ghost var was, owned := slots[..], live.Keys;
      var n := 0;
      while n < slots.Length
        invariant n <= slots.Length == |was|
        invariant forall j :: 0 <= j < n ==> slots[j].None?
        invariant forall j :: n <= j < slots.Length ==> slots[j] == was[j]
        invariant live.Keys == owned - Held(was[..n])
      {
        HeldStep(was, n);
        if slots[n].Some? {
          FreeSa(slots[n].value);
          slots[n] := None;
        }
        n := n + 1;
      }
      assert was[..n] == was;
      enabled, index := false, map[];
    }
  }

  /** Every state of the trace is between the two associations, and both ends are there. */
  ghost predicate Gapless(s: Sad, spec: Spec, request: Sa, trace: seq<Sad>)
    requires Valid(s)
  {
    && KeyOf(spec) in View(s) && Find(s, spec).Some? && trace != [] && trace[0] == s
    && forall t :: t in trace ==>
         || Between(s, t, KeyOf(spec), View(s)[KeyOf(spec)], Find(s, spec).value)
         || Between(s, t, KeyOf(spec), request.Masked(), Find(s, spec).value)
  }

  lemma Traced(s: Sad, spec: Spec, request: Sa, trace: seq<Sad>)
    requires Valid(s) && Find(s, spec).Some? && SameKey(spec, request)
    requires IndexOf(s.slots, Find(s, spec)) < |s.slots|
    requires trace == Replacing(s, spec, request, Find(s, spec).value, IndexOf(s.slots, Find(s, spec)))
    ensures Gapless(s, spec, request, trace)
  {
    ReplacingGapless(s, spec, request, 0);
    forall t | t in trace
      ensures || Between(s, t, KeyOf(spec), View(s)[KeyOf(spec)], Find(s, spec).value)
              || Between(s, t, KeyOf(spec), request.Masked(), Find(s, spec).value)
    {
      var i :| 0 <= i < |trace| && trace[i] == t;
      ReplacingGapless(s, spec, request, i);
    }
  }
}
