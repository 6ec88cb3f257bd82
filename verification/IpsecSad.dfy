/** The Security Association database: a hash index over the associations, sixty-four slots that
    own them, and as many crypto sessions. Section 4.4.2 of RFC 4301. */
module IpsecSad {
  import opened Words

  const MAX_SA: nat := 64
  const ALGO_MAX: nat := 2
  const REPLAY_WINDOW_MAX: nat := 4096

  datatype Dir = Ingress | Egress

  /** An underlay address; associations are matched on the first half. */
  datatype Addr = Addr(prefix: uint64, suffix: uint64) {
    function Masked(): Addr { Addr(prefix, 0) }
  }

  /** How a request names an association. */
  datatype Spec = Spec(spi: uint32, vni: uint32, dir: Dir, src: Addr, dst: Addr)

  datatype Sa = Sa(
    spi: uint32, vni: uint32, dir: Dir, src: Addr, dst: Addr,
    algo: nat, secret: seq<uint8>, replayWindow: uint32, esn: bool)
  {
    function Name(): Spec { Spec(spi, vni, dir, src, dst) }
    function Masked(): Sa { this.(src := src.Masked(), dst := dst.Masked()) }
  }

  datatype Key = Key(spi: uint32, dst: Addr, src: Addr)

  /** dp_ipsec_build_key */
  function BuildKey(lookupSpi: uint32, src: Addr, dst: Addr): Key { Key(lookupSpi, dst.Masked(), src.Masked()) }

  /** dp_ipsec_get_lookup_spi */
  function LookupSpi(spec: Spec): uint32 { if spec.dir == Egress then spec.vni else spec.spi }

  function KeyOf(spec: Spec): Key { BuildKey(LookupSpi(spec), spec.src, spec.dst) }

  /** The database. Associations have identities that are never reused; live holds those whose
      memory and crypto session exist. local is the prefix of this host's underlay address. */
  datatype Sad = Sad(
    enabled: bool, local: uint64, index: map<Key, nat>, slots: seq<Option<nat>>, live: map<nat, Sa>, nextId: nat)

  datatype Status = Done | Disabled | BadAlgo | BadAddr | BadWindow | Exists | LimitReached | NoMemory | CannotCreate
      | NotFound | BadDirection

  /** What the foreign calls of a request come to: the allocation, the crypto session, the framing
      state, and the insertion into the index. */
  datatype Luck = Luck(memory: bool, session: bool, framing: bool, filing: bool) {
    predicate All() { memory && session && framing && filing }
  }

  predicate LocalSideValid(local: uint64, sa: Sa) { (if sa.dir == Egress then sa.src else sa.dst).prefix == local }

  predicate WindowValid(sa: Sa) {
    if sa.dir == Egress then sa.replayWindow == 0 else sa.replayWindow <= REPLAY_WINDOW_MAX
  }

  /** The checks that creating and replacing share. */
  function Checked(local: uint64, sa: Sa): Status {
    if sa.algo >= ALGO_MAX then BadAlgo
    else if !LocalSideValid(local, sa) then BadAddr
    else if !WindowValid(sa) then BadWindow
    else Done
  }

  function FindOne(s: Sad, spec: Spec): Option<nat> {
    if KeyOf(spec) in s.index then Some(s.index[KeyOf(spec)]) else None
  }

  /** dp_ipsec_find_sa */
  function Find(s: Sad, spec: Spec): Option<nat> {
    var o := FindOne(s, spec);
    if o.None? || o.value !in s.live then None else
    var sa := s.live[o.value];
    if sa.dir != spec.dir || sa.vni != spec.vni || sa.spi != spec.spi then None else o
  }

  /** The first slot that holds x, or the number of slots. */
  function IndexOf(slots: seq<Option<nat>>, x: Option<nat>): (i: nat)
    ensures i <= |slots| && (i < |slots| ==> slots[i] == x) && forall j :: 0 <= j < i ==> slots[j] != x
  {
    if slots == [] || slots[0] == x then 0 else 1 + IndexOf(slots[1..], x)
  }

  /** dp_ipsec_build_sa: one session per association, out of a pool of as many as there are slots. */
  function Built(s: Sad, luck: Luck): Status {
    if !luck.memory then NoMemory
    else if !luck.session || |s.live| >= MAX_SA || !luck.framing then CannotCreate
    else Done
  }

  /** Building and then filing; what was built is freed again if it cannot be filed. */
  function BuiltAndFiled(s: Sad, luck: Luck): Status {
    if Built(s, luck) != Done then Built(s, luck) else if luck.filing then Done else CannotCreate
  }

  /** dp_ipsec_create_sa */
  function Create(s: Sad, request: Sa, luck: Luck): (Sad, Status) {
    if !s.enabled then (s, Disabled) else
    if Checked(s.local, request) != Done then (s, Checked(s.local, request)) else
    if FindOne(s, request.Name()).Some? then (s, Exists) else
    var slot := IndexOf(s.slots, None);
    if slot == |s.slots| then (s, LimitReached) else
    if BuiltAndFiled(s, luck) != Done then (s, BuiltAndFiled(s, luck)) else
    (s.(index := s.index[KeyOf(request.Name()) := s.nextId], slots := s.slots[slot := Some(s.nextId)],
        live := s.live[s.nextId := request.Masked()], nextId := s.nextId + 1), Done)
  }

  /** The states dp_ipsec_update_sa goes through once the replacement is being built. */
  function Replacing(s: Sad, spec: Spec, request: Sa, old': nat, slot: nat): seq<Sad>
    requires slot < |s.slots|
  {
    var s1 := s.(live := s.live[s.nextId := request.Masked()], nextId := s.nextId + 1);
    var s2 := s1.(index := s1.index[BuildKey(LookupSpi(spec), request.src, request.dst) := s.nextId]);
    var s3 := s2.(slots := s2.slots[slot := Some(s.nextId)]);
    [s, s1, s2, s3, s3.(live := s3.live - {old'})]
  }

  /** dp_ipsec_update_sa */
  function Update(s: Sad, spec: Spec, request: Sa, luck: Luck): (Sad, Status) {
    if !s.enabled then (s, Disabled) else
    if spec.dir != Egress then (s, BadDirection) else
    if Checked(s.local, request) != Done then (s, Checked(s.local, request)) else
    var old' := Find(s, spec);
    if old'.None? then (s, NotFound) else
    var slot := IndexOf(s.slots, old');
    if slot == |s.slots| then (s, NotFound) else
    if BuiltAndFiled(s, luck) != Done then (s, BuiltAndFiled(s, luck)) else
    (Replacing(s, spec, request, old'.value, slot)[4], Done)
  }

  /** What dp_process_update_security_association asks for: the same name but for the wire SPI. */
  function Renewed(spec: Spec, newSpi: uint32, algo: nat, secret: seq<uint8>, window: uint32, esn: bool): Sa {
    Sa(newSpi, spec.vni, spec.dir, spec.src, spec.dst, algo, secret, window, esn)
  }

  /** dp_ipsec_delete_sa */
  function Delete(s: Sad, spec: Spec): (Sad, Status) {
    if !s.enabled then (s, Disabled) else
    var o := Find(s, spec);
    if o.None? then (s, NotFound) else
    var slot := IndexOf(s.slots, o);
    (s.(index := s.index - {KeyOf(spec)},
        slots := if slot < |s.slots| then s.slots[slot := None] else s.slots,
        live := s.live - {o.value}), Done)
  }

  // ---------- what every request keeps ----------

  /** The key an association has to be filed under. */
  function FileKey(sa: Sa): Key { KeyOf(sa.Name()) }

  ghost predicate Proper(local: uint64, sa: Sa) { sa.Masked() == sa && Checked(local, sa) == Done }

  ghost predicate LeadsToOwn(s: Sad, k: Key)
    requires k in s.index
  {
    s.index[k] in s.live && FileKey(s.live[s.index[k]]) == k
  }

  ghost predicate Filed(s: Sad, id: nat)
    requires id in s.live
  {
    && FileKey(s.live[id]) in s.index && s.index[FileKey(s.live[id])] == id
    && Proper(s.local, s.live[id]) && id < s.nextId
  }

  ghost predicate NoneTwice(slots: seq<Option<nat>>) {
    forall i, j :: 0 <= i < j < |slots| && slots[i].Some? ==> slots[i] != slots[j]
  }

  ghost function Held(slots: seq<Option<nat>>): set<nat> {
    set i | 0 <= i < |slots| && slots[i].Some? :: slots[i].value
  }

  /** The slots own the live associations, each once. */
  ghost predicate Owns(slots: seq<Option<nat>>, live: map<nat, Sa>) {
    |slots| == MAX_SA && NoneTwice(slots) && Held(slots) == live.Keys
  }

  /** Index, slots and live associations are in one-to-one correspondence, and each association is
      filed under the key of its direction. */
  ghost predicate Valid(s: Sad) {
    && (forall k :: k in s.index ==> LeadsToOwn(s, k))
    && (forall id :: id in s.live ==> Filed(s, id))
    && Owns(s.slots, s.live)
  }

  /** What the outside sees: which association a key stands for. */
  function View(s: Sad): map<Key, Sa> { Resolved(s.index, s.live) }

  function Resolved(index: map<Key, nat>, live: map<nat, Sa>): map<Key, Sa> {
    map k | k in index && index[k] in live :: live[index[k]]
  }

  lemma ResolvedWith(index: map<Key, nat>, live: map<nat, Sa>, key: Key, id: nat, sa: Sa)
    requires id !in live && forall k :: k in index ==> index[k] in live
    ensures Resolved(index[key := id], live[id := sa]) == Resolved(index, live)[key := sa]
    ensures Resolved(index, live[id := sa]) == Resolved(index, live)
  {
  }

  lemma ResolvedWithout(index: map<Key, nat>, live: map<nat, Sa>, id: nat)
    requires forall k :: k in index ==> index[k] != id
    ensures Resolved(index, live - {id}) == Resolved(index, live)
  {
  }

  lemma ResolvedAfterRemoval(index: map<Key, nat>, live: map<nat, Sa>, key: Key)
    requires key in index && forall k :: k in index && index[k] == index[key] ==> k == key
    ensures Resolved(index - {key}, live - {index[key]}) == Resolved(index, live) - {key}
  {
  }

  // ---------- counting ----------

  lemma {:induction false} HeldCount(slots: seq<Option<nat>>)
    requires NoneTwice(slots)
    ensures |Held(slots)| <= |slots| && (|Held(slots)| == |slots| <==> None !in slots)
  {
    if slots == [] {
      assert Held(slots) == {};
    } else {
      var n := |slots| - 1;
      var init, last := slots[..n], slots[n];
      assert NoneTwice(init);
      HeldCount(init);
      assert slots == init + [last];
      match last {
        case None => assert Held(slots) == Held(init);
        case Some(id) =>
          assert id !in Held(init);
          assert Held(slots) == Held(init) + {id};
      }
    }
  }

  /** There is a free slot exactly if fewer than sixty-four associations are live. */
  lemma FreeSlotIff(s: Sad)
    requires Owns(s.slots, s.live)
    ensures |s.live| <= MAX_SA && (IndexOf(s.slots, None) < |s.slots| <==> |s.live| < MAX_SA)
  {
    HeldCount(s.slots);
    assert |s.live| == |s.live.Keys|;
  }

  /** As many keys as associations, and never more than sixty-four. */
  lemma Capacity(s: Sad)
    requires Valid(s)
    ensures |s.index| == |s.live| <= MAX_SA
  {
    FreeSlotIff(s);
    var ids := set k | k in s.index.Keys :: s.index[k];
    SameSize(s.index.Keys, s.index);
    forall id | id in s.live ensures id in ids {
      assert Filed(s, id);
      assert FileKey(s.live[id]) in s.index.Keys;
    }
    assert ids == s.live.Keys by {
      forall id | id in ids ensures id in s.live {
        var k :| k in s.index.Keys && s.index[k] == id;
        assert LeadsToOwn(s, k);
      }
    }
    forall j, k | j in s.index && k in s.index && s.index[j] == s.index[k] ensures j == k {
      assert LeadsToOwn(s, j) && LeadsToOwn(s, k);
    }
  }

  lemma {:induction false} SameSize(keys: set<Key>, index: map<Key, nat>)
    requires keys <= index.Keys
    ensures (forall j, k :: j in keys && k in keys && index[j] == index[k] ==> j == k) ==>
            |set k | k in keys :: index[k]| == |keys|
    decreases keys
  {
    if keys == {} {
      assert (set k | k in keys :: index[k]) == {};
    } else if forall j, k :: j in keys && k in keys && index[j] == index[k] ==> j == k {
      var k :| k in keys;
      var rest := keys - {k};
      SameSize(rest, index);
      assert (set x | x in keys :: index[x]) == (set x | x in rest :: index[x]) + {index[k]};
    }
  }

  // ---------- slots ----------

  lemma FillSlot(slots: seq<Option<nat>>, live: map<nat, Sa>, id: nat, sa: Sa)
    requires Owns(slots, live) && id !in live && IndexOf(slots, None) < |slots|
    ensures Owns(slots[IndexOf(slots, None) := Some(id)], live[id := sa])
  {
    var slot := IndexOf(slots, None);
    SetSlot(slots, slot, Some(id));
    assert Held(slots[slot := Some(id)]) == live[id := sa].Keys;
  }

  lemma EmptySlot(slots: seq<Option<nat>>, live: map<nat, Sa>, id: nat)
    requires Owns(slots, live) && id in live
    ensures IndexOf(slots, Some(id)) < |slots| && Owns(slots[IndexOf(slots, Some(id)) := None], live - {id})
  {
    var slot := IndexOf(slots, Some(id));
    assert id in Held(slots);
    SetSlot(slots, slot, None);
    assert Held(slots[slot := None]) == (live - {id}).Keys;
  }

  lemma TakeOverSlot(slots: seq<Option<nat>>, live: map<nat, Sa>, old': nat, id: nat, sa: Sa)
    requires Owns(slots, live) && old' in live && id !in live
    ensures IndexOf(slots, Some(old')) < |slots|
            && Owns(slots[IndexOf(slots, Some(old')) := Some(id)], live[id := sa] - {old'})
  {
    var slot := IndexOf(slots, Some(old'));
    assert old' in Held(slots);
    SetSlot(slots, slot, Some(id));
    assert Held(slots[slot := Some(id)]) == (live[id := sa] - {old'}).Keys;
  }

  /** Giving a slot a new content that is nowhere else changes what is held accordingly. */
  lemma SetSlot(slots: seq<Option<nat>>, slot: nat, x: Option<nat>)
    requires NoneTwice(slots) && slot < |slots| && (x.Some? ==> x.value !in Held(slots))
    ensures NoneTwice(slots[slot := x])
    ensures Held(slots[slot := x]) ==
            Held(slots) - (if slots[slot].Some? then {slots[slot].value} else {}) + (if x.Some? then {x.value} else {})
  {
    var new' := slots[slot := x];
    forall id | id in Held(new')
      ensures id in Held(slots) - (if slots[slot].Some? then {slots[slot].value} else {})
              + (if x.Some? then {x.value} else {})
    {
      var i :| 0 <= i < |new'| && new'[i] == Some(id);
      if i != slot { assert slots[i] == Some(id) && id in Held(slots); }
    }
    forall id | id in Held(slots) && slots[slot] != Some(id) ensures id in Held(new') {
      var i :| 0 <= i < |slots| && slots[i] == Some(id);
      assert new'[i] == Some(id);
    }
    assert x.Some? ==> new'[slot] == Some(x.value);
  }

  // ---------- requests ----------

  ghost predicate NoneDangling(s: Sad) {
    s.nextId !in s.live && forall k :: k in s.index ==> s.index[k] in s.live && s.index[k] != s.nextId
  }

  lemma NextIsNew(s: Sad)
    requires Valid(s)
    ensures NoneDangling(s)
  {
    assert s.nextId in s.live ==> Filed(s, s.nextId);
    forall k | k in s.index ensures s.index[k] in s.live && s.index[k] != s.nextId {
      assert LeadsToOwn(s, k);
    }
  }

  lemma CreateDoneIff(s: Sad, request: Sa, luck: Luck)
    requires Owns(s.slots, s.live)
    ensures var (n, st) := Create(s, request, luck);
            && (st == Done <==> s.enabled && Checked(s.local, request) == Done && KeyOf(request.Name()) !in s.index
                                && |s.live| < MAX_SA && luck.All())
            && (st != Done ==> n == s)
  {
    FreeSlotIff(s);
  }

  /** An association is created exactly if the request is in order, its key is unused, fewer than
      sixty-four are live and no foreign call fails; otherwise nothing changes at all. */
  lemma CreateRight(s: Sad, request: Sa, luck: Luck)
    requires Valid(s)
    ensures var (n, st) := Create(s, request, luck);
            && Valid(n)
            && (st == Done <==> s.enabled && Checked(s.local, request) == Done && KeyOf(request.Name()) !in s.index
                                && |s.live| < MAX_SA && luck.All())
            && (st != Done ==> n == s)
            && (st == Done ==> View(n) == View(s)[KeyOf(request.Name()) := request.Masked()])
  {
    CreateDoneIff(s, request, luck);
    FreeSlotIff(s);
    var (n, st) := Create(s, request, luck);
    if st == Done {
      NextIsNew(s);
      FillSlot(s.slots, s.live, s.nextId, request.Masked());
      FilingRight(s, n, request);
    }
  }

  lemma FilingRight(s: Sad, n: Sad, request: Sa)
    requires Valid(s) && Checked(s.local, request) == Done && KeyOf(request.Name()) !in s.index && s.nextId !in s.live
    requires n == s.(index := s.index[KeyOf(request.Name()) := s.nextId], slots := n.slots,
                     live := s.live[s.nextId := request.Masked()], nextId := s.nextId + 1)
    requires Owns(n.slots, n.live)
    ensures Valid(n) && View(n) == View(s)[KeyOf(request.Name()) := request.Masked()]
  {
    NextIsNew(s);
    ResolvedWith(s.index, s.live, KeyOf(request.Name()), s.nextId, request.Masked());
    forall k | k in n.index ensures LeadsToOwn(n, k) {
      if k in s.index { assert LeadsToOwn(s, k); }
    }
    forall id | id in n.live ensures Filed(n, id) {
      if id in s.live { assert Filed(s, id); }
    }
  }

  /** What a spec names: the association filed under its key, if the rest of the name agrees. */
  lemma FindIff(s: Sad, spec: Spec)
    requires Valid(s)
    ensures Find(s, spec).Some? <==>
            KeyOf(spec) in View(s)
                && View(s)[KeyOf(spec)].Name() ==
                    Spec(spec.spi, spec.vni, spec.dir, spec.src.Masked(), spec.dst.Masked())
    ensures Find(s, spec).Some? ==>
            KeyOf(spec) in s.index && Find(s, spec).value == s.index[KeyOf(spec)] && s.index[KeyOf(spec)] in s.live
  {
    if KeyOf(spec) in s.index {
      assert LeadsToOwn(s, KeyOf(spec));
      assert Filed(s, s.index[KeyOf(spec)]);
    }
  }

  /** Removal takes exactly the named association away, or changes nothing. */
  lemma DeleteRight(s: Sad, spec: Spec)
    requires Valid(s)
    ensures var (n, st) := Delete(s, spec);
            && Valid(n)
            && (st == Done <==> s.enabled && Find(s, spec).Some?)
            && (st != Done ==> n == s)
            && (st == Done ==> View(n) == View(s) - {KeyOf(spec)} && Find(n, spec).None?)
  {
    var (n, st) := Delete(s, spec);
    if st == Done {
      FindIff(s, spec);
      EmptySlot(s.slots, s.live, s.index[KeyOf(spec)]);
      RemovalRight(s, n, KeyOf(spec));
    }
  }

  lemma RemovalRight(s: Sad, n: Sad, key: Key)
    requires Valid(s) && key in s.index && Owns(n.slots, n.live)
    requires n == s.(index := s.index - {key}, slots := n.slots, live := s.live - {s.index[key]})
    ensures Valid(n) && View(n) == View(s) - {key}
  {
    OnlyItsKey(s, key);
    ResolvedAfterRemoval(s.index, s.live, key);
    assert LeadsToOwn(s, key);
    forall k | k in n.index ensures LeadsToOwn(n, k) { assert LeadsToOwn(s, k); }
    forall id | id in n.live ensures Filed(n, id) { assert Filed(s, id); }
  }

  // ---------- replacing ----------

  /** Whether a replacement would be filed where it looks for its predecessor. */
  predicate SameKey(spec: Spec, request: Sa) { KeyOf(request.Name()) == KeyOf(spec) }

  /** A replacement happens exactly if the request is in order, the full name is found, no foreign
      call fails and - as the session pool has no spare - fewer than sixty-four associations are
      live. All sixty-four live: it cannot succeed. It keeps the database valid if and only if it
      has the key of its predecessor, which it then stands for, and otherwise nothing changes. */
  lemma UpdateRight(s: Sad, spec: Spec, request: Sa, luck: Luck)
    requires Valid(s)
    ensures var (n, st) := Update(s, spec, request, luck);
            && (st == Done <==> s.enabled && spec.dir == Egress && Checked(s.local, request) == Done
                                && Find(s, spec).Some? && |s.live| < MAX_SA && luck.All())
            && (st != Done ==> n == s)
            && (st == Done ==> (Valid(n) <==> SameKey(spec, request)))
            && (st == Done && SameKey(spec, request) ==> View(n) == View(s)[KeyOf(spec) := request.Masked()])
  {
    var (n, st) := Update(s, spec, request, luck);
    FindIff(s, spec);
    if Find(s, spec).Some? {
      NextIsNew(s);
      TakeOverSlot(s.slots, s.live, s.index[KeyOf(spec)], s.nextId, request.Masked());
      if st == Done {
        if SameKey(spec, request) {
          ReplacementRight(s, n, spec, request);
        } else {
          ReplacementWrong(s, n, spec, request);
        }
      }
    }
  }

  /** With sixty-four associations live none of them can be replaced, in whatever slot it sits: the
      replacement's session is taken before the old one is given back. */
  lemma FullCannotRekey(s: Sad, spec: Spec, request: Sa, luck: Luck)
    requires Valid(s) && |s.live| == MAX_SA
    ensures Update(s, spec, request, luck).1 != Done && Update(s, spec, request, luck).0 == s
  {
    UpdateRight(s, spec, request, luck);
  }

  /** After a replacement, before anything is said about its key. */
  ghost predicate Replaced(s: Sad, n: Sad, spec: Spec, request: Sa) {
    && KeyOf(spec) in s.index
    && n == s.(index := s.index[BuildKey(LookupSpi(spec), request.src, request.dst) := s.nextId], slots := n.slots,
               live := s.live[s.nextId := request.Masked()] - {s.index[KeyOf(spec)]}, nextId := s.nextId + 1)
    && Owns(n.slots, n.live)
  }

  lemma ReplacementRight(s: Sad, n: Sad, spec: Spec, request: Sa)
    requires Valid(s) && Checked(s.local, request) == Done && s.nextId !in s.live
    requires Replaced(s, n, spec, request) && SameKey(spec, request)
    ensures Valid(n) && View(n) == View(s)[KeyOf(spec) := request.Masked()]
  {
    NextIsNew(s);
    OnlyItsKey(s, KeyOf(spec));
    ResolvedWith(s.index, s.live, KeyOf(spec), s.nextId, request.Masked());
    ResolvedWithout(s.index[KeyOf(spec) := s.nextId], s.live[s.nextId := request.Masked()], s.index[KeyOf(spec)]);
    assert LeadsToOwn(s, KeyOf(spec));
    forall k | k in n.index ensures LeadsToOwn(n, k) {
      assert LeadsToOwn(s, k);
    }
    forall id | id in n.live ensures Filed(n, id) {
      if id in s.live { assert Filed(s, id); }
    }
  }

  lemma ReplacementWrong(s: Sad, n: Sad, spec: Spec, request: Sa)
    requires Valid(s) && s.nextId !in s.live && Replaced(s, n, spec, request) && !SameKey(spec, request)
    ensures !Valid(n)
  {
    var key := BuildKey(LookupSpi(spec), request.src, request.dst);
    assert LeadsToOwn(s, KeyOf(spec));
    if key == KeyOf(spec) {
      assert !LeadsToOwn(n, key);
    } else {
      assert !LeadsToOwn(n, KeyOf(spec));
    }
  }

  /** The requests that reach the database always have the key of their predecessor. */
  lemma RenewedSameKey(spec: Spec, newSpi: uint32, algo: nat, secret: seq<uint8>, window: uint32, esn: bool)
    ensures SameKey(spec, Renewed(spec, newSpi, algo, secret, window, esn)) <==>
            spec.dir == Egress || newSpi == spec.spi
  {
  }

  /** In st, key stands for sa and every other key for what it stood for in s; no key leads to a
      freed association, and old' is not freed while a key or a slot leads to it. */
  ghost predicate Between(s: Sad, st: Sad, key: Key, sa: Sa, old': nat) {
    && View(st) == View(s)[key := sa]
    && (forall k :: k in st.index ==> st.index[k] in st.live)
    && (Some(old') in st.slots ==> old' in st.live)
  }

  lemma BeforeFiling(s: Sad, key: Key, request: Sa)
    requires NoneDangling(s) && key in s.index
    ensures Between(s, s, key, s.live[s.index[key]], s.index[key])
    ensures Between(s, s.(live := s.live[s.nextId := request], nextId := s.nextId + 1), key, s.live[s.index[key]],
            s.index[key])
  {
    ResolvedWith(s.index, s.live, key, s.nextId, request);
  }

  lemma AfterFiling(s: Sad, key: Key, request: Sa, slots: seq<Option<nat>>)
    requires NoneDangling(s) && key in s.index
    ensures Between(s, s.(live := s.live[s.nextId := request], nextId := s.nextId + 1,
            index := s.index[key := s.nextId], slots := slots),
                    key, request, s.index[key])
  {
    ResolvedWith(s.index, s.live, key, s.nextId, request);
  }

  lemma OldUnreachable(s: Sad, key: Key)
    requires NoneDangling(s) && key in s.index
    requires forall k :: k in s.index && s.index[k] == s.index[key] ==> k == key
    ensures var index := s.index[key := s.nextId];
            forall k :: k in index ==> index[k] != s.index[key] && (index[k] in s.live || index[k] == s.nextId)
  {
  }

  lemma AfterFreeing(s: Sad, key: Key, request: Sa, slots: seq<Option<nat>>)
    requires NoneDangling(s) && key in s.index && Some(s.index[key]) !in slots
    requires forall k :: k in s.index && s.index[k] == s.index[key] ==> k == key
    ensures Between(s, s.(live := s.live[s.nextId := request] - {s.index[key]}, nextId := s.nextId + 1,
            index := s.index[key := s.nextId], slots := slots),
                    key, request, s.index[key])
  {
    var index, live := s.index[key := s.nextId], s.live[s.nextId := request];
    OldUnreachable(s, key);
    ResolvedWith(s.index, s.live, key, s.nextId, request);
    ResolvedWithout(index, live, s.index[key]);
    assert forall k :: k in index ==> index[k] in live - {s.index[key]};
  }

  /** Replacing is gapless: in each state on the way the key resolves to the old association or to
      the new one, no key leads to a freed association, every other key resolves as before, and
      the old association is freed only when neither key nor slot leads to it. */
  lemma ReplacingGapless(s: Sad, spec: Spec, request: Sa, i: nat)
    requires Valid(s) && Find(s, spec).Some? && SameKey(spec, request) && i < 5
    ensures IndexOf(s.slots, Find(s, spec)) < |s.slots| && KeyOf(spec) in View(s)
    ensures var st := Replacing(s, spec, request, Find(s, spec).value, IndexOf(s.slots, Find(s, spec)))[i];
            Between(s, st, KeyOf(spec), if i < 2 then View(s)[KeyOf(spec)] else request.Masked(), Find(s, spec).value)
  {
    FindIff(s, spec);
    NextIsNew(s);
    OnlyItsKey(s, KeyOf(spec));
    var key, old', slot := KeyOf(spec), Find(s, spec).value, IndexOf(s.slots, Find(s, spec));
    var new' := s.slots[..][slot := Some(s.nextId)];
    TakeOverSlot(s.slots, s.live, old', s.nextId, request.Masked());
    match i {
      case 0 => BeforeFiling(s, key, request.Masked());
      case 1 => BeforeFiling(s, key, request.Masked());
      case 2 => AfterFiling(s, key, request.Masked(), s.slots);
      case 3 => AfterFiling(s, key, request.Masked(), new');
      case 4 =>
        assert Some(old') in new' ==> old' in Held(new');
        AfterFreeing(s, key, request.Masked(), new');
    }
  }

  lemma OnlyItsKey(s: Sad, key: Key)
    requires Valid(s) && key in s.index
    ensures forall k :: k in s.index && s.index[k] == s.index[key] ==> k == key
  {
    assert LeadsToOwn(s, key);
    forall k | k in s.index && s.index[k] == s.index[key] ensures k == key {
      assert LeadsToOwn(s, k);
    }
  }

  /** After a rekey the old wire SPI names nothing - for get, update or delete - and the new one
      names the replacement. */
  lemma StaleSpiNamesNothing(s: Sad, spec: Spec, newSpi: uint32, algo: nat, secret: seq<uint8>, window: uint32,
                             esn: bool, luck: Luck)
    requires Valid(s)
    ensures var request := Renewed(spec, newSpi, algo, secret, window, esn);
            var (n, st) := Update(s, spec, request, luck);
            st == Done ==>
              && (Find(n, spec).Some? <==> newSpi == spec.spi)
              && Find(n, spec.(spi := newSpi)).Some? && View(n)[KeyOf(spec)] == request.Masked()
  {
    var request := Renewed(spec, newSpi, algo, secret, window, esn);
    var (n, st) := Update(s, spec, request, luck);
    UpdateRight(s, spec, request, luck);
    if st == Done {
      FindIff(n, spec);
      FindIff(n, spec.(spi := newSpi));
    }
  }

  // ---------- what is asked and what is stored ----------

  /** The association has what was asked for, and of the addresses the prefixes. */
  ghost predicate AsAsked(a: Sa, spi: uint32, vni: uint32, dir: Dir, src: Addr, dst: Addr, algo: nat,
                          secret: seq<uint8>, window: uint32, esn: bool)
  {
    && a.spi == spi && a.vni == vni && a.dir == dir
    && a.src.prefix == src.prefix && a.src.suffix == 0 && a.dst.prefix == dst.prefix && a.dst.suffix == 0
    && a.algo == algo && a.secret == secret && a.replayWindow == window && a.esn == esn
  }

  /** An algorithm there is, this host at its own end, and a replay window only where it is used. */
  ghost predicate Supported(local: uint64, sa: Sa) {
    && sa.algo < 2
    && (sa.dir == Egress ==> sa.src.prefix == local && sa.replayWindow == 0)
    && (sa.dir == Ingress ==> sa.dst.prefix == local && sa.replayWindow <= 4096)
  }

  /** Outbound traffic is told apart by VNI, inbound by SPI. */
  ghost predicate Clash(a: Sa, b: Sa) {
    && (if a.dir == Egress then a.vni else a.spi) == (if b.dir == Egress then b.vni else b.spi)
    && a.src.prefix == b.src.prefix && a.dst.prefix == b.dst.prefix
  }

  /** Creating succeeds exactly for what is supported and clashes with nothing there is, while there
      is room and nothing else fails, and stores what was asked for. */
  lemma CreatedAsAsked(s: Sad, sa: Sa, luck: Luck)
    requires Valid(s)
    ensures var (n, st) := Create(s, sa, luck);
            && (st == Done <==> s.enabled && Supported(s.local, sa) && |s.live| < 64 && luck.All()
                                && forall id :: id in s.live ==> !Clash(s.live[id], sa))
            && (st == Done ==> KeyOf(sa.Name()) in View(n)
                               && AsAsked(View(n)[KeyOf(sa.Name())], sa.spi, sa.vni, sa.dir, sa.src, sa.dst, sa.algo,
                                          sa.secret, sa.replayWindow, sa.esn))
  {
    CreateRight(s, sa, luck);
    var key := KeyOf(sa.Name());
    if key in s.index {
      assert LeadsToOwn(s, key);
      assert Clash(s.live[s.index[key]], sa);
    }
    if id :| id in s.live && Clash(s.live[id], sa) {
      assert Filed(s, id);
      assert FileKey(s.live[id]) == key;
    }
  }

  /** What a refusal says of the request: the status names what is wrong with it, if anything is, and
      else what there is no room or no luck for. */
  ghost predicate Explains(s: Sad, sa: Sa, st: Status) {
    && (st == Disabled <==> !s.enabled)
    && (st == BadAlgo ==> sa.algo >= 2)
    && (st == BadAddr ==> (if sa.dir == Egress then sa.src else sa.dst).prefix != s.local)
    && (st == BadWindow ==> if sa.dir == Egress then sa.replayWindow != 0 else sa.replayWindow > 4096)
    && (st in {Exists, LimitReached, NoMemory, CannotCreate, NotFound, Done} ==> Supported(s.local, sa))
  }

  lemma CreateStatus(s: Sad, sa: Sa, luck: Luck)
    ensures var st := Create(s, sa, luck).1;
            && Explains(s, sa, st) && st != NotFound && st != BadDirection
            && (st == Exists ==> KeyOf(sa.Name()) in s.index)
            && (st == LimitReached ==> IndexOf(s.slots, None) == |s.slots|)
            && (st == NoMemory ==> !luck.memory)
            && (st == CannotCreate ==>
                  IndexOf(s.slots, None) < |s.slots|
                  && (|s.live| >= 64 || !luck.session || !luck.framing || !luck.filing))
  {
    hide IndexOf;
  }

  lemma CreateExplained(s: Sad, sa: Sa, luck: Luck)
    requires Valid(s)
    ensures var st := Create(s, sa, luck).1;
            && Explains(s, sa, st) && st != NotFound && st != BadDirection
            && (st == Exists ==> exists id :: id in s.live && Clash(s.live[id], sa))
            && (st == LimitReached ==> |s.live| == 64)
            && (st == NoMemory ==> !luck.memory)
            && (st == CannotCreate ==> !luck.session || !luck.framing || !luck.filing)
  {
    hide Create;
    hide IndexOf;
    CreateStatus(s, sa, luck);
    FreeSlotIff(s);
    if KeyOf(sa.Name()) in s.index {
      assert LeadsToOwn(s, KeyOf(sa.Name()));
      assert s.index[KeyOf(sa.Name())] in s.live && Clash(s.live[s.index[KeyOf(sa.Name())]], sa);
    }
  }

  lemma UpdateStatus(s: Sad, spec: Spec, sa: Sa, luck: Luck)
    requires spec.dir == Egress
    ensures var st := Update(s, spec, sa, luck).1;
            && Explains(s, sa, st) && st != Exists && st != LimitReached && st != BadDirection
            && (st == NotFound ==> Find(s, spec).None? || IndexOf(s.slots, Find(s, spec)) == |s.slots|)
            && (st == NoMemory ==> !luck.memory)
            && (st == CannotCreate ==> |s.live| >= 64 || !luck.session || !luck.framing || !luck.filing)
  {
    hide IndexOf;
    hide Replacing;
  }

  /** The same for replacing, of which direction and name are checked too. */
  lemma UpdateExplained(s: Sad, spec: Spec, sa: Sa, luck: Luck)
    requires Valid(s) && spec.dir == Egress
    ensures var st := Update(s, spec, sa, luck).1;
            && Explains(s, sa, st) && st != Exists && st != LimitReached && st != BadDirection
            && (st == NotFound ==> Find(s, spec).None?)
            && (st == NoMemory ==> !luck.memory)
            && (st == CannotCreate ==> |s.live| == 64 || !luck.session || !luck.framing || !luck.filing)
  {
    hide Update;
    hide IndexOf;
    UpdateStatus(s, spec, sa, luck);
    Capacity(s);
    if Find(s, spec).Some? {
      OwnedSlot(s, Find(s, spec).value);
    }
  }

  lemma OwnedSlot(s: Sad, id: nat)
    requires Valid(s) && id in s.live
    ensures IndexOf(s.slots, Some(id)) < |s.slots|
  {
    assert id in Held(s.slots);
  }

  /** A rekey leaves under the key what was asked for, with the new SPI. */
  lemma RekeyedAsAsked(s: Sad, spec: Spec, newSpi: uint32, algo: nat, secret: seq<uint8>, window: uint32, esn: bool,
                       luck: Luck)
    requires Valid(s)
    ensures var (n, st) := Update(s, spec, Renewed(spec, newSpi, algo, secret, window, esn), luck);
            st == Done ==>
              && Valid(n) && KeyOf(spec) in View(n)
              && AsAsked(View(n)[KeyOf(spec)], newSpi, spec.vni, Egress, spec.src, spec.dst, algo, secret, window, esn)
              && Supported(s.local, View(n)[KeyOf(spec)])
  {
    UpdateRight(s, spec, Renewed(spec, newSpi, algo, secret, window, esn), luck);
  }

  // ---------- directions ----------

  /** A key whose destination is not local finds outbound associations only, one whose source is
      not local inbound ones only, and one with neither finds nothing. */
  lemma KeyFixesDirection(s: Sad, key: Key)
    requires Valid(s) && key in s.index
    ensures LeadsToOwn(s, key)
    ensures var sa := s.live[s.index[key]];
            && (key.dst.prefix != s.local ==> sa.dir == Egress && sa.vni == key.spi)
            && (key.src.prefix != s.local ==> sa.dir == Ingress && sa.spi == key.spi)
            && (key.dst.prefix == s.local || key.src.prefix == s.local)
  {
    assert LeadsToOwn(s, key);
    assert Filed(s, s.index[key]);
  }

  function Fresh(local: uint64): Sad { Sad(true, local, map[], seq(MAX_SA, _ => None), map[], 0) }

  lemma FreshValid(local: uint64)
    ensures Valid(Fresh(local)) && View(Fresh(local)) == map[]
  {
    assert Held(Fresh(local).slots) == {};
  }

  /** With both prefixes local the direction is not fixed: for every such key either kind of
      association can be created under it. */
  lemma LocalKeyFitsBoth(local: uint64, spi: uint32, dir: Dir)
    ensures var a := Addr(local, 0);
            var request := Sa(spi, spi, dir, a, a, 0, [], 0, false);
            var (n, st) := Create(Fresh(local), request, Luck(true, true, true, true));
            st == Done && Valid(n) && View(n) == map[Key(spi, a, a) := request]
  {
    FreshValid(local);
    var a := Addr(local, 0);
    CreateRight(Fresh(local), Sa(spi, spi, dir, a, a, 0, [], 0, false), Luck(true, true, true, true));
  }

  // ---------- runs of requests ----------

  datatype Request =
    | CreateSa(sa: Sa, luck: Luck)
    | UpdateSa(spec: Spec, newSpi: uint32, algo: nat, secret: seq<uint8>, window: uint32, esn: bool, luck: Luck)
    | DeleteSa(spec: Spec)

  function Serve(s: Sad, r: Request): (Sad, Status) {
    match r
    case CreateSa(sa, luck) => Create(s, sa, luck)
    case UpdateSa(spec, newSpi, algo, secret, window, esn, luck) =>
        Update(s, spec, Renewed(spec, newSpi, algo, secret, window, esn), luck)
    case DeleteSa(spec) => Delete(s, spec)
  }

  /** The database as a plain map from keys to associations. */
  function Applied(m: map<Key, Sa>, r: Request): map<Key, Sa> {
    match r
    case CreateSa(sa, _) => m[KeyOf(sa.Name()) := sa.Masked()]
    case UpdateSa(spec, newSpi, algo, secret, window, esn, _) =>
        m[KeyOf(spec) := Renewed(spec, newSpi, algo, secret, window, esn).Masked()]
    case DeleteSa(spec) => m - {KeyOf(spec)}
  }

  lemma SameHost(s: Sad, r: Request)
    ensures Serve(s, r).0.local == s.local && Serve(s, r).0.enabled == s.enabled
  {
  }

  /** A request that is refused changes nothing; one that succeeds does to the database what it
      does to the plain map. */
  lemma ServeRefines(s: Sad, r: Request)
    requires Valid(s)
    ensures var (n, st) := Serve(s, r);
            && Valid(n)
            && View(n) == (if st == Done then Applied(View(s), r) else View(s))
            && (st != Done ==> n == s)
  {
    match r {
      case CreateSa(sa, luck) => CreateRight(s, sa, luck);
      case UpdateSa(spec, newSpi, algo, secret, window, esn, luck) =>
        UpdateRight(s, spec, Renewed(spec, newSpi, algo, secret, window, esn), luck);
      case DeleteSa(spec) => DeleteRight(s, spec);
    }
  }

  function ServeAll(s: Sad, rs: seq<Request>): Sad {
    if rs == [] then s else Serve(ServeAll(s, rs[..|rs| - 1]), rs[|rs| - 1]).0
  }

  /** The successful requests of a run, applied to a plain map. */
  function AppliedAll(s: Sad, rs: seq<Request>): map<Key, Sa> {
    if rs == [] then map[] else
    var init, last := rs[..|rs| - 1], rs[|rs| - 1];
    if Serve(ServeAll(s, init), last).1 == Done then Applied(AppliedAll(s, init), last) else AppliedAll(s, init)
  }

  /** After any run of requests the database is valid, holds at most sixty-four associations, and
      is what its successful requests make of a plain map. */
  lemma {:induction false} RunRefines(local: uint64, rs: seq<Request>)
    ensures var s := ServeAll(Fresh(local), rs);
            Valid(s) && s.local == local && |s.index| == |s.live| <= MAX_SA && View(s) == AppliedAll(Fresh(local), rs)
  {
    if rs == [] {
      FreshValid(local);
    } else {
      RunRefines(local, rs[..|rs| - 1]);
      ServeRefines(ServeAll(Fresh(local), rs[..|rs| - 1]), rs[|rs| - 1]);
      SameHost(ServeAll(Fresh(local), rs[..|rs| - 1]), rs[|rs| - 1]);
    }
    Capacity(ServeAll(Fresh(local), rs));
  }

  /** Whatever has been asked of the database, it holds nothing that is not supported. */
  lemma AlwaysSupported(local: uint64, rs: seq<Request>, id: nat)
    requires id in ServeAll(Fresh(local), rs).live
    ensures Supported(local, ServeAll(Fresh(local), rs).live[id])
  {
    RunRefines(local, rs);
    assert Filed(ServeAll(Fresh(local), rs), id);
  }

  // ---------- a full database ----------

  const ALL_LUCK: Luck := Luck(true, true, true, true)

  /** An egress association for VNI i towards another host. */
  function PeerSa(local: uint64, i: uint32): Sa { Sa(i, i, Egress, Addr(local, 0), Addr(1, 0), 0, [], 0, false) }

  function Filling(local: uint64, n: nat): seq<Request>
    requires n <= MAX_SA
  {
    if n == 0 then [] else Filling(local, n - 1) + [CreateSa(PeerSa(local, n - 1), ALL_LUCK)]
  }

  ghost function FillView(local: uint64, n: nat): map<Key, Sa>
    requires n <= MAX_SA
  {
    if n == 0 then map[] else FillView(local, n - 1)[KeyOf(PeerSa(local, n - 1).Name()) := PeerSa(local, n - 1)]
  }

  lemma {:induction false} FillViewKeys(local: uint64, n: nat)
    requires n <= MAX_SA
    ensures |FillView(local, n)| == n && forall k :: k in FillView(local, n) ==> k.spi < n
  {
    if n > 0 { FillViewKeys(local, n - 1); }
  }

  lemma ViewHasAllKeys(s: Sad)
    requires forall k :: k in s.index ==> LeadsToOwn(s, k)
    ensures View(s).Keys == s.index.Keys
  {
    forall k | k in s.index ensures k in View(s) { assert LeadsToOwn(s, k); }
  }

  lemma IndexIsView(s: Sad)
    requires Valid(s)
    ensures s.index.Keys == View(s).Keys && |s.live| == |View(s)|
  {
    ViewHasAllKeys(s);
    Capacity(s);
    assert |s.index| == |s.index.Keys| == |View(s).Keys| == |View(s)|;
  }

  ghost predicate Filled(s: Sad, local: uint64, n: nat)
    requires n <= MAX_SA
  {
    s.enabled && s.local == local && View(s) == FillView(local, n)
  }

  lemma FillOne(s: Sad, local: uint64, n: nat)
    requires n < MAX_SA && Valid(s) && Filled(s, local, n)
    ensures Filled(Create(s, PeerSa(local, n), ALL_LUCK).0, local, n + 1)
  {
    var sa := PeerSa(local, n);
    FillViewKeys(local, n);
    IndexIsView(s);
    assert KeyOf(sa.Name()) !in s.index.Keys;
    CreateRight(s, sa, ALL_LUCK);
    SameHost(s, CreateSa(sa, ALL_LUCK));
  }

  ghost function FilledSad(local: uint64, n: nat): Sad
    requires n <= MAX_SA
  {
    if n == 0 then Fresh(local) else Create(FilledSad(local, n - 1), PeerSa(local, n - 1), ALL_LUCK).0
  }

  lemma {:induction false} FillingServes(local: uint64, n: nat)
    requires n <= MAX_SA
    ensures ServeAll(Fresh(local), Filling(local, n)) == FilledSad(local, n)
  {
    if n > 0 {
      FillingServes(local, n - 1);
      assert Filling(local, n)[..|Filling(local, n)| - 1] == Filling(local, n - 1);
    }
  }

  lemma {:induction false} FillUp(local: uint64, n: nat)
    requires n <= MAX_SA
    ensures Filled(FilledSad(local, n), local, n)
  {
    if n == 0 {
      FillNone(local);
    } else {
      FillUp(local, n - 1);
      FillOneMore(local, n - 1);
    }
  }

  lemma FillNone(local: uint64)
    ensures Filled(FilledSad(local, 0), local, 0)
  {
    FreshValid(local);
  }

  lemma FillOneMore(local: uint64, n: nat)
    requires n < MAX_SA && Filled(FilledSad(local, n), local, n)
    ensures Filled(FilledSad(local, n + 1), local, n + 1)
  {
    FillingServes(local, n);
    RunRefines(local, Filling(local, n));
    FillOne(FilledSad(local, n), local, n);
  }

  lemma {:induction false} FillViewHas(local: uint64, n: nat)
    requires 0 < n <= MAX_SA
    ensures KeyOf(PeerSa(local, 0).Name()) in FillView(local, n)
    ensures FillView(local, n)[KeyOf(PeerSa(local, 0).Name())] == PeerSa(local, 0)
  {
    if n > 1 { FillViewHas(local, n - 1); }
  }

  /** After sixty-four creations the database refuses to rekey an association it has: a request in
      order, and no foreign call that would fail. */
  lemma FullDatabaseRefuses(local: uint64, newSpi: uint32)
    ensures var s, spec := ServeAll(Fresh(local), Filling(local, MAX_SA)), PeerSa(local, 0).Name();
            var request := Renewed(spec, newSpi, 0, [], 0, false);
            && Find(s, spec).Some? && Checked(s.local, request) == Done
            && Serve(s, UpdateSa(spec, newSpi, 0, [], 0, false, ALL_LUCK)) == (s, CannotCreate)
  {
    FillUp(local, MAX_SA);
    FillingServes(local, MAX_SA);
    RunRefines(local, Filling(local, MAX_SA));
    FillViewHas(local, MAX_SA);
    FillViewKeys(local, MAX_SA);
    var s, spec := ServeAll(Fresh(local), Filling(local, MAX_SA)), PeerSa(local, 0).Name();
    FindIff(s, spec);
    IndexIsView(s);
    FullRefuses(s, spec, Renewed(spec, newSpi, 0, [], 0, false));
  }

  lemma FullRefuses(s: Sad, spec: Spec, request: Sa)
    requires Valid(s) && |s.live| == MAX_SA && s.enabled && spec.dir == Egress && Find(s, spec).Some?
    requires Checked(s.local, request) == Done
    ensures Update(s, spec, request, ALL_LUCK) == (s, CannotCreate)
  {
    FindIff(s, spec);
    NextIsNew(s);
    TakeOverSlot(s.slots, s.live, Find(s, spec).value, s.nextId, request);
  }
}
