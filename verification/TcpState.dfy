/** Connection tracking's view of a TCP connection and the timeout it earns by it. */
module TcpState {

  /** DP_FLOW_TCP_EXTENDED_TIMEOUT, one day in seconds. */
  const EXTENDED_TIMEOUT: nat := 86400

  datatype Dir = Org | Reply

  datatype State = Closed | NewSyn | NewSynAck | Established | FinWait | RstFin

  datatype Packet = Packet(flags: bv8, dir: Dir) {
    predicate Fin() { flags & 0x01 != 0 }
    predicate Rst() { flags & 0x04 != 0 }
    predicate OnlySyn() { flags == 0x02 }
    predicate OnlyAck() { flags == 0x10 }
    predicate OnlySynAck() { flags == 0x12 }

    /** A packet that ends or aborts something. */
    predicate Ends() { Rst() || Fin() }
  }

  datatype Conn = Conn(state: State, firstSyn: Dir) {
    predicate Idle() { state == Closed || state == RstFin }

    /** dp_cntrack_tcp_state */
    function Next(p: Packet): Conn {
      if p.Rst() then this.(state := RstFin)
      else if p.Fin() then this.(state := if state == Established then FinWait else RstFin)
      else match state
        case Closed => if p.OnlySyn() then Conn(NewSyn, p.dir) else this
        case RstFin => if p.OnlySyn() then Conn(NewSyn, p.dir) else this
        case NewSyn => if p.OnlySynAck() && p.dir != firstSyn then this.(state := NewSynAck) else this
        case NewSynAck => if p.OnlyAck() && p.dir == firstSyn then this.(state := Established) else this
        case Established => this
        case FinWait => this
    }
  }

  /** The connection after a whole trace, from the zeroed state a new flow starts in. */
  function After(trace: seq<Packet>): Conn {
    if trace == [] then Conn(Closed, Org) else After(trace[..|trace| - 1]).Next(trace[|trace| - 1])
  }

  lemma AfterStep(trace: seq<Packet>, n: nat)
    requires n < |trace|
    ensures After(trace[..n + 1]) == After(trace[..n]).Next(trace[n])
  {
    assert trace[..n + 1][..n] == trace[..n];
  }

  // ---------- the messages of a connection, in a trace ----------

  ghost predicate Answers(trace: seq<Packet>, i: nat, j: nat) {
    i < j < |trace| && trace[j].OnlySynAck() && trace[j].dir != trace[i].dir
  }

  ghost predicate Confirms(trace: seq<Packet>, i: nat, j: nat, k: nat) {
    i < j < k < |trace| && trace[k].OnlyAck() && trace[k].dir == trace[i].dir
  }

  ghost predicate Answered(trace: seq<Packet>, o: nat, m: nat) { exists j: nat :: Answers(trace, o, j) && j < m }

  /** The handshake begun at o is complete before m. */
  ghost predicate Completed(trace: seq<Packet>, o: nat, m: nat) {
    exists j: nat, k: nat :: Answers(trace, o, j) && Confirms(trace, o, j, k) && k < m
  }

  ghost predicate EndsBetween(trace: seq<Packet>, o: nat, m: nat)
    requires m <= |trace|
  {
    exists e :: o < e < m && trace[e].Ends()
  }

  /** Packet m closes what was opened at o: it resets, or it ends before the handshake is complete,
      or it is not the first to end. */
  ghost predicate Closes(trace: seq<Packet>, o: nat, m: nat) {
    o < m < |trace| && trace[m].Ends() && (trace[m].Rst() || !Completed(trace, o, m) || EndsBetween(trace, o, m))
  }

  ghost predicate ClosedBy(trace: seq<Packet>, o: nat, n: nat) { exists m: nat :: m < n && Closes(trace, o, m) }

  /** Nothing is open before packet n: every pure SYN that came when nothing was open has since been
      closed. This is about the packets alone. */
  ghost predicate IdleAt(trace: seq<Packet>, n: nat)
    requires n <= |trace|
    decreases n
  {
    forall o: nat :: o < n && trace[o].OnlySyn() && IdleAt(trace, o) ==> ClosedBy(trace, o, n)
  }

  /** The same of the machine. */
  ghost predicate Begins(trace: seq<Packet>, o: nat) { o < |trace| && trace[o].OnlySyn() && After(trace[..o]).Idle() }

  /** Where the machine is after what was begun at o has not been closed before n. */
  lemma {:induction false} Follow(trace: seq<Packet>, o: nat, n: nat)
    requires Begins(trace, o) && o < n <= |trace| && !ClosedBy(trace, o, n)
    ensures var c := After(trace[..n]);
            && c.firstSyn == trace[o].dir
            && (EndsBetween(trace, o, n) ==> c.state == FinWait)
            && (!EndsBetween(trace, o, n) ==> c.state in {NewSyn, NewSynAck, Established})
            && (!EndsBetween(trace, o, n) ==> (c.state == Established <==> Completed(trace, o, n)))
            && (!EndsBetween(trace, o, n) ==> (c.state == NewSyn <==> !Answered(trace, o, n)))
    decreases n
  {
    AfterStep(trace, n - 1);
    if n > o + 1 {
      assert ClosedBy(trace, o, n - 1) ==> ClosedBy(trace, o, n);
      Follow(trace, o, n - 1);
      FollowOne(trace, o, n - 1);
    }
  }

  lemma FollowOne(trace: seq<Packet>, o: nat, n: nat)
    requires o < n < |trace| && !ClosedBy(trace, o, n + 1)
    ensures EndsBetween(trace, o, n + 1) <==> EndsBetween(trace, o, n) || trace[n].Ends()
    ensures Completed(trace, o, n) ==> Completed(trace, o, n + 1)
    ensures Completed(trace, o, n + 1) && !Completed(trace, o, n) ==>
              trace[n].OnlyAck() && trace[n].dir == trace[o].dir && Answered(trace, o, n)
    ensures trace[n].OnlyAck() && trace[n].dir == trace[o].dir && Answered(trace, o, n) ==>
              Completed(trace, o, n + 1)
    ensures trace[n].Ends() ==> !trace[n].Rst() && Completed(trace, o, n) && !EndsBetween(trace, o, n)
    ensures Answered(trace, o, n + 1) <==>
              Answered(trace, o, n) || (trace[n].OnlySynAck() && trace[n].dir != trace[o].dir)
  {
    assert !Closes(trace, o, n);
    if EndsBetween(trace, o, n) {
      var e :| o < e < n && trace[e].Ends();
      assert o < e < n + 1 && trace[e].Ends();
    }
    if trace[n].OnlyAck() && trace[n].dir == trace[o].dir && Answered(trace, o, n) {
      var j: nat :| Answers(trace, o, j) && j < n;
      assert Confirms(trace, o, j, n);
    }
    if trace[n].OnlySynAck() && trace[n].dir != trace[o].dir {
      assert Answers(trace, o, n);
    }
  }

  lemma ClosingIdles(trace: seq<Packet>, o: nat, m: nat)
    requires Begins(trace, o) && Closes(trace, o, m) && !ClosedBy(trace, o, m)
    ensures After(trace[..m + 1]).Idle()
  {
    AfterStep(trace, m);
    Follow(trace, o, m);
  }

  /** When the machine is busy, something was begun and not closed. */
  lemma {:induction false} Origin(trace: seq<Packet>, n: nat) returns (o: nat)
    requires n <= |trace| && !After(trace[..n]).Idle()
    ensures o < n && Begins(trace, o) && !ClosedBy(trace, o, n)
    decreases n
  {
    AfterStep(trace, n - 1);
    if After(trace[..n - 1]).Idle() {
      o := n - 1;
    } else {
      o := Origin(trace, n - 1);
      if Closes(trace, o, n - 1) { ClosingIdles(trace, o, n - 1); }
    }
  }

  /** The machine is idle exactly when the packets say so. */
  lemma {:induction false} IdleIff(trace: seq<Packet>, n: nat)
    requires n <= |trace|
    ensures After(trace[..n]).Idle() <==> IdleAt(trace, n)
    decreases n
  {
    forall o: nat | o < n ensures After(trace[..o]).Idle() <==> IdleAt(trace, o) {
      IdleIff(trace, o);
    }
    if After(trace[..n]).Idle() {
      forall o: nat | o < n && trace[o].OnlySyn() && IdleAt(trace, o) ensures ClosedBy(trace, o, n) {
        if !ClosedBy(trace, o, n) { Follow(trace, o, n); }
      }
    } else {
      var o := Origin(trace, n);
      assert trace[o].OnlySyn() && IdleAt(trace, o);
    }
  }

  /** A pure SYN that comes when nothing is open, with no ending packet since. */
  ghost predicate Opens(trace: seq<Packet>, i: nat) {
    && i < |trace|
    && IdleAt(trace, i) && trace[i].OnlySyn()
    && forall m :: i < m < |trace| ==> !trace[m].Ends()
  }

  /** A complete handshake with nothing ending it since: a pure SYN when nothing is open, a later
      pure SYN-ACK from the other side, a later pure ACK from the first. */
  ghost predicate Handshake(trace: seq<Packet>, i: nat, j: nat, k: nat) {
    Opens(trace, i) && Answers(trace, i, j) && Confirms(trace, i, j, k)
  }

  lemma StillOpens(trace: seq<Packet>, n: nat, i: nat)
    requires n + 1 == |trace| && Opens(trace[..n], i) && !trace[n].Ends()
    ensures Opens(trace, i)
  {
    assert trace[..n][..i] == trace[..i];
    IdleIff(trace[..n], i);
    IdleIff(trace, i);
  }

  /** The state always has a reason in the trace. */
  lemma {:induction false} Reason(trace: seq<Packet>) returns (i: nat, j: nat, k: nat)
    ensures var c := After(trace);
            && (c.state in {NewSyn, NewSynAck, Established} ==> Opens(trace, i) && c.firstSyn == trace[i].dir)
            && (c.state in {NewSynAck, Established} ==> Answers(trace, i, j))
            && (c.state == Established ==> Confirms(trace, i, j, k))
  {
    i, j, k := 0, 0, 0;
    if trace != [] {
      var n := |trace| - 1;
      var init, p := trace[..n], trace[n];
      i, j, k := Reason(init);
      var before, now := After(init), After(trace);
      assert forall m :: 0 <= m < n ==> init[m] == trace[m];
      if Opens(init, i) && !p.Ends() { StillOpens(trace, n, i); }
      IdleIff(trace, n);
      if before.Idle() && now.state == NewSyn {
        i := n;
      } else if before.state == NewSyn && now.state == NewSynAck {
        j := n;
      } else if before.state == NewSynAck && now.state == Established {
        k := n;
      }
    }
  }

  /** Once opened and not ended, a connection only moves forward. */
  lemma {:induction false} Progress(trace: seq<Packet>, i: nat, j: nat, k: nat, n: nat)
    requires Handshake(trace, i, j, k) && i < n <= |trace|
    ensures var c := After(trace[..n]);
            && c.firstSyn == trace[i].dir
            && c.state in {NewSyn, NewSynAck, Established}
            && (j < n ==> c.state != NewSyn)
            && (k < n ==> c.state == Established)
    decreases n
  {
    AfterStep(trace, n - 1);
    IdleIff(trace, i);
    if n > i + 1 {
      Progress(trace, i, j, k, n - 1);
    }
  }

  /** For every packet trace: a flow is established exactly when the trace holds a complete
      handshake that nothing has ended since. */
  lemma EstablishedIff(trace: seq<Packet>)
    ensures After(trace).state == Established <==> exists i, j, k :: Handshake(trace, i, j, k)
  {
    var i, j, k := Reason(trace);
    if After(trace).state == Established {
      assert Handshake(trace, i, j, k);
    }
    if i, j, k :| Handshake(trace, i, j, k) {
      Progress(trace, i, j, k, |trace|);
      assert trace[..|trace|] == trace;
    }
  }

  /** The fields of a flow that this touches. */
  class TcpFlow {
    var state: State
    var firstSyn: Dir
    var timeout: nat
    ghost var seen: seq<Packet>

    ghost predicate Valid()
      reads this
    {
      Conn(state, firstSyn) == After(seen)
    }

    constructor (flowTimeout: nat)
      ensures Valid() && seen == [] && timeout == flowTimeout
    {
      state, firstSyn, timeout := Closed, Org, flowTimeout;
      seen := [];
    }

    /** One tracked TCP packet: dp_cntrack_tcp_state and then dp_cntrack_set_timeout_tcp_flow. */
    method Handle(p: Packet, flowTimeout: nat)
      requires Valid()
      modifies this
      ensures Valid() && seen == old(seen) + [p]
      ensures timeout == if exists i, j, k :: Handshake(seen, i, j, k) then EXTENDED_TIMEOUT else flowTimeout
    {
      if p.Rst() {
        state := RstFin;
      } else if p.Fin() {
        if state == Established {
          state := FinWait;
        } else {
          state := RstFin;
        }
      } else {
        match state {
          case Closed | RstFin =>
            if p.OnlySyn() {
              state, firstSyn := NewSyn, p.dir;
            }
          case NewSyn =>
            if p.OnlySynAck() && p.dir != firstSyn {
              state := NewSynAck;
            }
          case NewSynAck =>
            if p.OnlyAck() && p.dir == firstSyn {
              state := Established;
            }
          case _ =>
        }
      }
      timeout := if state == Established then EXTENDED_TIMEOUT else flowTimeout;
      seen := seen + [p];
      assert seen[..|seen| - 1] == old(seen);
      EstablishedIff(seen);
    }
  }
}
