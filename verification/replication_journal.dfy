/**
Asynchronous replication as steps: operations get their sequence number, enter the journal
and leave it in separate critical sections, interleaved with one background pass over a
copy of the journal, which may be cancelled or fail at any point, and with peers coming and
going.
 */
module ReplicationJournal {
  import opened Common

  datatype Operation = Operation(sequenceNumber: nat, volumeId: string, payload: Bytes)

  // `drawn` have a number but are not queued yet; `pass` is what the running pass still
  // has to send; `sending` is the operation in flight, with whether there were no peers when
  // its send began; `sent` was sent successfully and is about to be removed.
  datatype State = State(
    sequence: nat,
    journal: seq<Operation>,
    operationsPending: int,
    peers: set<string>,
    drawn: set<Operation>,
    pass: seq<Operation>,
    sending: Option<(Operation, bool)>,
    sent: Option<Operation>)

  // `accepted` were queued; `delivered` were acknowledged by at least one peer; `unpeered`
  // were let go because there was no peer to send to.
  datatype History = History(accepted: set<Operation>, delivered: set<Operation>, unpeered: set<Operation>)

  datatype Event =
    | Assigned(volumeId: string, payload: Bytes)
    | Queued(op: Operation)
    | PassStarted
    | SendBegan
    | SendEnded(acks: nat)
    | Removed
    | PassAborted
    | PeerAdded(peer: string)
    | PeerRemoved(peer: string)

  function Start(): State { State(0, [], 0, {}, {}, [], None, None) }

  function RemoveFirst(s: seq<Operation>, op: Operation): seq<Operation> {
    if |s| == 0 then [] else if s[0] == op then s[1..] else [s[0]] + RemoveFirst(s[1..], op)
  }

  // An operation counts as replicated when a peer acknowledged it, or there was no peer
  // when the send began or when it ended.
  predicate Replicated(acks: nat, noPeersAtStart: bool, peers: set<string>) {
    acks > 0 || noPeersAtStart || peers == {}
  }

  ghost predicate Step(s: State, e: Event, t: State) {
    match e
    case Assigned(v, payload) =>
      t == s.(sequence := s.sequence + 1, drawn := s.drawn + {Operation(s.sequence + 1, v, payload)})
    case Queued(op) =>
      && op in s.drawn
      && t == s.(journal := s.journal + [op], operationsPending := s.operationsPending + 1, drawn := s.drawn - {op})
    case PassStarted => s.pass == [] && s.sending.None? && s.sent.None? && t == s.(pass := s.journal)
    case SendBegan =>
      && s.pass != [] && s.sending.None? && s.sent.None?
      && t == s.(pass := s.pass[1..], sending := Some((s.pass[0], s.peers == {})))
    case SendEnded(acks) =>
      && s.sending.Some? && (s.sending.value.1 ==> acks == 0)
      && var (op, unpeered) := s.sending.value;
         t == s.(sending := None, sent := if Replicated(acks, unpeered, s.peers) then Some(op) else None)
    case Removed =>
      && s.sent.Some?
      && t == if s.sent.value in s.journal
              then s.(journal := RemoveFirst(s.journal, s.sent.value), operationsPending := s.operationsPending - 1, sent := None)
              else s.(sent := None)
    case PassAborted => t == s.(pass := [], sending := None, sent := None)
    case PeerAdded(p) => t == s.(peers := s.peers + {p})
    case PeerRemoved(p) => t == s.(peers := s.peers - {p})
  }

  ghost function Record(y: History, s: State, e: Event): History {
    match e
    case Queued(op) => y.(accepted := y.accepted + {op})
    case SendEnded(acks) =>
      if s.sending.None? then y
      else if acks > 0 then y.(delivered := y.delivered + {s.sending.value.0})
      else if s.sending.value.1 || s.peers == {} then y.(unpeered := y.unpeered + {s.sending.value.0})
      else y
    case _ => y
  }

  // ---------------------------------------------------------------- invariant

  ghost predicate Numbered(s: State, y: History) {
    && (forall op | op in s.drawn || op in y.accepted :: 1 <= op.sequenceNumber <= s.sequence)
    && (forall a, b | a in s.drawn + y.accepted && b in s.drawn + y.accepted && a.sequenceNumber == b.sequenceNumber :: a == b)
    && s.drawn !! y.accepted
  }

  ghost predicate NoRepeats(s: seq<Operation>) {
    forall i, j | 0 <= i < j < |s| :: s[i] != s[j]
  }

  // Every accepted operation is in the journal, once, or has reached a peer or met none.
  ghost predicate Kept(s: State, y: History) {
    && NoRepeats(s.journal) && s.operationsPending == |s.journal|
    && (forall op | op in s.journal :: op in y.accepted)
    && (forall op | op in y.accepted :: op in s.journal || op in y.delivered || op in y.unpeered)
    && (s.sent.Some? ==> s.sent.value in y.delivered || s.sent.value in y.unpeered)
  }

  ghost predicate Inv(s: State, y: History) {
    Numbered(s, y) && Kept(s, y)
  }

  // Removing an operation takes out exactly one entry.
  lemma {:induction false} RemoveFirstExact(s: seq<Operation>, op: Operation)
    requires NoRepeats(s)
    ensures var r := RemoveFirst(s, op);
      && NoRepeats(r) && |r| == |s| - (if op in s then 1 else 0)
      && forall x :: x in r <==> x in s && x != op
  {
    if |s| > 0 {
      var rest := s[1..];
      assert s == [s[0]] + rest && NoRepeats(rest);
      RemoveFirstExact(rest, op);
      assert s[0] !in rest;
      if s[0] != op {
        var r := RemoveFirst(rest, op);
        assert forall i | 0 <= i < |r| :: r[i] in r;
      }
    }
  }

  // The others keep their order.
  lemma {:induction false} RemoveAtFirst(s: seq<Operation>, i: nat, op: Operation)
    requires i < |s| && s[i] == op && op !in s[..i]
    ensures RemoveFirst(s, op) == s[..i] + s[i + 1..]
  {
    if i == 0 {
      assert s[..0] + s[1..] == s[1..];
    } else {
      assert s[0] == s[..i][0];
      assert s[1..][..i - 1] == s[..i][1..];
      RemoveAtFirst(s[1..], i - 1, op);
      assert s[..i] + s[i + 1..] == [s[0]] + (s[1..][..i - 1] + s[1..][i..]);
    }
  }

  lemma StepKeeps(s: State, y: History, e: Event, t: State)
    requires Inv(s, y) && Step(s, e, t)
    ensures Inv(t, Record(y, s, e))
  {
    match e
    case Assigned(_, _) =>
    case Queued(op) => assert op !in s.journal;
    case PassStarted =>
    case SendBegan =>
    case SendEnded(_) =>
    case Removed =>
      if s.sent.value in s.journal {
        RemoveFirstExact(s.journal, s.sent.value);
      }
    case PassAborted =>
    case PeerAdded(_) =>
    case PeerRemoved(_) =>
  }

  ghost predicate Run(trace: seq<State>, events: seq<Event>) {
    && |trace| == |events| + 1 && trace[0] == Start()
    && forall i | 0 <= i < |events| :: Step(trace[i], events[i], trace[i + 1])
  }

  ghost function HistoryAt(trace: seq<State>, events: seq<Event>, i: nat): History
    requires i <= |events| < |trace|
  {
    if i == 0 then History({}, {}, {})
    else Record(HistoryAt(trace, events, i - 1), trace[i - 1], events[i - 1])
  }

  lemma {:induction false} RunInvariant(trace: seq<State>, events: seq<Event>, i: nat)
    requires Run(trace, events) && i <= |events|
    ensures Inv(trace[i], HistoryAt(trace, events, i))
  {
    if i > 0 {
      hide Inv; hide Step; hide Record;
      RunInvariant(trace, events, i - 1);
      StepKeeps(trace[i - 1], HistoryAt(trace, events, i - 1), events[i - 1], trace[i]);
    }
  }

  // Under every interleaving: an accepted operation that is not in the journal has reached
  // at least one peer or was sent when there was none, one that is in it is there exactly
  // once, sequence numbers are distinct, and the pending counter is the journal's length.
  lemma RunLosesNothing(trace: seq<State>, events: seq<Event>, i: nat)
    requires Run(trace, events) && i <= |events|
    ensures var s, y := trace[i], HistoryAt(trace, events, i);
      && s.operationsPending == |s.journal|
      && (forall op | op in y.accepted ::
            multiset(s.journal)[op] == 1 || (multiset(s.journal)[op] == 0 && (op in y.delivered || op in y.unpeered)))
      && (forall a, b | a in y.accepted && b in y.accepted && a.sequenceNumber == b.sequenceNumber :: a == b)
      && (forall op | op in s.journal :: op in y.accepted)
  {
    RunInvariant(trace, events, i);
    forall op
      ensures multiset(trace[i].journal)[op] == if op in trace[i].journal then 1 else 0
    {
      OccursOnce(trace[i].journal, op);
    }
  }

  lemma {:induction false} OccursOnce(s: seq<Operation>, op: Operation)
    requires NoRepeats(s)
    ensures multiset(s)[op] == if op in s then 1 else 0
  {
    if |s| > 0 {
      assert s == [s[0]] + s[1..];
      OccursOnce(s[1..], op);
      assert s[0] !in s[1..];
    }
  }

  // ---------------------------------------------------------------- the order of sending

  // What was queued so far, in order, and how many numbers were drawn.
  ghost function QueuedBy(events: seq<Event>): seq<Operation> {
    if |events| == 0 then []
    else
      var e := events[|events| - 1];
      QueuedBy(events[..|events| - 1]) + if e.Queued? then [e.op] else []
  }

  ghost function DrawnBy(events: seq<Event>): nat {
    if |events| == 0 then 0
    else DrawnBy(events[..|events| - 1]) + if events[|events| - 1].Assigned? then 1 else 0
  }

  // Operations of `s` come in the order in which they occur in `all`.
  ghost predicate Follows(s: seq<Operation>, all: seq<Operation>) {
    && (forall op | op in s :: op in all)
    && forall i, j, a, b | 0 <= i < j < |s| && 0 <= a < |all| && 0 <= b < |all| && all[a] == s[i] && all[b] == s[j] :: a < b
  }

  lemma FollowsWithout(s: seq<Operation>, k: nat, r: seq<Operation>, all: seq<Operation>)
    requires k < |s| && r == s[..k] + s[k + 1..] && Follows(s, all)
    ensures Follows(r, all)
  {
    forall op | op in r
      ensures op in all
    {
      assert op in s;
    }
    forall i, j, a, b | 0 <= i < j < |r| && 0 <= a < |all| && 0 <= b < |all| && all[a] == r[i] && all[b] == r[j]
      ensures a < b
    {
      var x, y := if i < k then i else i + 1, if j < k then j else j + 1;
      assert s[x] == r[i] && s[y] == r[j];
    }
  }

  lemma RemovalFollows(s: seq<Operation>, op: Operation, all: seq<Operation>)
    requires NoRepeats(s) && op in s && Follows(s, all)
    ensures Follows(RemoveFirst(s, op), all)
  {
    hide Follows; hide RemoveFirst;
    var k :| 0 <= k < |s| && s[k] == op;
    assert op !in s[..k];
    RemoveAtFirst(s, k, op);
    FollowsWithout(s, k, RemoveFirst(s, op), all);
  }

  lemma FollowsSnoc(s: seq<Operation>, op: Operation, all: seq<Operation>)
    requires Follows(s, all) && op !in all
    ensures Follows(s + [op], all + [op])
  {
  }

  // The journal is in the order of queueing, accepted operations are the queued ones, each
  // queued once, and the numbers count the draws.
  ghost predicate Ordered(s: State, y: History, queued: seq<Operation>, drawn: nat) {
    && Follows(s.journal, queued) && NoRepeats(queued) && s.sequence == drawn
    && forall op :: op in queued <==> op in y.accepted
  }

  lemma StepOrders(s: State, y: History, queued: seq<Operation>, drawn: nat, e: Event, t: State)
    requires Inv(s, y) && Step(s, e, t) && Ordered(s, y, queued, drawn)
    ensures Ordered(t, Record(y, s, e), queued + (if e.Queued? then [e.op] else []), drawn + if e.Assigned? then 1 else 0)
  {
    if e.Queued? {
      assert e.op !in y.accepted;
      FollowsSnoc(s.journal, e.op, queued);
    } else if e.Removed? && s.sent.value in s.journal {
      RemovalFollows(s.journal, s.sent.value, queued);
      assert queued + [] == queued;
    } else {
      assert queued + [] == queued;
    }
  }

  lemma {:induction false} RunOrders(trace: seq<State>, events: seq<Event>, i: nat)
    requires Run(trace, events) && i <= |events|
    ensures Ordered(trace[i], HistoryAt(trace, events, i), QueuedBy(events[..i]), DrawnBy(events[..i]))
  {
    hide Inv; hide Step; hide Record; hide Follows;
    if i > 0 {
      RunOrders(trace, events, i - 1);
      RunInvariant(trace, events, i - 1);
      StepOrders(trace[i - 1], HistoryAt(trace, events, i - 1), QueuedBy(events[..i - 1]), DrawnBy(events[..i - 1]), events[i - 1], trace[i]);
      assert events[..i][..i - 1] == events[..i - 1];
    } else {
      EmptyFollows();
    }
  }

  lemma EmptyFollows()
    ensures Follows([], [])
  {
  }

  // The operations whose send began among events i to j, in order.
  ghost function SentBy(trace: seq<State>, events: seq<Event>, i: nat, j: nat): seq<Operation>
    requires i <= j <= |events| < |trace|
  {
    if i == j then []
    else
      var began := events[j - 1].SendBegan? && trace[j].sending.Some?;
      SentBy(trace, events, i, j - 1) + if began then [trace[j].sending.value.0] else []
  }

  // Events i + 1 to j belong to the pass that event i started.
  ghost predicate WithinPass(events: seq<Event>, i: nat, j: nat) {
    && i < j <= |events| && events[i].PassStarted?
    && forall k | i < k < j :: !events[k].PassStarted? && !events[k].PassAborted?
  }

  // What a step does to the pass.
  lemma PassStep(s: State, e: Event, t: State)
    requires Step(s, e, t)
    ensures e.PassStarted? ==> t.pass == s.journal
    ensures e.SendBegan? ==> s.pass != [] && t.sending.Some? && s.pass == [t.sending.value.0] + t.pass
    ensures !e.PassStarted? && !e.SendBegan? && !e.PassAborted? ==> t.pass == s.pass
  {
  }

  // At every point of a pass: what it has begun to send, in order, and then what it still has
  // to send, is the journal as it was when the pass started.
  lemma {:induction false} PassSendsJournal(trace: seq<State>, events: seq<Event>, i: nat, j: nat)
    requires Run(trace, events) && WithinPass(events, i, j)
    ensures SentBy(trace, events, i + 1, j) + trace[j].pass == trace[i].journal
    decreases j
  {
    hide Step;
    assert Step(trace[j - 1], events[j - 1], trace[j]);
    PassStep(trace[j - 1], events[j - 1], trace[j]);
    if j > i + 1 {
      PassSendsJournal(trace, events, i, j - 1);
      var before := SentBy(trace, events, i + 1, j - 1);
      if events[j - 1].SendBegan? {
        var op := trace[j].sending.value.0;
        assert before + ([op] + trace[j].pass) == (before + [op]) + trace[j].pass;
      } else {
        assert before + [] == before;
      }
    }
  }

  // A pass that has nothing left to send has tried every entry of that journal once, in order.
  lemma PassTriesAll(trace: seq<State>, events: seq<Event>, i: nat, j: nat)
    requires Run(trace, events) && WithinPass(events, i, j) && trace[j].pass == []
    ensures SentBy(trace, events, i + 1, j) == trace[i].journal
  {
    PassSendsJournal(trace, events, i, j);
    assert SentBy(trace, events, i + 1, j) + [] == SentBy(trace, events, i + 1, j);
  }

  // Of two operations that one pass sends, the one queued first is sent first.
  lemma PassKeepsOrder(trace: seq<State>, events: seq<Event>, i: nat, j: nat, k: nat, l: nat, a: nat, b: nat)
    requires Run(trace, events) && WithinPass(events, i, j)
    requires var sent, queued := SentBy(trace, events, i + 1, j), QueuedBy(events[..i]);
      k < l < |sent| && a < |queued| && b < |queued| && queued[a] == sent[k] && queued[b] == sent[l]
    ensures a < b
  {
    PassSendsJournal(trace, events, i, j);
    RunOrders(trace, events, i);
    var sent := SentBy(trace, events, i + 1, j);
    assert trace[i].journal[k] == sent[k] && trace[i].journal[l] == sent[l];
  }

  // An operation that a peer acknowledged, or that met no peer, is next to be removed, and
  // then leaves the journal, which loses nothing else.
  lemma AcknowledgedLeaves(s: State, y: History, acks: nat, t: State, u: State)
    requires Inv(s, y) && Step(s, SendEnded(acks), t) && Step(t, Removed, u)
    ensures acks > 0 || s.sending.value.1 || s.peers == {}
    ensures var op := s.sending.value.0;
      op !in u.journal && forall x :: x in u.journal <==> x in s.journal && x != op
  {
    RemoveFirstExact(s.journal, s.sending.value.0);
  }

  lemma AcknowledgedIsSent(s: State, acks: nat, t: State)
    requires Step(s, SendEnded(acks), t)
    ensures t.sent.Some? <==> acks > 0 || s.sending.value.1 || s.peers == {}
    ensures t.sent.Some? ==> t.sent.value == s.sending.value.0
    ensures t.journal == s.journal && t.pass == s.pass
  {
  }

  // ---------------------------------------------------------------- sequence order

  // Two operations drawn one after the other and queued the other way round.
  ghost function Crossed(v: string, x: Bytes): seq<State> {
    var a, b := Operation(1, v, x), Operation(2, v, x);
    var s1 := Start().(sequence := 1, drawn := {} + {a});
    var s2 := s1.(sequence := 2, drawn := s1.drawn + {b});
    var s3 := s2.(journal := [] + [b], operationsPending := 1, drawn := s2.drawn - {b});
    [Start(), s1, s2, s3, s3.(journal := [b] + [a], operationsPending := 2, drawn := s3.drawn - {a})]
  }

  // Numbers are drawn and queued in separate sections, so the journal need not be in
  // sequence order.
  lemma JournalCanBeOutOfOrder(v: string, x: Bytes)
    ensures var events := [Assigned(v, x), Assigned(v, x), Queued(Operation(2, v, x)), Queued(Operation(1, v, x))];
      && Run(Crossed(v, x), events)
      && Crossed(v, x)[4].journal == [Operation(2, v, x), Operation(1, v, x)]
  {
    var s, events := Crossed(v, x), [Assigned(v, x), Assigned(v, x), Queued(Operation(2, v, x)), Queued(Operation(1, v, x))];
    assert Step(s[0], events[0], s[1]);
    assert Step(s[1], events[1], s[2]);
    assert Step(s[2], events[2], s[3]);
    assert Step(s[3], events[3], s[4]);
  }

  ghost predicate InOrder(s: seq<Operation>) {
    forall i, j | 0 <= i < j < |s| :: s[i].sequenceNumber < s[j].sequenceNumber
  }

  // Queueing keeps the journal in sequence order exactly when the operation's number is
  // beyond the last one queued.
  lemma QueueKeepsOrderExactly(s: State, op: Operation, t: State)
    requires Step(s, Queued(op), t) && InOrder(s.journal)
    ensures InOrder(t.journal) <==>
      |s.journal| == 0 || s.journal[|s.journal| - 1].sequenceNumber < op.sequenceNumber
  {
    var n := |s.journal|;
    assert t.journal[n] == op;
    if n > 0 {
      assert t.journal[n - 1] == s.journal[n - 1];
    }
  }

  // ---------------------------------------------------------------- the critical sections

  // The engine with the local state of its callers and of the one background task.
  class ReplicationEngine {
    var sequence: nat
    var journal: seq<Operation>
    var operationsPending: int
    var peers: set<string>
    ghost var drawn: set<Operation>
    var pass: seq<Operation>
    var sending: Option<(Operation, bool)>
    var sent: Option<Operation>

    ghost function Snapshot(): State
      reads this
    {
      State(sequence, journal, operationsPending, peers, drawn, pass, sending, sent)
    }

    constructor ()
      ensures Snapshot() == Start()
    {
      sequence, journal, operationsPending, peers, drawn := 0, [], 0, {}, {};
      pass, sending, sent := [], None, None;
    }

    method AddPeer(peer: string)
      modifies this
      ensures Step(old(Snapshot()), PeerAdded(peer), Snapshot())
    {
      peers := peers + {peer};
    }

    method RemovePeer(peer: string) returns (found: bool)
      modifies this
      ensures found <==> peer in old(peers)
      ensures Step(old(Snapshot()), PeerRemoved(peer), Snapshot())
    {
      found := peer in peers;
      peers := peers - {peer};
    }

    method NextOperation(volumeId: string, payload: Bytes) returns (op: Operation)
      modifies this
      ensures op == Operation(sequence, volumeId, payload) && op in drawn
      ensures Step(old(Snapshot()), Assigned(volumeId, payload), Snapshot())
    {
      sequence := sequence + 1;
      op := Operation(sequence, volumeId, payload);
      drawn := drawn + {op};
    }

    method QueueForAsync(op: Operation)
      requires op in drawn
      modifies this
      ensures Step(old(Snapshot()), Queued(op), Snapshot())
    {
      journal := journal + [op];
      operationsPending := operationsPending + 1;
      drawn := drawn - {op};
    }

    method StartPass()
      requires pass == [] && sending.None? && sent.None?
      modifies this
      ensures Step(old(Snapshot()), PassStarted, Snapshot())
    {
      if journal == [] {
        return;
      }
      pass := journal;
    }

    method BeginSend()
      requires pass != [] && sending.None? && sent.None?
      modifies this
      ensures Step(old(Snapshot()), SendBegan, Snapshot())
    {
      sending := Some((pass[0], peers == {}));
      pass := pass[1..];
    }

    method EndSend(acks: nat) returns (success: bool)
      requires sending.Some? && (sending.value.1 ==> acks == 0)
      modifies this
      ensures Step(old(Snapshot()), SendEnded(acks), Snapshot())
      ensures success <==> sent.Some?
    {
      success := sending.value.1 || acks > 0 || peers == {};
      sent := if success then Some(sending.value.0) else None;
      sending := None;
    }

    // Removal of a replicated operation: nothing happens if it is no longer there.
    method RemoveReplicated()
      requires sent.Some?
      modifies this
      ensures Step(old(Snapshot()), Removed, Snapshot())
    {
      var op := sent.value;
      var i := 0;
      while i < |journal| && journal[i] != op
        invariant i <= |journal| && op !in journal[..i]
      {
        i := i + 1;
      }
      if i < |journal| {
        RemoveAtFirst(journal, i, op);
        journal := journal[..i] + journal[i + 1..];
        operationsPending := operationsPending - 1;
      } else {
        assert journal[..i] == journal;
      }
      sent := None;
    }

    // The background task is cancelled, or its pass raises; the next pass starts afresh.
    method AbortPass()
      modifies this
      ensures Step(old(Snapshot()), PassAborted, Snapshot())
    {
      pass, sending, sent := [], None, None;
    }
  }
}
