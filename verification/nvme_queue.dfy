/**
The NVMe completion queue with phase tags: the host side of the driver and, as environment
steps, a controller that tags each lap with its phase (section 4.6 of the NVM Express Base
Specification 1.4) and never fills the queue past the last doorbell value it was given
(sections 4.1.1 and 4.1.2).
 */
module NvmeQueue {
  import opened Common

  // ---------------------------------------------------------------- positions and laps

  // The slot of the k-th entry: one further each time, back to 0 after the last.
  function SlotOf(k: nat, size: nat): (slot: nat)
    requires size > 0
    ensures slot < size
  {
    if k == 0 then 0
    else if SlotOf(k - 1, size) + 1 == size then 0 else SlotOf(k - 1, size) + 1
  }

  // The phase tag of the lap the k-th entry falls in: 1 on the first lap, then alternating.
  function LapPhase(k: nat, size: nat): bool
    requires size > 0
  {
    if k == 0 then true
    else if SlotOf(k, size) == 0 then !LapPhase(k - 1, size) else LapPhase(k - 1, size)
  }

  // Up to one lap further on: the slot moves along and wraps once, and so does the phase.
  lemma {:induction false} Ahead(k: nat, j: nat, size: nat)
    requires size > 0 && j <= size
    ensures var i := SlotOf(k, size) + j;
      && SlotOf(k + j, size) == (if i < size then i else i - size)
      && LapPhase(k + j, size) == (if i < size then LapPhase(k, size) else !LapPhase(k, size))
  {
    if j > 0 {
      Ahead(k, j - 1, size);
    }
  }

  // ---------------------------------------------------------------- state

  datatype Completion = Completion(cid: nat, status: nat)

  datatype Slot = Slot(entry: Completion, phase: bool)

  // The driver's queue.  `pending` maps a command id to the number of the submission whose
  // callback is stored under it.
  datatype Host = Host(
    size: nat,
    cq: seq<Slot>,
    head: nat,
    phase: bool,
    doorbell: nat,
    pending: map<nat, nat>,
    nextCid: nat)

  // What has happened so far: `log` and `tags` are the completions posted and the
  // submissions they complete, `consumed` how many the host has taken, `acked` how many it
  // has acknowledged by doorbell, `cids` the command id of each submission, `inflight` the
  // submissions the controller has not completed, `fired` the callbacks run, and `handed`
  // the completions they were given.
  datatype History = History(
    log: seq<Completion>,
    tags: seq<nat>,
    consumed: nat,
    acked: nat,
    cids: seq<nat>,
    inflight: set<nat>,
    fired: seq<nat>,
    handed: seq<Completion>)

  datatype Link = Link(host: Host, history: History)

  function Start(size: nat): Link {
    Link(Host(size, seq(size, _ => Slot(Completion(0, 0), false)), 0, true, 0, map[], 0),
         History([], [], 0, 0, [], {}, [], []))
  }

  // ---------------------------------------------------------------- steps

  function Submit(l: Link): Link {
    var h, y := l.host, l.history;
    var cid := h.nextCid;
    Link(h.(pending := h.pending[cid := |y.cids|], nextCid := if cid + 1 >= h.size then 0 else cid + 1),
         y.(cids := y.cids + [cid], inflight := y.inflight + {|y.cids|}))
  }

  // The controller may post while fewer than size - 1 entries await acknowledgement.
  predicate CanPost(l: Link, tag: nat) {
    && tag in l.history.inflight && tag < |l.history.cids|
    && |l.history.log| + 1 < l.history.acked + l.host.size
  }

  function Post(l: Link, tag: nat, status: nat): Link
    requires CanPost(l, tag) && l.host.size > 0 && |l.host.cq| == l.host.size
  {
    var h, y := l.host, l.history;
    var n := |y.log|;
    var entry := Completion(y.cids[tag], status);
    Link(h.(cq := h.cq[SlotOf(n, h.size) := Slot(entry, LapPhase(n, h.size))]),
         y.(log := y.log + [entry], tags := y.tags + [tag], inflight := y.inflight - {tag}))
  }

  predicate HasNext(h: Host)
    requires h.head < |h.cq|
  {
    h.cq[h.head].phase == h.phase
  }

  // The host takes the entry at its head, runs the callback if the id is pending, and moves on.
  function Consume(l: Link): Link
    requires l.host.head < |l.host.cq| && l.host.size > 0
  {
    var h, y := l.host, l.history;
    var cid := h.cq[h.head].entry.cid;
    var head := (h.head + 1) % h.size;
    Link(h.(head := head,
            phase := if head == 0 then !h.phase else h.phase,
            pending := h.pending - {cid}),
         y.(consumed := y.consumed + 1,
            fired := if cid in h.pending then y.fired + [h.pending[cid]] else y.fired,
            handed := if cid in h.pending then y.handed + [h.cq[h.head].entry] else y.handed))
  }

  // The doorbell is skipped at head 0 with phase 1, also after an even number of wraps.
  function RingDoorbell(l: Link): Link {
    if l.host.head != 0 || !l.host.phase then
      Link(l.host.(doorbell := l.host.head), l.history.(acked := l.history.consumed))
    else l
  }

  // ---------------------------------------------------------------- invariant

  // Each of the last `size` entries is in its slot with its lap's tag; slots never written
  // still carry tag 0.
  ghost predicate Ring(l: Link) {
    var h, y := l.host, l.history;
    && h.size > 0 && |h.cq| == h.size && h.head < h.size
    && h.head == SlotOf(y.consumed, h.size) && h.phase == LapPhase(y.consumed, h.size)
    && y.acked <= y.consumed <= |y.log| < y.acked + h.size
    && (forall k: nat | k < |y.log| < k + h.size + 1 ::
          h.cq[SlotOf(k, h.size)] == Slot(y.log[k], LapPhase(k, h.size)))
    && (forall k: nat | |y.log| <= k < h.size :: !h.cq[k].phase)
    && h.doorbell == SlotOf(y.acked, h.size)
  }

  ghost predicate Outstanding(y: History, tag: nat)
    requires y.consumed <= |y.tags|
  {
    tag in y.inflight || tag in y.tags[y.consumed..]
  }

  // Every entry completes one submission, each a different one, under its id.
  ghost predicate Tagged(y: History) {
    && |y.tags| == |y.log| && y.consumed <= |y.log|
    && (forall k | 0 <= k < |y.tags| :: y.tags[k] < |y.cids| && y.log[k].cid == y.cids[y.tags[k]] && y.tags[k] !in y.inflight)
    && (forall i, j | 0 <= i < j < |y.tags| :: y.tags[i] != y.tags[j])
    && (forall tag | tag in y.inflight :: tag < |y.cids|)
  }

  // The pending table holds exactly the outstanding submissions, each under its own id.
  ghost predicate Tracked(pending: map<nat, nat>, y: History)
    requires Tagged(y)
  {
    && (forall tag: nat | Outstanding(y, tag) :: tag < |y.cids| && y.cids[tag] in pending && pending[y.cids[tag]] == tag)
    && (forall cid | cid in pending :: Outstanding(y, pending[cid]) && y.cids[pending[cid]] == cid)
  }

  // The callbacks run are those of the entries consumed, in order.
  ghost predicate Callbacks(l: Link) {
    && Tagged(l.history)
    && Tracked(l.host.pending, l.history)
    && l.history.fired == l.history.tags[..l.history.consumed]
    && l.history.handed == l.history.log[..l.history.consumed]
  }

  ghost predicate Inv(l: Link) {
    Ring(l) && Callbacks(l)
  }

  lemma StartInv(size: nat)
    requires size > 0
    ensures Inv(Start(size))
  {
  }

  // The phase test is exact: it succeeds if and only if a posted entry has not been
  // consumed, and then the slot holds the oldest such entry.  No stale slot is ever taken.
  lemma PhaseTestIsExact(l: Link)
    requires Ring(l)
    ensures HasNext(l.host) <==> l.history.consumed < |l.history.log|
    ensures HasNext(l.host) ==> l.host.cq[l.host.head].entry == l.history.log[l.history.consumed]
  {
    var h, y := l.host, l.history;
    if y.consumed == |y.log| {
      if y.consumed >= h.size {
        var k := y.consumed - h.size;
        Ahead(k, h.size, h.size);
        assert h.cq[SlotOf(k, h.size)] == Slot(y.log[k], LapPhase(k, h.size));
      } else {
        Ahead(0, y.consumed, h.size);
      }
    }
  }

  lemma PostKeepsRing(l: Link, tag: nat, status: nat)
    requires Ring(l) && CanPost(l, tag)
    ensures Ring(Post(l, tag, status))
  {
    var t := Post(l, tag, status);
    var h, y, n := l.host, l.history, |l.history.log|;
    forall k: nat | k < n + 1 < k + h.size + 1
      ensures t.host.cq[SlotOf(k, h.size)] == Slot(t.history.log[k], LapPhase(k, h.size))
    {
      if k < n {
        Ahead(k, n - k, h.size);
      }
    }
    forall k: nat | n + 1 <= k < h.size
      ensures !t.host.cq[k].phase
    {
      Ahead(0, n, h.size);
    }
  }

  lemma ConsumeKeepsRing(l: Link)
    requires Ring(l) && HasNext(l.host)
    ensures Ring(Consume(l))
  {
    PhaseTestIsExact(l);
    WrapIncrement(l.host.head, l.host.size);
  }

  lemma DoorbellKeeps(l: Link)
    requires Inv(l)
    ensures Inv(RingDoorbell(l))
  {
    var t := RingDoorbell(l);
    assert forall tag: nat :: Outstanding(t.history, tag) <==> Outstanding(l.history, tag);
  }

  // The controller, which sees only the register, can tell how far the host has got: the
  // host is never a whole lap ahead of the last doorbell.
  lemma DoorbellIsUnambiguous(l: Link, n: nat)
    requires Ring(l)
    requires l.history.acked <= n < l.history.acked + l.host.size && SlotOf(n, l.host.size) == l.host.head
    ensures n == l.history.consumed
  {
    var y := l.history;
    Ahead(y.acked, n - y.acked, l.host.size);
    Ahead(y.acked, y.consumed - y.acked, l.host.size);
  }

  // ---------------------------------------------------------------- callbacks

  // Submitting keeps the books as long as the id drawn is not still pending.
  lemma SubmitKeeps(l: Link)
    requires Inv(l) && l.host.nextCid !in l.host.pending
    ensures Inv(Submit(l))
  {
    var t := Submit(l);
    assert Ring(t);
    assert forall tag: nat :: Outstanding(t.history, tag) <==> Outstanding(l.history, tag) || tag == |l.history.cids|;
  }

  // The condition is exact: an id that is still pending has its callback overwritten.
  lemma SubmitKeepsExactly(l: Link)
    requires Inv(l)
    ensures Inv(Submit(l)) <==> l.host.nextCid !in l.host.pending
  {
    if l.host.nextCid !in l.host.pending {
      SubmitKeeps(l);
    } else {
      var tag := l.host.pending[l.host.nextCid];
      assert Outstanding(l.history, tag) && Outstanding(Submit(l).history, tag);
      assert Submit(l).history.cids[tag] == l.host.nextCid;
      assert Submit(l).host.pending[l.host.nextCid] != tag;
    }
  }

  lemma PostKeeps(l: Link, tag: nat, status: nat)
    requires Inv(l) && CanPost(l, tag)
    ensures Inv(Post(l, tag, status))
  {
    PostKeepsRing(l, tag, status);
    PostKeepsCallbacks(l, tag, status);
  }

  lemma PostKeepsCallbacks(l: Link, tag: nat, status: nat)
    requires Callbacks(l) && CanPost(l, tag) && l.host.size > 0 && |l.host.cq| == l.host.size
    ensures Callbacks(Post(l, tag, status))
  {
    var t, y := Post(l, tag, status).history, l.history;
    assert t == y.(log := y.log + [Completion(y.cids[tag], status)], tags := y.tags + [tag], inflight := y.inflight - {tag});
    assert t.tags[..y.consumed] == y.tags[..y.consumed];
    hide LapPhase; hide SlotOf; hide Outstanding; hide Tagged; hide Tracked;
    PostTagged(y, t, tag);
    SameOutstanding(l.host.pending, y, t);
  }

  // A posted submission stays outstanding until the host consumes its entry.
  lemma PostTagged(y: History, t: History, tag: nat)
    requires Tagged(y) && tag in y.inflight && |t.log| == |y.log| + 1 && t.log == y.log + [t.log[|y.log|]]
    requires t.log[|y.log|].cid == y.cids[tag]
    requires t == y.(log := t.log, tags := y.tags + [tag], inflight := y.inflight - {tag})
    ensures Tagged(t)
    ensures forall g: nat :: Outstanding(t, g) <==> Outstanding(y, g)
  {
    assert t.tags[y.consumed..] == y.tags[y.consumed..] + [tag];
  }

  lemma SameOutstanding(pending: map<nat, nat>, y: History, t: History)
    requires Tagged(y) && Tagged(t) && Tracked(pending, y) && t.cids == y.cids
    requires forall g: nat :: Outstanding(t, g) <==> Outstanding(y, g)
    ensures Tracked(pending, t)
  {
    hide Outstanding; hide Tagged;
  }

  // Consuming runs exactly the callback of the submission the entry completes.
  lemma ConsumeKeeps(l: Link)
    requires Inv(l) && HasNext(l.host)
    ensures Inv(Consume(l))
    ensures Consume(l).history.fired == l.history.fired + [l.history.tags[l.history.consumed]]
    ensures Consume(l).history.handed == l.history.handed + [l.history.log[l.history.consumed]]
  {
    PhaseTestIsExact(l);
    ConsumeKeepsRing(l);
    ConsumeKeepsCallbacks(l);
  }

  lemma ConsumeKeepsCallbacks(l: Link)
    requires Callbacks(l) && l.history.consumed < |l.history.log| && l.host.size > 0 && l.host.head < |l.host.cq|
    requires l.host.cq[l.host.head].entry == l.history.log[l.history.consumed]
    ensures Callbacks(Consume(l))
    ensures Consume(l).history.fired == l.history.fired + [l.history.tags[l.history.consumed]]
    ensures Consume(l).history.handed == l.history.handed + [l.history.log[l.history.consumed]]
  {
    hide Outstanding; hide Tracked;
    var y, t := l.history, Consume(l).history;
    var tag := y.tags[y.consumed];
    TakeNext(y.tags, y.consumed);
    assert y.log[..y.consumed + 1] == y.log[..y.consumed] + [y.log[y.consumed]];
    assert Tagged(t);
    OneFewerOutstanding(y, t);
    StopTracking(l.host.pending, y, t, tag);
  }

  lemma TakeNext(s: seq<nat>, i: nat)
    requires i < |s|
    ensures s[i..] == [s[i]] + s[i + 1..] && s[..i + 1] == s[..i] + [s[i]]
  {
  }

  lemma OneFewerOutstanding(y: History, t: History)
    requires Tagged(y) && y.consumed < |y.tags| && t == y.(consumed := y.consumed + 1, fired := t.fired, handed := t.handed)
    ensures Outstanding(y, y.tags[y.consumed])
    ensures forall g: nat :: Outstanding(t, g) <==> Outstanding(y, g) && g != y.tags[y.consumed]
  {
    var tag := y.tags[y.consumed];
    TakeNext(y.tags, y.consumed);
    assert tag !in y.tags[y.consumed + 1..];
  }

  lemma StopTracking(pending: map<nat, nat>, y: History, t: History, tag: nat)
    requires Tagged(y) && Tagged(t) && Tracked(pending, y) && t.cids == y.cids && Outstanding(y, tag)
    requires forall g: nat :: Outstanding(t, g) <==> Outstanding(y, g) && g != tag
    ensures y.cids[tag] in pending && pending[y.cids[tag]] == tag
    ensures Tracked(pending - {y.cids[tag]}, t)
  {
    hide Outstanding; hide Tagged;
  }

  // ---------------------------------------------------------------- runs

  ghost predicate Shaped(l: Link) {
    l.host.size > 0 && |l.host.cq| == l.host.size && l.host.head < l.host.size
  }

  ghost function ConsumeN(l: Link, n: nat): (m: Link)
    requires Shaped(l)
    ensures Shaped(m) && m.host.size == l.host.size
  {
    if n == 0 then l else Consume(ConsumeN(l, n - 1))
  }

  lemma InvBasics(l: Link)
    requires Inv(l)
    ensures Shaped(l) && |l.history.tags| == |l.history.log| && l.history.consumed <= |l.history.log|
    ensures l.history.fired == l.history.tags[..l.history.consumed]
    ensures l.history.handed == l.history.log[..l.history.consumed]
  {
  }

  // Taking n posted entries runs the next n callbacks, in the order of posting.
  lemma {:induction false} ConsumeNKeeps(l: Link, n: nat)
    requires Inv(l) && n <= |l.history.log| - l.history.consumed
    ensures var m := ConsumeN(l, n);
      && Inv(m) && m.history.consumed == l.history.consumed + n
      && m.history == l.history.(consumed := m.history.consumed, fired := m.history.fired, handed := m.history.handed)
      && m.history.fired == l.history.fired + l.history.tags[l.history.consumed..l.history.consumed + n]
  {
    hide Ring; hide Callbacks; hide Consume;
    InvBasics(l);
    if n > 0 {
      ConsumeNKeeps(l, n - 1);
      var m := ConsumeN(l, n - 1);
      var i := l.history.consumed;
      ConsumeOne(m);
      assert l.history.tags[i..i + n] == l.history.tags[i..i + n - 1] + [l.history.tags[i + n - 1]];
    }
  }

  lemma ConsumeOne(l: Link)
    requires Inv(l) && l.history.consumed < |l.history.log|
    ensures Inv(Consume(l))
    ensures Consume(l).history ==
      l.history.(consumed := l.history.consumed + 1,
                 fired := l.history.fired + [l.history.tags[l.history.consumed]],
                 handed := l.history.handed + [l.history.log[l.history.consumed]])
  {
    PhaseTestIsExact(l);
    ConsumeKeeps(l);
  }

  // One call of the completion handler: take everything posted, then ring the doorbell.
  ghost function Process(l: Link): Link
    requires Shaped(l) && l.history.consumed <= |l.history.log|
  {
    RingDoorbell(ConsumeN(l, |l.history.log| - l.history.consumed))
  }

  // A handler call is one step, or any number of single takes and a doorbell with posts and
  // submissions in between.
  datatype Event = Submitted | Posted(tag: nat, status: nat) | Took | Rang | Processed

  // Runs in which no command id is reused while it is still pending.
  ghost predicate Step(l: Link, e: Event, t: Link) {
    match e
    case Submitted => l.host.nextCid !in l.host.pending && t == Submit(l)
    case Posted(tag, status) => Shaped(l) && CanPost(l, tag) && t == Post(l, tag, status)
    case Took => Shaped(l) && HasNext(l.host) && t == Consume(l)
    case Rang => t == RingDoorbell(l)
    case Processed => Shaped(l) && l.history.consumed <= |l.history.log| && t == Process(l)
  }

  lemma StepKeeps(l: Link, e: Event, t: Link)
    requires Inv(l) && Step(l, e, t)
    ensures Inv(t)
    ensures e.Processed? ==> t.history.consumed == |t.history.log| && t.history.fired == t.history.tags
  {
    hide Inv; hide Post; hide Submit; hide Process; hide Consume; hide RingDoorbell;
    match e
    case Submitted => SubmitKeeps(l);
    case Posted(tag, status) => PostKeeps(l, tag, status);
    case Took => ConsumeKeeps(l);
    case Rang => DoorbellKeeps(l);
    case Processed => ProcessKeeps(l);
  }

  lemma ProcessKeeps(l: Link)
    requires Inv(l) && Shaped(l) && l.history.consumed <= |l.history.log|
    ensures var t := Process(l);
      Inv(t) && t.history.consumed == |t.history.log| && t.history.fired == t.history.tags
  {
    hide Inv; hide ConsumeN;
    var n := |l.history.log| - l.history.consumed;
    ConsumeNKeeps(l, n);
    DoorbellKeeps(ConsumeN(l, n));
    InvBasics(Process(l));
    assert Process(l).history.tags[..|Process(l).history.log|] == Process(l).history.tags;
  }

  ghost predicate Run(size: nat, trace: seq<Link>, events: seq<Event>) {
    && |trace| == |events| + 1 && trace[0] == Start(size)
    && forall i | 0 <= i < |events| :: Step(trace[i], events[i], trace[i + 1])
  }

  lemma {:induction false} RunInvariant(size: nat, trace: seq<Link>, events: seq<Event>, i: nat)
    requires size > 0 && Run(size, trace, events) && i <= |events|
    ensures Inv(trace[i])
  {
    hide Inv; hide Step;
    if i == 0 {
      StartInv(size);
    } else {
      RunInvariant(size, trace, events, i - 1);
      StepKeeps(trace[i - 1], events[i - 1], trace[i]);
    }
  }

  // Over any number of wraps the callbacks run are exactly those of the consumed entries,
  // in posting order, each submission's once; every handler call takes all that was posted.
  lemma RunDeliversOnce(size: nat, trace: seq<Link>, events: seq<Event>, i: nat)
    requires size > 0 && Run(size, trace, events) && i <= |events|
    ensures var y := trace[i].history;
      && y.consumed <= |y.log| == |y.tags| && y.fired == y.tags[..y.consumed] && y.handed == y.log[..y.consumed]
      && (forall a, b | 0 <= a < b < |y.fired| :: y.fired[a] != y.fired[b])
      && (i > 0 && events[i - 1].Processed? ==> y.fired == y.tags)
      && (forall k | 0 <= k < |y.tags| :: y.tags[k] < |y.cids| && y.log[k].cid == y.cids[y.tags[k]])
  {
    hide Ring; hide Step; hide Tracked;
    RunInvariant(size, trace, events, i);
    if i > 0 {
      RunInvariant(size, trace, events, i - 1);
      StepKeeps(trace[i - 1], events[i - 1], trace[i]);
    }
  }

  // The slot of entry k is what is left of k after whole laps.
  lemma {:induction false} SlotIsRemainder(k: nat, size: nat) returns (laps: nat)
    requires size > 0
    ensures k == laps * size + SlotOf(k, size)
  {
    laps := 0;
    if k > 0 {
      var l := SlotIsRemainder(k - 1, size);
      laps := if SlotOf(k, size) == 0 then l + 1 else l;
      assert (l + 1) * size == l * size + size;
    }
  }

  // Ids go round with the slots: the k-th submission gets the id that is left of k after whole
  // laps of the queue's size.
  lemma {:induction false} IdsGoRound(size: nat, trace: seq<Link>, events: seq<Event>, i: nat)
    requires size > 0 && Run(size, trace, events) && i <= |events|
    ensures var l := trace[i];
      && l.host.size == size && l.host.nextCid == SlotOf(|l.history.cids|, size)
      && forall k | 0 <= k < |l.history.cids| :: l.history.cids[k] == SlotOf(k, size)
  {
    hide Inv; hide Step; hide SlotOf;
    if i > 0 {
      IdsGoRound(size, trace, events, i - 1);
      RunInvariant(size, trace, events, i - 1);
      IdStep(trace[i - 1], events[i - 1], trace[i]);
      NextSlot(|trace[i - 1].history.cids|, size);
    } else {
      FirstSlot(size);
    }
  }

  lemma FirstSlot(size: nat)
    requires size > 0
    ensures SlotOf(0, size) == 0
  {
  }

  lemma NextSlot(k: nat, size: nat)
    requires size > 0
    ensures SlotOf(k + 1, size) == if SlotOf(k, size) + 1 >= size then 0 else SlotOf(k, size) + 1
  {
  }

  lemma IdStep(l: Link, e: Event, t: Link)
    requires Inv(l) && Step(l, e, t)
    ensures t.host.size == l.host.size
    ensures if e.Submitted?
      then t.history.cids == l.history.cids + [l.host.nextCid]
           && t.host.nextCid == (if l.host.nextCid + 1 >= l.host.size then 0 else l.host.nextCid + 1)
      else t.history.cids == l.history.cids && t.host.nextCid == l.host.nextCid
  {
    hide Inv; hide ConsumeN;
    if e.Processed? {
      var n := |l.history.log| - l.history.consumed;
      ConsumeNKeeps(l, n);
      SameIds(l, n);
    }
  }

  lemma {:induction false} SameIds(l: Link, n: nat)
    requires Shaped(l)
    ensures ConsumeN(l, n).host.nextCid == l.host.nextCid
  {
    if n > 0 {
      SameIds(l, n - 1);
    }
  }

  // With an id reused while pending, the older callback is lost and the newer one runs in
  // its place: three submissions to a queue of two, then the first one completes.
  lemma ReuseLosesCallback()
    ensures var l := Submit(Submit(Submit(Start(2))));
      && l.history.cids == [0, 1, 0] && CanPost(l, 0)
      && var m := Consume(Post(l, 0, 0));
         m.history.tags == [0] && m.history.fired == [2]
  {
    var l := Submit(Submit(Submit(Start(2))));
    assert l.host.pending == map[0 := 2, 1 := 1];
    assert l.history.inflight == {0, 1, 2};
  }

  // ---------------------------------------------------------------- when the queue stalls

  ghost predicate HasRoom(l: Link) {
    |l.history.log| + 1 < l.history.acked + l.host.size
  }

  // After a handler call the controller has room again unless the call ended on head 0 with
  // phase 1, where the doorbell is skipped, with the queue full since the last doorbell.
  lemma RoomAfterProcess(l: Link)
    requires Inv(l) && Shaped(l) && l.history.consumed <= |l.history.log| && l.host.size > 1
    ensures var t := Process(l);
      HasRoom(t) <==> !(t.host.head == 0 && t.host.phase && t.history.consumed == l.history.acked + l.host.size - 1)
  {
    hide ConsumeN; hide Callbacks;
    var n := |l.history.log| - l.history.consumed;
    ConsumeNKeeps(l, n);
    ProcessKeeps(l);
  }

  // Nothing is left to take, the queue is full, and the doorbell is not going to be rung.
  ghost predicate Stalled(l: Link) {
    && Inv(l) && l.history.consumed == |l.history.log| && !HasRoom(l)
    && l.host.head == 0 && l.host.phase
  }

  // From there no step of host or controller leads anywhere: nothing more is ever posted.
  lemma StallStays(l: Link, e: Event, t: Link)
    requires Stalled(l) && Step(l, e, t)
    ensures Stalled(t) && t.history.log == l.history.log
  {
    InvBasics(l);
    PhaseTestIsExact(l);
    match e
    case Submitted => SubmitKeeps(l);
    case Posted(_, _) =>
    case Took =>
    case Rang =>
    case Processed => assert Process(l) == l;
  }

  lemma {:induction false} StallIsForever(size: nat, trace: seq<Link>, events: seq<Event>, i: nat, j: nat)
    requires Run(size, trace, events) && i <= j <= |events| && Stalled(trace[i])
    ensures Stalled(trace[j]) && trace[j].history.log == trace[i].history.log
    decreases j
  {
    hide Stalled; hide Step;
    if j > i {
      StallIsForever(size, trace, events, i, j - 1);
      StallStays(trace[j - 1], events[j - 1], trace[j]);
    }
  }

  // One command submitted, completed and handled, all earlier entries being acknowledged.
  lemma OneAtATime(l: Link, a: Link, tag: nat, status: nat, b: Link, t: Link)
    requires Inv(l) && l.history.consumed == |l.history.log| == l.history.acked
    requires Step(l, Submitted, a) && Step(a, Posted(tag, status), b) && Step(b, Processed, t)
    ensures Inv(t) && t.host.size == l.host.size
    ensures t.history.consumed == |t.history.log| == |l.history.log| + 1
    ensures t.host.head == SlotOf(|t.history.log|, t.host.size) && t.host.phase == LapPhase(|t.history.log|, t.host.size)
    ensures t.history.acked == if t.host.head == 0 && t.host.phase then |l.history.log| else |t.history.log|
  {
    hide Callbacks; hide ConsumeN; hide SlotOf; hide LapPhase;
    SubmitKeeps(l);
    PostKeeps(a, tag, status);
    InvBasics(b);
    ConsumeNKeeps(b, 1);
    ProcessKeeps(b);
  }

  // A queue of two that handles one completion per call stalls for good after the fourth.
  lemma TwoSlotsStall(trace: seq<Link>, events: seq<Event>)
    requires Run(2, trace, events) && |events| >= 12
    requires forall k | 0 <= k < 4 ::
      events[3 * k].Submitted? && events[3 * k + 1].Posted? && events[3 * k + 2].Processed?
    ensures |trace[12].history.log| == 4
    ensures forall j | 12 <= j <= |events| :: Stalled(trace[j]) && trace[j].history.log == trace[12].history.log
  {
    hide Inv; hide Step; hide SlotOf; hide LapPhase; hide Stalled;
    StartInv(2);
    SlotsOfTwo();
    TwoSlotRound(trace, events, 0);
    TwoSlotRound(trace, events, 1);
    TwoSlotRound(trace, events, 2);
    TwoSlotRound(trace, events, 3);
    FourthStalls(trace[12]);
    forall j | 12 <= j <= |events|
      ensures Stalled(trace[j]) && trace[j].history.log == trace[12].history.log
    {
      StallIsForever(2, trace, events, 12, j);
    }
  }

  lemma SlotsOfTwo()
    ensures SlotOf(1, 2) == SlotOf(3, 2) == 1 && SlotOf(2, 2) == SlotOf(4, 2) == 0
    ensures LapPhase(1, 2) && !LapPhase(2, 2) && !LapPhase(3, 2) && LapPhase(4, 2)
  {
    assert SlotOf(0, 2) == 0 && LapPhase(0, 2);
    assert SlotOf(1, 2) == 1 && LapPhase(1, 2);
    assert SlotOf(2, 2) == 0 && !LapPhase(2, 2);
    assert SlotOf(3, 2) == 1 && !LapPhase(3, 2);
  }

  lemma TwoSlotRound(trace: seq<Link>, events: seq<Event>, k: nat)
    requires Run(2, trace, events) && 3 * k + 2 < |events|
    requires events[3 * k].Submitted? && events[3 * k + 1].Posted? && events[3 * k + 2].Processed?
    requires var l := trace[3 * k];
      Inv(l) && l.host.size == 2 && l.history.consumed == |l.history.log| == l.history.acked == k
    ensures var t := trace[3 * k + 3];
      && Inv(t) && t.host.size == 2 && t.history.consumed == |t.history.log| == k + 1
      && t.host.head == SlotOf(k + 1, 2) && t.host.phase == LapPhase(k + 1, 2)
      && t.history.acked == if t.host.head == 0 && t.host.phase then k else k + 1
  {
    hide Inv; hide Step; hide SlotOf; hide LapPhase;
    var i := 3 * k;
    assert Step(trace[i], events[i], trace[i + 1]);
    assert Step(trace[i + 1], events[i + 1], trace[i + 2]);
    assert Step(trace[i + 2], events[i + 2], trace[i + 3]);
    OneAtATime(trace[i], trace[i + 1], events[i + 1].tag, events[i + 1].status, trace[i + 2], trace[i + 3]);
  }

  lemma FourthStalls(l: Link)
    requires Inv(l) && l.host.size == 2 && l.history.consumed == |l.history.log| == 4 && l.history.acked == 3
    requires l.host.head == 0 && l.host.phase
    ensures Stalled(l)
  {
    hide Inv;
  }

  // ---------------------------------------------------------------- the class

  // An entry of the submission queue.
  datatype Submission = Submission(cid: nat, command: Bytes)

  class Queue {
    const size: nat
    var sq: seq<Submission>
    var sqTail: nat
    var sqDoorbell: nat
    var cq: seq<Slot>
    var head: nat
    var phase: bool
    var doorbell: nat
    var pending: map<nat, nat>
    var nextCid: nat
    var submitted: nat
    ghost var history: History
    ghost var commands: seq<Bytes>

    // The counter of submitted commands numbers the submissions; ids and slots go round
    // together, so the slot of a pending id holds the command whose callback is pending.
    ghost predicate Numbered()
      reads this
    {
      && submitted == |history.cids| == |commands|
      && |sq| == size && sqTail == nextCid < size && sqDoorbell == sqTail
      && forall cid | cid in pending ::
           cid < size && pending[cid] < submitted && sq[cid] == Submission(cid, commands[pending[cid]])
    }

    ghost function State(): Link
      reads this
    {
      Link(Host(size, cq, head, phase, doorbell, pending, nextCid), history)
    }

    // The memory of the queue starts zeroed.
    constructor (size: nat)
      requires size > 0
      ensures this.size == size && State() == Start(size) && Inv(State()) && Numbered()
    {
      this.size := size;
      sq := seq(size, _ => Submission(0, []));
      sqTail, sqDoorbell := 0, 0;
      cq := seq(size, _ => Slot(Completion(0, 0), false));
      head, phase, doorbell, pending, nextCid, submitted := 0, true, 0, map[], 0, 0;
      history := History([], [], 0, 0, [], {}, [], []);
      commands := [];
      new;
      StartInv(size);
    }

    // The slot taken is the id's own, so it still holds a command in use exactly when the id
    // is still pending.
    method SubmitCommand(command: Bytes) returns (cid: nat)
      requires Numbered()
      modifies this
      ensures Numbered()
      ensures cid == old(nextCid) && State() == Submit(old(State()))
      ensures sq == old(sq)[cid := Submission(cid, command)] && commands == old(commands) + [command]
      ensures old(Inv(State())) && cid !in old(pending) ==> Inv(State())
    {
      hide Inv; hide Submit;
      ghost var before := State();
      cid := DrawId();
      pending := pending[cid := submitted];
      PushSubmission(Submission(cid, command));
      submitted := submitted + 1;
      commands := commands + [command];
      history := history.(cids := history.cids + [cid], inflight := history.inflight + {|history.cids|});
      SubmitIs(before, State());
      if Inv(before) && cid !in before.host.pending {
        SubmitKeeps(before);
      }
    }

    lemma SubmitIs(l: Link, t: Link)
      requires var cid, n := l.host.nextCid, |l.history.cids|;
        && t.host == l.host.(pending := l.host.pending[cid := n], nextCid := t.host.nextCid)
        && t.host.nextCid == (if cid + 1 >= l.host.size then 0 else cid + 1)
        && t.history == l.history.(cids := l.history.cids + [cid], inflight := l.history.inflight + {n})
      ensures t == Submit(l)
    {
    }

    // The next command id; ids start again at 0 before they reach the queue's size.
    method DrawId() returns (cid: nat)
      modifies `nextCid
      ensures cid == old(nextCid) && nextCid == if cid + 1 >= size then 0 else cid + 1
    {
      cid := nextCid;
      nextCid := nextCid + 1;
      if nextCid >= size {
        nextCid := 0;
      }
    }

    // Copies the command to the tail of the submission queue and rings its doorbell.
    method PushSubmission(entry: Submission)
      requires sqTail < |sq| == size
      modifies `sq, `sqTail, `sqDoorbell
      ensures sq == old(sq)[old(sqTail) := entry]
      ensures sqTail == (if old(sqTail) + 1 >= size then 0 else old(sqTail) + 1) && sqDoorbell == sqTail
    {
      sq := sq[sqTail := entry];
      WrapIncrement(sqTail, size);
      sqTail := (sqTail + 1) % size;
      sqDoorbell := sqTail;
    }

    // The submission side is left alone.
    twostate predicate SameSubmissions()
      reads this
    {
      && sq == old(sq) && sqTail == old(sqTail) && sqDoorbell == old(sqDoorbell)
      && submitted == old(submitted) && commands == old(commands)
    }

    // Takes entries while the phase tag at the head matches.
    method ProcessCompletions()
      requires Inv(State())
      modifies this
      ensures State() == Process(old(State())) && Inv(State())
      ensures SameSubmissions() && (old(Numbered()) ==> Numbered())
    {
      hide Ring; hide Callbacks; hide Consume;
      InvBasics(State());
      ghost var start, n := State(), 0;
      while true
        invariant n <= |start.history.log| - start.history.consumed
        invariant Inv(start) && State() == ConsumeN(start, n)
        invariant SameSubmissions() && (old(Numbered()) ==> Numbered())
        invariant Inv(State()) && history.consumed == start.history.consumed + n && history.log == start.history.log
        decreases |start.history.log| - start.history.consumed - n
      {
        var more := TakeOne();
        if !more {
          break;
        }
        n := n + 1;
        NextConsumed(start, n, State());
      }
      DoorbellKeeps(State());
      if head != 0 || !phase {
        doorbell := head;
        history := history.(acked := history.consumed);
      }
    }

    lemma NextConsumed(l: Link, n: nat, m: Link)
      requires Shaped(l) && n > 0 && m == Consume(ConsumeN(l, n - 1))
      ensures m == ConsumeN(l, n)
    {
    }

    method TakeOne() returns (more: bool)
      requires Inv(State())
      modifies this
      ensures Inv(State()) && Shaped(old(State()))
      ensures SameSubmissions() && (old(Numbered()) ==> Numbered())
      ensures more <==> old(history.consumed) < |old(history.log)|
      ensures State() == if more then Consume(old(State())) else old(State())
      ensures history.log == old(history.log) && history.consumed == old(history.consumed) + if more then 1 else 0
    {
      hide Ring; hide Callbacks;
      InvBasics(State());
      PhaseTestIsExact(State());
      if cq[head].phase != phase {
        return false;
      }
      ConsumeKeeps(State());
      var cid := cq[head].entry.cid;
      ghost var fired, handed := history.fired, history.handed;
      if cid in pending {
        fired, handed := fired + [pending[cid]], handed + [cq[head].entry];
        pending := pending - {cid};
      }
      head := (head + 1) % size;
      if head == 0 {
        phase := !phase;
      }
      history := history.(consumed := history.consumed + 1, fired := fired, handed := handed);
      assert State().host == Consume(old(State())).host;
      return true;
    }
  }
}
