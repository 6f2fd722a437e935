/**
Whole histories of the DirectFlash simulator: every event with the answer its caller saw,
and the theorem that these answers are those of a plain map from address to data.
 */
module FlashRuns {
  import opened Common
  import opened FlashModel
  import opened FlashMaintenance

  datatype GcState = Idle | Running | Stopped

  datatype Sim = Sim(flash: Flash, gcState: GcState, gcTask: bool, nextAddress: int)

  // A write returns an address, refuses oversized data, fails for lack of space, or fails
  // because the collector's statistics query found every block bad.
  datatype WriteOutcome = Stored(address: int) | Refused | Full | StatsFailed

  datatype Event =
    | Write(data: Bytes, outcome: WriteOutcome)
    | Read(address: int, result: Option<Bytes>)
    | Delete(address: int, found: bool)
    | ForceGc(reclaimed: nat, raised: bool)
    | ForceLeveling(moved: Option<nat>)
    | StartGc
    | StopGc

  function Start(totalBlocks: nat): Sim {
    Sim(Initial(totalBlocks), Idle, false, 0)
  }

  datatype GcRun = GcRun(sim: Sim, reclaimed: nat, raised: bool)

  // A cycle is skipped while stopped; a failed one leaves the collector RUNNING.
  ghost function RunGc(c: Config, x: Sim): GcRun {
    if x.gcState.Stopped? then GcRun(x, 0, false)
    else
      var o := Collect(c, x.flash);
      GcRun(x.(flash := o.flash, gcState := if o.raised then Running else Idle), o.reclaimed, o.raised)
  }

  // After a successful write the simulator levels wear before it answers.
  ghost predicate Finish(c: Config, x: Sim, a: int, out: WriteOutcome, y: Sim) {
    && out == Stored(a)
    && exists n: nat :: LevelingPass(c, x.flash, n, y.flash) && y == x.(flash := y.flash)
  }

  ghost predicate Retry(c: Config, x: Sim, a: int, d: Bytes, out: WriteOutcome, y: Sim) {
    var g := RunGc(c, x);
    if g.raised then
      out == StatsFailed && y == g.sim
    else
      exists s, r :: WriteBlock(c, g.sim.flash, a, d, s, r) &&
        if r.Written? then Finish(c, g.sim.(flash := s), a, out, y)
        else out == Full && y == g.sim.(flash := s)
  }

  ghost predicate WriteStep(c: Config, x: Sim, d: Bytes, out: WriteOutcome, y: Sim) {
    var a := x.nextAddress;
    var x1 := x.(nextAddress := a + 1);
    exists s, r :: WriteBlock(c, x.flash, a, d, s, r) &&
      match r
      case TooLarge => out == Refused && y == x1.(flash := s)
      case Written(_) => Finish(c, x1.(flash := s), a, out, y)
      case NoSpace => Retry(c, x1.(flash := s), a, d, out, y)
  }

  ghost predicate Step(c: Config, x: Sim, e: Event, y: Sim) {
    match e
    case Write(d, out) => WriteStep(c, x, d, out, y)
    case Read(a, r) =>
      && InBounds(x.flash) && r == ReadBlock(x.flash, a)
      && y == x.(flash := if r.Some? then CountRead(x.flash) else x.flash)
    case Delete(a, found) =>
      && InBounds(x.flash) && (found <==> a in x.flash.l2p)
      && y == x.(flash := DeleteBlock(x.flash, a))
    case ForceGc(n, raised) =>
      RunGc(c, x) == GcRun(y, n, raised)
    case ForceLeveling(m) =>
      if AllBad(x.flash) then m == None && y == x
      else m.Some? && LevelingPass(c, x.flash, m.value, y.flash) && y == x.(flash := y.flash)
    case StartGc =>
      y == if x.gcTask then x else x.(gcState := Idle, gcTask := true)
    case StopGc =>
      y == x.(gcState := Stopped, gcTask := false)
  }

  // ---------------------------------------------------------------- the abstract map

  // What an event does to the plain map ...
  function Apply(m: map<int, Bytes>, e: Event): map<int, Bytes> {
    match e
    case Write(d, Stored(a)) => m[a := d]
    case Delete(a, _) => m - {a}
    case _ => m
  }

  // ... and what its caller must have been told, after `writes` calls of write: addresses are
  // numbered by the calls, so none is ever issued twice.
  predicate Answers(c: Config, m: map<int, Bytes>, writes: nat, e: Event) {
    match e
    case Write(d, out) =>
      (out.Refused? <==> |d| > c.blockSize) && (out.Stored? ==> out.address == writes && out.address !in m)
    case Read(a, r) => r == if a in m then Some(m[a]) else None
    case Delete(a, found) => found <==> a in m
    case _ => true
  }

  predicate IsWrite(e: Event) { e.Write? }

  predicate IsStore(e: Event) { e.Write? && e.outcome.Stored? }

  predicate IsHit(e: Event) { e.Read? && e.result.Some? }

  function CountIf(p: Event -> bool, events: seq<Event>): nat {
    if |events| == 0 then 0
    else CountIf(p, events[..|events| - 1]) + if p(events[|events| - 1]) then 1 else 0
  }

  function Replay(events: seq<Event>): map<int, Bytes> {
    if |events| == 0 then map[]
    else Apply(Replay(events[..|events| - 1]), events[|events| - 1])
  }

  // ---------------------------------------------------------------- invariant and steps

  ghost predicate SimInv(c: Config, x: Sim) {
    Inv(c, x.flash) && forall a | a in x.flash.l2p :: a < x.nextAddress
  }

  lemma GcKeeps(c: Config, x: Sim)
    requires SimInv(c, x)
    ensures var g := RunGc(c, x);
      SimInv(c, g.sim) && View(g.sim.flash) == View(x.flash) && g.sim.nextAddress == x.nextAddress
      && g.sim.flash.l2p == x.flash.l2p && SameTraffic(x.flash, g.sim.flash)
  {
    CollectKeeps(c, x.flash);
  }

  lemma InvBounds(c: Config, s: Flash)
    requires Inv(c, s)
    ensures InBounds(s)
  {
  }

  lemma ViewKeysUnder(c: Config, s: Flash)
    requires Inv(c, s)
    ensures View(s).Keys == s.l2p.Keys
  {
    ViewUnderMapping(s);
  }

  lemma FinishKeeps(c: Config, x: Sim, a: int, out: WriteOutcome, y: Sim)
    requires SimInv(c, x) && Finish(c, x, a, out, y)
    ensures SimInv(c, y) && View(y.flash) == View(x.flash)
    ensures y.nextAddress == x.nextAddress && Leveled(y.flash, c.threshold) && out == Stored(a)
    ensures SameTraffic(x.flash, y.flash)
  {
    var n: nat :| LevelingPass(c, x.flash, n, y.flash) && y == x.(flash := y.flash);
    LevelingPassKeeps(c, x.flash, n, y.flash);
    ViewKeysUnder(c, x.flash);
    ViewKeysUnder(c, y.flash);
  }

  // One attempt to write to an address that is not mapped.
  lemma AttemptKeeps(c: Config, x: Sim, a: int, d: Bytes, s: Flash, r: WriteResult)
    requires SimInv(c, x) && a !in x.flash.l2p && a < x.nextAddress
    requires WriteBlock(c, x.flash, a, d, s, r)
    ensures SimInv(c, x.(flash := s)) && View(s) == if r.Written? then View(x.flash)[a := d] else View(x.flash)
    ensures !r.Written? ==> s == x.flash
    ensures r.TooLarge? <==> |d| > c.blockSize
    ensures r.Written? ==> s.stats.totalWrites == x.flash.stats.totalWrites + 1 && s.stats.totalReads == x.flash.stats.totalReads
  {
    hide Inv; hide View;
    WriteKeeps(c, x.flash, a, d, s, r);
    ViewKeysUnder(c, x.flash);
    ViewKeysUnder(c, s);
  }

  predicate Traffic(s: Flash, stored: bool, t: Flash) {
    t.stats.totalReads == s.stats.totalReads && t.stats.totalWrites == s.stats.totalWrites + if stored then 1 else 0
  }

  lemma RetryKeeps(c: Config, x: Sim, a: int, d: Bytes, out: WriteOutcome, y: Sim)
    requires SimInv(c, x) && a !in x.flash.l2p && a < x.nextAddress && Retry(c, x, a, d, out, y)
    ensures SimInv(c, y)
    ensures View(y.flash) == if out.Stored? then View(x.flash)[a := d] else View(x.flash)
    ensures out.Stored? ==> out.address == a
    ensures !out.Refused? && y.nextAddress == x.nextAddress
    ensures out.Stored? ==> Leveled(y.flash, c.threshold)
    ensures Traffic(x.flash, out.Stored?, y.flash)
  {
    GcKeeps(c, x);
    var g := RunGc(c, x);
    if !g.raised {
      var s, r :| WriteBlock(c, g.sim.flash, a, d, s, r) &&
        if r.Written? then Finish(c, g.sim.(flash := s), a, out, y)
        else out == Full && y == g.sim.(flash := s);
      AttemptKeeps(c, g.sim, a, d, s, r);
      if r.Written? {
        FinishKeeps(c, g.sim.(flash := s), a, out, y);
      }
    }
  }

  lemma WriteStepKeeps(c: Config, x: Sim, d: Bytes, out: WriteOutcome, y: Sim)
    requires SimInv(c, x) && WriteStep(c, x, d, out, y)
    ensures SimInv(c, y)
    ensures View(y.flash) == if out.Stored? then View(x.flash)[out.address := d] else View(x.flash)
    ensures out.Stored? ==> out.address == x.nextAddress
    ensures out.Refused? <==> |d| > c.blockSize
    ensures y.nextAddress == x.nextAddress + 1
    ensures out.Stored? ==> Leveled(y.flash, c.threshold)
    ensures Traffic(x.flash, out.Stored?, y.flash)
  {
    hide Inv; hide View; hide Finish; hide Retry;
    var a := x.nextAddress;
    var x1 := x.(nextAddress := a + 1);
    var s, r :| WriteBlock(c, x.flash, a, d, s, r) &&
      match r
      case TooLarge => out == Refused && y == x1.(flash := s)
      case Written(_) => Finish(c, x1.(flash := s), a, out, y)
      case NoSpace => Retry(c, x1.(flash := s), a, d, out, y);
    AttemptKeeps(c, x1, a, d, s, r);
    match r
    case TooLarge =>
    case Written(_) => FinishKeeps(c, x1.(flash := s), a, out, y);
    case NoSpace => RetryKeeps(c, x1.(flash := s), a, d, out, y);
  }

  // A write step from its first attempt and how it went on.
  lemma WriteIsStep(c: Config, x: Sim, d: Bytes, s: Flash, r: WriteResult, out: WriteOutcome, y: Sim)
    requires SimInv(c, x) && WriteBlock(c, x.flash, x.nextAddress, d, s, r)
    requires var x1 := x.(flash := s, nextAddress := x.nextAddress + 1);
      match r
      case TooLarge => out == Refused && y == x1
      case Written(_) => Finish(c, x1, x.nextAddress, out, y)
      case NoSpace => Retry(c, x1, x.nextAddress, d, out, y)
    ensures SimInv(c, y) && Step(c, x, Write(d, out), y)
  {
    hide Inv; hide Finish; hide Retry; hide WriteBlock;
    assert x.(nextAddress := x.nextAddress + 1).(flash := s) == x.(flash := s, nextAddress := x.nextAddress + 1);
    assert WriteStep(c, x, d, out, y);
    WriteStepKeeps(c, x, d, out, y);
  }

  lemma LevelStepKeeps(c: Config, x: Sim, n: nat, y: Sim)
    requires SimInv(c, x) && LevelingPass(c, x.flash, n, y.flash) && y == x.(flash := y.flash)
    ensures SimInv(c, y) && View(y.flash) == View(x.flash) && SameTraffic(x.flash, y.flash)
  {
    LevelingPassKeeps(c, x.flash, n, y.flash);
    ViewKeysUnder(c, x.flash);
    ViewKeysUnder(c, y.flash);
  }

  lemma DeleteStepKeeps(c: Config, x: Sim, a: int)
    requires SimInv(c, x)
    ensures SimInv(c, x.(flash := DeleteBlock(x.flash, a)))
    ensures View(DeleteBlock(x.flash, a)) == View(x.flash) - {a}
  {
    DeleteKeeps(c, x.flash, a);
    ViewKeysUnder(c, x.flash);
    ViewKeysUnder(c, DeleteBlock(x.flash, a));
  }

  // Every event keeps the invariant, changes the view as the plain map changes, and gave
  // its caller the plain map's answer.
  lemma StepRefines(c: Config, x: Sim, e: Event, y: Sim)
    requires SimInv(c, x) && Step(c, x, e, y)
    ensures SimInv(c, y)
    ensures View(y.flash) == Apply(View(x.flash), e)
    ensures x.nextAddress >= 0 ==> Answers(c, View(x.flash), x.nextAddress, e)
    ensures y.nextAddress == x.nextAddress + (if IsWrite(e) then 1 else 0)
    ensures y.flash.stats.totalWrites == x.flash.stats.totalWrites + (if IsStore(e) then 1 else 0)
    ensures y.flash.stats.totalReads == x.flash.stats.totalReads + (if IsHit(e) then 1 else 0)
  {
    hide Inv; hide View; hide WriteStep; hide RunGc; hide LevelingPass; hide AllBad;
    ViewKeysUnder(c, x.flash);
    match e
    case Write(d, out) => WriteStepKeeps(c, x, d, out, y);
    case Read(a, r) => ReadIsLookup(x.flash, a); CountReadKeeps(c, x.flash);
    case Delete(a, found) => DeleteStepKeeps(c, x, a);
    case ForceGc(n, raised) => GcKeeps(c, x);
    case ForceLeveling(m) =>
      if m.Some? {
        LevelStepKeeps(c, x, m.value, y);
      }
    case StartGc =>
    case StopGc =>
  }

  lemma CountReadKeeps(c: Config, s: Flash)
    requires Inv(c, s)
    ensures Inv(c, CountRead(s)) && View(CountRead(s)) == View(s)
  {
  }

  ghost predicate Run(c: Config, totalBlocks: nat, trace: seq<Sim>, events: seq<Event>) {
    && |trace| == |events| + 1
    && trace[0] == Start(totalBlocks)
    && forall i | 0 <= i < |events| :: Step(c, trace[i], events[i], trace[i + 1])
  }

  lemma StartInv(c: Config, totalBlocks: nat)
    ensures var x := Start(totalBlocks);
      && SimInv(c, x) && View(x.flash) == map[] && x.nextAddress == 0
      && x.flash.stats.totalWrites == 0 && x.flash.stats.totalReads == 0
  {
    InitialInv(c, totalBlocks);
  }

  // At every point of every run the flash is the map that the events so far replay to.
  lemma {:induction false} RunInvariant(c: Config, totalBlocks: nat, trace: seq<Sim>, events: seq<Event>, i: nat)
    requires Run(c, totalBlocks, trace, events) && i <= |events|
    ensures SimInv(c, trace[i]) && View(trace[i].flash) == Replay(events[..i])
    ensures trace[i].flash.stats.totalWrites == CountIf(IsStore, events[..i])
    ensures trace[i].flash.stats.totalReads == CountIf(IsHit, events[..i])
    ensures trace[i].nextAddress == CountIf(IsWrite, events[..i])
  {
    hide SimInv; hide Step; hide View; hide Apply; hide Answers; hide Start;
    if i == 0 {
      StartInv(c, totalBlocks);
      assert events[..0] == [];
    } else {
      RunInvariant(c, totalBlocks, trace, events, i - 1);
      StepRefines(c, trace[i - 1], events[i - 1], trace[i]);
      assert events[..i][..i - 1] == events[..i - 1];
    }
  }

  // In every run every answer is the plain map's: a read returns exactly the last data
  // stored and not deleted at its address, and no address is issued twice.
  lemma RunRefinesMap(c: Config, totalBlocks: nat, trace: seq<Sim>, events: seq<Event>)
    requires Run(c, totalBlocks, trace, events)
    ensures forall i | 0 <= i < |events| ::
      Answers(c, Replay(events[..i]), CountIf(IsWrite, events[..i]), events[i])
    ensures forall i, j | 0 <= i < j < |events| && IsStore(events[i]) && IsStore(events[j]) ::
      events[i].outcome.address < events[j].outcome.address
  {
    forall i | 0 <= i < |events|
      ensures Answers(c, Replay(events[..i]), CountIf(IsWrite, events[..i]), events[i])
    {
      RunInvariant(c, totalBlocks, trace, events, i);
      StepRefines(c, trace[i], events[i], trace[i + 1]);
    }
    forall i, j | 0 <= i < j < |events| && IsStore(events[i]) && IsStore(events[j])
      ensures events[i].outcome.address < events[j].outcome.address
    {
      MoreWrites(events, i, j);
      assert Answers(c, Replay(events[..i]), CountIf(IsWrite, events[..i]), events[i]);
      assert Answers(c, Replay(events[..j]), CountIf(IsWrite, events[..j]), events[j]);
    }
  }

  lemma {:induction false} MoreWrites(events: seq<Event>, i: nat, j: nat)
    requires i < j <= |events| && IsWrite(events[i])
    ensures CountIf(IsWrite, events[..i]) < CountIf(IsWrite, events[..j])
  {
    assert events[..j][..j - 1] == events[..j - 1];
    if j > i + 1 {
      MoreWrites(events, i, j - 1);
    }
  }

  // At every point of every run: each erase is in the books, successful writes and reads are
  // counted, each block counter counts what it is named for (the invalid counter plus every
  // erase so far), every block is counted once, and a block is BAD exactly when its count has
  // reached the limit.
  lemma RunConserves(c: Config, totalBlocks: nat, trace: seq<Sim>, events: seq<Event>, i: nat)
    requires Run(c, totalBlocks, trace, events) && i <= |events|
    ensures var s := trace[i].flash;
      && Sum(Wear, s.blocks) == s.stats.totalErases + s.stats.badBlocks
      && s.stats.badBlocks == Sum(IsBad, s.blocks)
      && s.stats.totalWrites == CountIf(IsStore, events[..i]) && s.stats.totalReads == CountIf(IsHit, events[..i])
      && s.stats.freeBlocks == |s.freePool|
      && s.stats.validBlocks == |Replay(events[..i])|
      && s.stats.invalidBlocks == Sum(IsInvalid, s.blocks) + Sum(Wear, s.blocks)
      && s.stats.freeBlocks + s.stats.validBlocks + Sum(IsInvalid, s.blocks) + s.stats.badBlocks == |s.blocks|
      && forall p: nat | p < |s.blocks| && c.maxErase >= 1 ::
           s.blocks[p].state.Bad? <==> s.blocks[p].eraseCount >= c.maxErase
  {
    RunInvariant(c, totalBlocks, trace, events, i);
    ViewKeysUnder(c, trace[i].flash);
    assert |View(trace[i].flash)| == |View(trace[i].flash).Keys| == |trace[i].flash.l2p|;
  }

  // After every successful write of a run the flash is leveled.
  lemma RunLevels(c: Config, totalBlocks: nat, trace: seq<Sim>, events: seq<Event>, i: nat)
    requires Run(c, totalBlocks, trace, events) && i < |events| && IsStore(events[i])
    ensures Leveled(trace[i + 1].flash, c.threshold)
  {
    hide SimInv; hide WriteStep; hide Leveled; hide View;
    RunInvariant(c, totalBlocks, trace, events, i);
    assert Step(c, trace[i], events[i], trace[i + 1]);
    WriteStepKeeps(c, trace[i], events[i].data, events[i].outcome, trace[i + 1]);
  }

  // ---------------------------------------------------------------- starting and stopping

  // The last of the start and stop calls, if there was one.
  ghost function LastControl(events: seq<Event>): Option<Event> {
    if |events| == 0 then None
    else if events[|events| - 1].StartGc? || events[|events| - 1].StopGc? then Some(events[|events| - 1])
    else LastControl(events[..|events| - 1])
  }

  // The collector is stopped exactly when the last of these calls was a stop, and has a
  // background job exactly when it was a start.
  lemma {:induction false} StoppedExactly(c: Config, totalBlocks: nat, trace: seq<Sim>, events: seq<Event>, i: nat)
    requires Run(c, totalBlocks, trace, events) && i <= |events|
    ensures trace[i].gcState.Stopped? <==> LastControl(events[..i]) == Some(StopGc)
    ensures trace[i].gcTask <==> LastControl(events[..i]) == Some(StartGc)
  {
    if i > 0 {
      StoppedExactly(c, totalBlocks, trace, events, i - 1);
      assert events[..i][..i - 1] == events[..i - 1];
      ControlStep(c, trace[i - 1], events[i - 1], trace[i]);
    }
  }

  lemma ControlStep(c: Config, x: Sim, e: Event, y: Sim)
    requires Step(c, x, e, y)
    ensures !e.StartGc? && !e.StopGc? ==> (y.gcState.Stopped? <==> x.gcState.Stopped?) && y.gcTask == x.gcTask
    ensures e.StopGc? ==> y.gcState.Stopped? && !y.gcTask
    ensures e.StartGc? ==> y.gcTask && (y.gcState.Stopped? ==> x.gcTask && x.gcState.Stopped?)
  {
    hide Collect; hide LevelingPass; hide WriteBlock; hide AllBad;
  }

  // A flash with every block bad has nothing to write to and nothing to delete.
  lemma WornOut(c: Config, s: Flash)
    requires Inv(c, s) && AllBad(s)
    ensures s.freePool == {} && s.l2p == map[]
  {
    AllBadHasNoSpace(c, s);
    assert forall a :: a !in s.l2p;
  }

  // A collection that does not fail leaves the collector idle; one that fails leaves it
  // RUNNING over a flash with every block bad.
  lemma GcLeaves(c: Config, x: Sim)
    requires SimInv(c, x) && !x.gcState.Stopped?
    ensures var y := RunGc(c, x).sim;
      if RunGc(c, x).raised then y.gcState.Running? && AllBad(y.flash) else y.gcState.Idle?
  {
    hide Inv; hide Sweep; hide AllBad; hide View;
    SweepKeeps(c, x.flash, InvalidIds(x.flash.blocks, 0));
  }

  ghost predicate RunningOnlyWorn(x: Sim) {
    x.gcState.Running? ==> AllBad(x.flash)
  }

  lemma WriteWhenWorn(c: Config, x: Sim, d: Bytes, out: WriteOutcome, y: Sim)
    requires SimInv(c, x) && RunningOnlyWorn(x) && WriteStep(c, x, d, out, y)
    ensures RunningOnlyWorn(y)
  {
    hide Inv; hide View; hide Collect; hide LevelingPass; hide AllBad;
    var x1 := x.(nextAddress := x.nextAddress + 1);
    if x.gcState.Running? {
      WornOut(c, x.flash);
    }
    GcKeeps(c, x1);
    if !x.gcState.Stopped? {
      GcLeaves(c, x1);
    }
    NoSpaceChangesNothing(c, x, d);
  }

  lemma NoSpaceChangesNothing(c: Config, x: Sim, d: Bytes)
    requires SimInv(c, x)
    ensures forall s, r | WriteBlock(c, x.flash, x.nextAddress, d, s, r) && !r.Written? :: s == x.flash
  {
  }

  // The collector is RUNNING between calls only after it failed over a worn-out flash.
  lemma {:induction false} RunningMeansWorn(c: Config, totalBlocks: nat, trace: seq<Sim>, events: seq<Event>, i: nat)
    requires Run(c, totalBlocks, trace, events) && i <= |events|
    ensures trace[i].gcState.Running? ==> AllBad(trace[i].flash)
  {
    hide SimInv; hide Step; hide View; hide AllBad;
    if i > 0 {
      RunningMeansWorn(c, totalBlocks, trace, events, i - 1);
      RunInvariant(c, totalBlocks, trace, events, i - 1);
      RunningStep(c, trace[i - 1], events[i - 1], trace[i]);
    }
  }

  lemma RunningStep(c: Config, x: Sim, e: Event, y: Sim)
    requires SimInv(c, x) && RunningOnlyWorn(x) && Step(c, x, e, y)
    ensures RunningOnlyWorn(y)
  {
    hide Inv; hide View; hide Collect; hide LevelingPass; hide AllBad; hide WriteStep;
    if x.gcState.Running? {
      WornOut(c, x.flash);
    }
    match e
    case Write(d, out) => WriteWhenWorn(c, x, d, out, y);
    case Read(_, _) =>
    case Delete(_, _) =>
    case ForceGc(_, _) =>
      if !x.gcState.Stopped? {
        GcLeaves(c, x);
      }
    case ForceLeveling(_) =>
    case StartGc =>
    case StopGc =>
  }

  // While it is stopped a forced collection does nothing.
  lemma StoppedCollectsNothing(c: Config, totalBlocks: nat, trace: seq<Sim>, events: seq<Event>, i: nat)
    requires Run(c, totalBlocks, trace, events) && i < |events| && events[i].ForceGc?
    ensures LastControl(events[..i]) == Some(StopGc) ==>
      trace[i + 1] == trace[i] && events[i].reclaimed == 0 && !events[i].raised
  {
    StoppedExactly(c, totalBlocks, trace, events, i);
    assert Step(c, trace[i], events[i], trace[i + 1]);
  }

  // ---------------------------------------------------------------- when a write succeeds

  lemma RetrySucceedsExactly(c: Config, x: Sim, a: int, d: Bytes, out: WriteOutcome, y: Sim)
    requires SimInv(c, x) && a !in x.flash.l2p && Retry(c, x, a, d, out, y)
    requires |d| <= c.blockSize && x.flash.freePool == {}
    ensures out.Stored? <==> !x.gcState.Stopped? && SpaceAfterGc(c, x.flash)
  {
    GcKeeps(c, x);
    if !x.gcState.Stopped? {
      CollectMakesSpace(c, x.flash);
      CollectKeeps(c, x.flash);
    }
  }

  // A write of data that fits succeeds exactly when a block is free or, with the collector
  // not stopped, a cycle can free one: for a target below 1 that is any garbage block that
  // survives one more erase.
  lemma WriteSucceedsExactly(c: Config, x: Sim, d: Bytes, out: WriteOutcome, y: Sim)
    requires SimInv(c, x) && WriteStep(c, x, d, out, y)
    ensures out.Stored? <==>
      |d| <= c.blockSize && (x.flash.freePool != {} || (!x.gcState.Stopped? && SpaceAfterGc(c, x.flash)))
  {
    var a := x.nextAddress;
    var x1 := x.(nextAddress := a + 1);
    var s, r :| WriteBlock(c, x.flash, a, d, s, r) &&
      match r
      case TooLarge => out == Refused && y == x1.(flash := s)
      case Written(_) => Finish(c, x1.(flash := s), a, out, y)
      case NoSpace => Retry(c, x1.(flash := s), a, d, out, y);
    if r.NoSpace? {
      assert s == x.flash;
      RetrySucceedsExactly(c, x1, a, d, out, y);
    }
  }
}
