/**
The DirectFlash classes: block manager, wear leveling, garbage collector and simulator,
changing their fields in place.  Each method is proved to make exactly the change that
FlashModel, FlashMaintenance and FlashRuns describe, so every lemma there holds of them.
 */
module DirectFlash {
  import opened Common
  import opened FlashModel
  import opened FlashMaintenance
  import opened FlashRuns

  // What the statistics query reports.
  datatype Report = Report(
    totalBlocks: nat,
    counters: Stats,
    averageErase: real,
    maxErase: int,
    minErase: int,
    utilization: real)

  class BlockManager {
    const config: Config
    var blocks: seq<PhysicalBlock>
    var l2p: map<int, nat>
    var freePool: set<nat>
    var stats: Stats

    ghost function State(): Flash
      reads this
    {
      Flash(blocks, l2p, freePool, stats)
    }

    constructor (config: Config, totalBlocks: nat)
      ensures this.config == config && State() == Initial(totalBlocks) && Inv(config, State())
    {
      this.config := config;
      blocks := seq(totalBlocks, _ => Blank());
      l2p := map[];
      freePool := IdsBelow(totalBlocks);
      stats := Stats(totalBlocks, 0, 0, 0, 0, 0, 0);
      new;
      InitialInv(config, totalBlocks);
    }

    method LeastWorn() returns (p: nat)
      requires InBounds(State()) && freePool != {}
      ensures LeastWornFree(State(), p)
    {
      p :| p in freePool;
      var rest := freePool - {p};
      while rest != {}
        invariant rest <= freePool && p in freePool
        invariant forall q: nat | q in freePool && q !in rest :: blocks[p].eraseCount <= blocks[q].eraseCount
        decreases rest
      {
        var q :| q in rest;
        if blocks[q].eraseCount < blocks[p].eraseCount {
          p := q;
        }
        rest := rest - {q};
      }
    }

    method WriteBlock(a: int, d: Bytes) returns (r: WriteResult)
      requires InBounds(State())
      modifies this
      ensures FlashModel.WriteBlock(config, old(State()), a, d, State(), r)
    {
      if |d| > config.blockSize {
        return TooLarge;
      }
      if a in l2p {
        var p := l2p[a];
        blocks := blocks[p := blocks[p].(state := Invalid, logicalAddress := None)];
        stats := stats.(validBlocks := stats.validBlocks - 1, invalidBlocks := stats.invalidBlocks + 1);
      }
      if freePool == {} {
        return NoSpace;
      }
      var p := LeastWorn();
      freePool := freePool - {p};
      stats := stats.(freeBlocks := stats.freeBlocks - 1);
      blocks := blocks[p := blocks[p].(data := d, state := Valid, logicalAddress := Some(a))];
      l2p := l2p[a := p];
      stats := stats.(validBlocks := stats.validBlocks + 1, totalWrites := stats.totalWrites + 1);
      return Written(p);
    }

    method ReadBlock(a: int) returns (r: Option<Bytes>)
      requires InBounds(State())
      modifies this
      ensures r == FlashModel.ReadBlock(old(State()), a)
      ensures State() == if r.Some? then CountRead(old(State())) else old(State())
    {
      if a !in l2p {
        return None;
      }
      var b := blocks[l2p[a]];
      if b.state != Valid {
        return None;
      }
      stats := stats.(totalReads := stats.totalReads + 1);
      return Some(b.data);
    }

    method DeleteBlock(a: int) returns (found: bool)
      requires InBounds(State())
      modifies this
      ensures found <==> a in old(l2p)
      ensures State() == FlashModel.DeleteBlock(old(State()), a)
    {
      if a !in l2p {
        return false;
      }
      var p := l2p[a];
      blocks := blocks[p := blocks[p].(state := Invalid, logicalAddress := None)];
      l2p := l2p - {a};
      stats := stats.(validBlocks := stats.validBlocks - 1, invalidBlocks := stats.invalidBlocks + 1);
      return true;
    }

    // The code's two decrements of the invalid counter test the state after overwriting it
    // and never run, so they have no counterpart here.
    method EraseBlock(p: nat) returns (ok: bool)
      modifies this
      ensures State() == if p < |old(blocks)| then FlashModel.EraseBlock(config, old(State()), p) else old(State())
      ensures ok <==> p < |old(blocks)| && Survives(config, old(blocks)[p])
    {
      if p >= |blocks| || blocks[p].state == Bad {
        return false;
      }
      blocks := blocks[p := blocks[p].(eraseCount := blocks[p].eraseCount + 1)];
      if blocks[p].eraseCount >= config.maxErase {
        blocks := blocks[p := blocks[p].(state := Bad)];
        stats := stats.(badBlocks := stats.badBlocks + 1);
        return false;
      }
      blocks := blocks[p := blocks[p].(data := [], state := Free, logicalAddress := None)];
      stats := stats.(freeBlocks := stats.freeBlocks + 1, totalErases := stats.totalErases + 1);
      freePool := freePool + {p};
      return true;
    }

    method GetInvalidBlocks() returns (ids: seq<nat>)
      ensures ids == InvalidIds(blocks, 0)
    {
      ids := [];
      for p := 0 to |blocks|
        invariant ids + InvalidIds(blocks, p) == InvalidIds(blocks, 0)
      {
        ghost var rest := InvalidIds(blocks, p + 1);
        if blocks[p].state == Invalid {
          assert InvalidIds(blocks, p) == [p] + rest;
          assert ids + ([p] + rest) == (ids + [p]) + rest;
          ids := ids + [p];
        } else {
          assert InvalidIds(blocks, p) == rest;
        }
      }
    }

    // The largest and smallest counts of the statistics query.  It fails when no block is
    // usable, because it takes a minimum over the blocks that are not BAD.
    method WearRange() returns (r: Option<(int, int)>)
      ensures r.None? <==> AllBad(State())
      ensures r.Some? ==>
        && (forall i: nat | i < |blocks| :: blocks[i].eraseCount <= r.value.0)
        && (exists i: nat :: i < |blocks| && blocks[i].eraseCount == r.value.0)
        && (forall i: nat | i < |blocks| && !blocks[i].state.Bad? :: r.value.1 <= blocks[i].eraseCount)
        && (exists i: nat :: i < |blocks| && !blocks[i].state.Bad? && blocks[i].eraseCount == r.value.1)
    {
      var most: Option<int> := None;
      var least: Option<int> := None;
      for k := 0 to |blocks|
        invariant most.None? <==> k == 0
        invariant most.Some? ==>
          && (forall i: nat | i < k :: blocks[i].eraseCount <= most.value)
          && (exists i: nat :: i < k && blocks[i].eraseCount == most.value)
        invariant least.None? <==> forall i: nat | i < k :: blocks[i].state.Bad?
        invariant least.Some? ==>
          && (forall i: nat | i < k && !blocks[i].state.Bad? :: least.value <= blocks[i].eraseCount)
          && (exists i: nat :: i < k && !blocks[i].state.Bad? && blocks[i].eraseCount == least.value)
      {
        if most.None? || blocks[k].eraseCount > most.value {
          most := Some(blocks[k].eraseCount);
        }
        if blocks[k].state != Bad && (least.None? || blocks[k].eraseCount < least.value) {
          least := Some(blocks[k].eraseCount);
        }
      }
      if least.None? {
        return None;
      }
      return Some((most.value, least.value));
    }

    method TotalWear() returns (total: int)
      ensures total == Sum(Wear, blocks)
    {
      total := 0;
      for k := |blocks| downto 0
        invariant total == Sum(Wear, blocks[k..])
      {
        assert blocks[k..][1..] == blocks[k + 1..];
        total := total + blocks[k].eraseCount;
      }
      assert blocks[0..] == blocks;
    }

    // The statistics query.  The utilization it reports counts VALID blocks only.
    method GetStats() returns (r: Option<Report>)
      ensures r.None? <==> AllBad(State())
      ensures r.Some? ==> |blocks| > 0 && r.value.totalBlocks == |blocks| && r.value.counters == stats
      ensures r.Some? ==> r.value.averageErase == Sum(Wear, blocks) as real / |blocks| as real
      ensures r.Some? ==> r.value.utilization == stats.validBlocks as real / |blocks| as real
      ensures r.Some? ==>
        && (forall i: nat | i < |blocks| :: blocks[i].eraseCount <= r.value.maxErase)
        && (exists i: nat :: i < |blocks| && blocks[i].eraseCount == r.value.maxErase)
        && (forall i: nat | i < |blocks| && !blocks[i].state.Bad? :: r.value.minErase <= blocks[i].eraseCount)
        && (exists i: nat :: i < |blocks| && !blocks[i].state.Bad? && blocks[i].eraseCount == r.value.minErase)
    {
      hide Sum;
      var range := WearRange();
      if range.None? {
        return None;
      }
      var total := TotalWear();
      var size := |blocks| as real;
      return Some(Report(|blocks|, stats, total as real / size, range.value.0, range.value.1,
                         stats.validBlocks as real / size));
    }
  }

  class WearLeveling {
    const manager: BlockManager
    const threshold: int
    var blocksMoved: nat
    var writeCounts: map<int, nat>

    constructor (manager: BlockManager)
      ensures this.manager == manager && threshold == manager.config.threshold
      ensures blocksMoved == 0 && writeCounts == map[]
    {
      this.manager := manager;
      this.threshold := manager.config.threshold;
      blocksMoved := 0;
      writeCounts := map[];
    }

    method RecordWrite(a: int)
      modifies this
      ensures writeCounts == old(writeCounts)[a := (if a in old(writeCounts) then old(writeCounts)[a] else 0) + 1]
      ensures blocksMoved == old(blocksMoved)
    {
      writeCounts := writeCounts[a := (if a in writeCounts then writeCounts[a] else 0) + 1];
    }

    method ShouldLevel() returns (r: Option<bool>)
      ensures r.None? <==> AllBad(manager.State())
      ensures r.Some? ==> (r.value <==> WearGap(manager.State(), threshold))
    {
      var report := manager.GetStats();
      if report.None? {
        return None;
      }
      r := Some(report.value.maxErase - report.value.minErase > threshold);
    }

    // One scan in block order with a running most-worn VALID and least-worn FREE block.
    method FindCandidates() returns (r: Option<(nat, nat)>)
      ensures r.Some? ==> Candidates(manager.State(), threshold, r.value.0, r.value.1)
      ensures r.None? ==> Leveled(manager.State(), threshold)
    {
      var bs := manager.blocks;
      var src: Option<nat> := None;
      var dst: Option<nat> := None;
      for k := 0 to |bs|
        invariant src.None? <==> forall i: nat | i < k :: !bs[i].state.Valid?
        invariant src.Some? ==>
          && src.value < k && bs[src.value].state.Valid?
          && forall i: nat | i < k && bs[i].state.Valid? ::
               bs[i].eraseCount <= bs[src.value].eraseCount
               && (i < src.value ==> bs[i].eraseCount < bs[src.value].eraseCount)
        invariant dst.None? <==> forall i: nat | i < k :: !bs[i].state.Free?
        invariant dst.Some? ==>
          && dst.value < k && bs[dst.value].state.Free?
          && forall i: nat | i < k && bs[i].state.Free? ::
               bs[dst.value].eraseCount <= bs[i].eraseCount
               && (i < dst.value ==> bs[dst.value].eraseCount < bs[i].eraseCount)
      {
        if bs[k].state == Valid {
          if src.None? || bs[k].eraseCount > bs[src.value].eraseCount {
            src := Some(k);
          }
        } else if bs[k].state == Free {
          if dst.None? || bs[k].eraseCount < bs[dst.value].eraseCount {
            dst := Some(k);
          }
        }
      }
      if src.Some? && dst.Some? && bs[src.value].eraseCount - bs[dst.value].eraseCount > threshold {
        return Some((src.value, dst.value));
      }
      return None;
    }

    method LevelBlock(src: nat, dst: nat) returns (ok: bool)
      modifies this, manager
      ensures ok <==> src < |old(manager.blocks)| && dst < |old(manager.blocks)|
                      && old(manager.blocks)[src].state.Valid? && old(manager.blocks)[dst].state.Free?
      ensures manager.State() == if ok then FlashMaintenance.LevelBlock(old(manager.State()), src, dst) else old(manager.State())
      ensures blocksMoved == old(blocksMoved) + (if ok then 1 else 0) && writeCounts == old(writeCounts)
    {
      if src >= |manager.blocks| || dst >= |manager.blocks| {
        return false;
      }
      var source := manager.blocks[src];
      if source.state != Valid || manager.blocks[dst].state != Free {
        return false;
      }
      manager.blocks := manager.blocks[dst := manager.blocks[dst].(data := source.data, state := Valid,
                                                                   logicalAddress := source.logicalAddress)];
      if source.logicalAddress != None {
        manager.l2p := manager.l2p[source.logicalAddress.value := dst];
      }
      manager.blocks := manager.blocks[src := source.(state := Invalid, logicalAddress := None)];
      manager.freePool := manager.freePool - {dst};
      manager.stats := manager.stats.(freeBlocks := manager.stats.freeBlocks - 1,
                                      invalidBlocks := manager.stats.invalidBlocks + 1);
      blocksMoved := blocksMoved + 1;
      return true;
    }

    // One round of the pass: move the data, then erase the block it came from.  The move
    // cannot fail, since the pair was just found.
    method MoveOne(src: nat, dst: nat)
      requires threshold == manager.config.threshold && Candidates(manager.State(), threshold, src, dst)
      modifies this, manager
      ensures Round(manager.config, old(manager.State()), manager.State())
      ensures writeCounts == old(writeCounts) && blocksMoved == old(blocksMoved) + 1
    {
      var ok := LevelBlock(src, dst);
      var _ := manager.EraseBlock(src);
      assert manager.State() == MoveAndErase(manager.config, old(manager.State()), src, dst);
    }

    // None when the statistics query fails.  The loop ends for every threshold: each round
    // uses up one of the erases the flash has left.
    method RunLevelingPass() returns (moved: Option<nat>)
      requires threshold == manager.config.threshold && Inv(manager.config, manager.State())
      modifies this, manager
      ensures moved.None? <==> AllBad(old(manager.State()))
      ensures moved.None? ==> manager.State() == old(manager.State())
      ensures moved.Some? ==> LevelingPass(manager.config, old(manager.State()), moved.value, manager.State())
      ensures Inv(manager.config, manager.State()) && View(manager.State()) == View(old(manager.State()))
      ensures writeCounts == old(writeCounts)
      ensures blocksMoved == old(blocksMoved) + if moved.Some? then moved.value else 0
    {
      hide Inv; hide Round; hide Leveled; hide WearGap; hide AllBad; hide Sum;
      var should := ShouldLevel();
      if should.None? {
        return None;
      }
      if !should.value {
        return Some(0);
      }
      var count := 0;
      ghost var trace := [manager.State()];
      while true
        invariant Rounds(manager.config, trace) && |trace| == count + 1
        invariant trace[0] == old(manager.State()) && trace[count] == manager.State()
        invariant Inv(manager.config, manager.State()) && |manager.blocks| == |old(manager.blocks)|
        invariant writeCounts == old(writeCounts) && blocksMoved == old(blocksMoved) + count
        decreases Endurable(manager.config, manager.State()) - Sum(Wear, manager.blocks)
      {
        var pair := FindCandidates();
        if pair.None? {
          break;
        }
        ghost var before := manager.State();
        MoveOne(pair.value.0, pair.value.1);
        count := count + 1;
        RoundKeeps(manager.config, before, manager.State());
        WearBounded(manager.config, manager.State());
        trace := trace + [manager.State()];
      }
      moved := Some(count);
      LevelingPassKeeps(manager.config, old(manager.State()), count, manager.State());
    }
  }

  class GarbageCollector {
    const manager: BlockManager
    var state: GcState
    var hasTask: bool
    var gcRuns: nat
    var blocksReclaimed: nat
    var bytesReclaimed: int

    constructor (manager: BlockManager)
      ensures this.manager == manager && state == Idle && !hasTask
      ensures gcRuns == 0 && blocksReclaimed == 0 && bytesReclaimed == 0
    {
      this.manager := manager;
      state := Idle;
      hasTask := false;
      gcRuns, blocksReclaimed, bytesReclaimed := 0, 0, 0;
    }

    method StartBackground()
      modifies this
      ensures hasTask && state == if old(hasTask) then old(state) else Idle
    {
      if hasTask {
        return;
      }
      state := Idle;
      hasTask := true;
    }

    method StopBackground()
      modifies this
      ensures state == Stopped && !hasTask
    {
      state := Stopped;
      hasTask := false;
    }

    method ReclaimOne(q: nat) returns (gain: nat)
      requires q < |manager.blocks|
      modifies this, manager
      ensures manager.State() == SweepOne(manager.config, old(manager.State()), q)
      ensures gain == if old(manager.blocks)[q].state.Invalid? && Survives(manager.config, old(manager.blocks)[q]) then 1 else 0
      ensures state == old(state) && hasTask == old(hasTask) && gcRuns == old(gcRuns)
      ensures blocksReclaimed == old(blocksReclaimed) + gain
      ensures bytesReclaimed == old(bytesReclaimed) + gain * manager.config.blockSize
    {
      gain := 0;
      if manager.blocks[q].state == Invalid {
        var ok := manager.EraseBlock(q);
        if ok {
          gain := 1;
          blocksReclaimed := blocksReclaimed + 1;
          bytesReclaimed := bytesReclaimed + manager.config.blockSize;
        }
      }
    }

    // A raised cycle is one whose statistics query failed; its reclaimed blocks are still
    // counted and the collector stays RUNNING.
    method RunGcCycle() returns (reclaimed: nat, raised: bool)
      modifies this, manager
      ensures old(state) == Stopped ==> state == Stopped && manager.State() == old(manager.State())
                                        && reclaimed == 0 && !raised
      ensures old(state) != Stopped ==>
        && GcOutcome(manager.State(), reclaimed, raised) == Collect(manager.config, old(manager.State()))
        && state == (if raised then Running else Idle)
      ensures hasTask == old(hasTask)
      ensures gcRuns == old(gcRuns) + if old(state) == Stopped || raised then 0 else 1
      ensures blocksReclaimed == old(blocksReclaimed) + reclaimed
      ensures bytesReclaimed == old(bytesReclaimed) + reclaimed * manager.config.blockSize
    {
      if state == Stopped {
        return 0, false;
      }
      state := Running;
      var ids := manager.GetInvalidBlocks();
      reclaimed, raised := SweepBlocks(ids);
      if !raised {
        gcRuns := gcRuns + 1;
        state := Idle;
      }
    }

    // The loop of a cycle.
    method SweepBlocks(ids: seq<nat>) returns (reclaimed: nat, raised: bool)
      requires forall k | 0 <= k < |ids| :: ids[k] < |manager.blocks|
      modifies this, manager
      ensures GcOutcome(manager.State(), reclaimed, raised) == Sweep(manager.config, old(manager.State()), ids)
      ensures state == old(state) && hasTask == old(hasTask) && gcRuns == old(gcRuns)
      ensures blocksReclaimed == old(blocksReclaimed) + reclaimed
      ensures bytesReclaimed == old(bytesReclaimed) + reclaimed * manager.config.blockSize
    {
      hide AllBad; hide Utilization; hide Survives; hide SweepOne;
      reclaimed, raised := 0, false;
      ghost var goal := Sweep(manager.config, manager.State(), ids);
      var k := 0;
      while k < |ids|
        invariant k <= |ids| && |manager.blocks| == |old(manager.blocks)|
        invariant state == old(state) && hasTask == old(hasTask) && gcRuns == old(gcRuns)
        invariant var rest := Sweep(manager.config, manager.State(), ids[k..]);
          goal == rest.(reclaimed := rest.reclaimed + reclaimed)
        invariant blocksReclaimed == old(blocksReclaimed) + reclaimed
        invariant bytesReclaimed == old(bytesReclaimed) + reclaimed * manager.config.blockSize
      {
        SweepTurn(manager.config, manager.State(), ids[k..]);
        assert ids[k..][1..] == ids[k + 1..];
        var gain := ReclaimOne(ids[k]);
        Distribute(reclaimed, gain, manager.config.blockSize);
        reclaimed := reclaimed + gain;
        var utilization := GetUtilization();
        if utilization.None? {
          return reclaimed, true;
        }
        if utilization.value <= manager.config.gcTarget {
          return reclaimed, false;
        }
        k := k + 1;
      }
    }

    lemma Distribute(n: int, m: int, size: int)
      ensures (n + m) * size == n * size + m * size
    {
    }

    // Fails with the statistics query it is taken from.
    method GetUtilization() returns (u: Option<real>)
      ensures u.None? <==> AllBad(manager.State())
      ensures u.Some? ==> |manager.blocks| > 0 && u.value == Utilization(manager.State())
    {
      var report := manager.GetStats();
      if report.None? {
        return None;
      }
      u := Some((report.value.totalBlocks - report.value.counters.freeBlocks) as real / report.value.totalBlocks as real);
    }
  }

  class DirectFlashSimulator {
    const manager: BlockManager
    const leveling: WearLeveling
    const collector: GarbageCollector
    var nextAddress: int

    ghost function State(): Sim
      reads this, manager, collector
    {
      Sim(manager.State(), collector.state, collector.hasTask, nextAddress)
    }

    ghost predicate Consistent()
      reads this, manager, collector
    {
      && leveling.manager == manager && collector.manager == manager
      && leveling.threshold == manager.config.threshold
      && SimInv(manager.config, State())
    }

    constructor (config: Config, totalBlocks: nat)
      ensures Consistent() && manager.config == config && State() == Start(totalBlocks)
      ensures fresh(manager) && fresh(leveling) && fresh(collector)
    {
      var m := new BlockManager(config, totalBlocks);
      var l := new WearLeveling(m);
      var g := new GarbageCollector(m);
      manager, leveling, collector := m, l, g;
      nextAddress := 0;
    }

    method Write(data: Bytes) returns (out: WriteOutcome)
      requires Consistent()
      modifies this, manager, leveling, collector
      ensures Consistent() && Step(manager.config, old(State()), Event.Write(data, out), State())
    {
      hide Inv; hide Finish; hide Retry; hide View; hide Step; hide FlashModel.WriteBlock;
      InvBounds(manager.config, manager.State());
      var a := nextAddress;
      nextAddress := a + 1;
      var r := manager.WriteBlock(a, data);
      ghost var c, x1 := manager.config, old(State()).(nextAddress := a + 1);
      ghost var s1 := manager.State();
      if r.TooLarge? {
        out := Refused;
      } else {
        AttemptKeeps(c, x1, a, data, s1, r);
        if r.Written? {
          FinishWrite(a);
          out := Stored(a);
        } else {
          out := RetryWrite(a, data);
        }
      }
      WriteIsStep(c, old(State()), data, s1, r, out, State());
    }

    method FinishWrite(a: int)
      requires Consistent()
      modifies manager, leveling
      ensures Finish(manager.config, old(State()), a, Stored(a), State())
      ensures leveling.writeCounts ==
        old(leveling.writeCounts)[a := (if a in old(leveling.writeCounts) then old(leveling.writeCounts)[a] else 0) + 1]
    {
      hide Inv; hide View; hide Leveled;
      leveling.RecordWrite(a);
      var should := leveling.ShouldLevel();
      if should == Some(true) {
        var moved := leveling.RunLevelingPass();
        assert LevelingPass(manager.config, old(manager.State()), moved.value, manager.State());
      } else {
        assert LevelingPass(manager.config, old(manager.State()), 0, manager.State());
      }
    }

    method RetryWrite(a: int, data: Bytes) returns (out: WriteOutcome)
      requires Consistent() && a !in manager.l2p && a < nextAddress && |data| <= manager.config.blockSize
      modifies manager, leveling, collector
      ensures Retry(manager.config, old(State()), a, data, out, State())
    {
      hide Inv; hide Finish; hide View; hide FlashModel.WriteBlock; hide Collect;
      var _, raised := collector.RunGcCycle();
      ghost var c := manager.config;
      assert RunGc(c, old(State())).sim == State() && RunGc(c, old(State())).raised == raised;
      if raised {
        return StatsFailed;
      }
      GcKeeps(c, old(State()));
      InvBounds(c, manager.State());
      ghost var g := State();
      var r := manager.WriteBlock(a, data);
      ghost var s := manager.State();
      AttemptKeeps(c, g, a, data, s, r);
      if r.Written? {
        FinishWrite(a);
        out := Stored(a);
      } else {
        out := Full;
      }
    }

    method Read(a: int) returns (r: Option<Bytes>)
      requires Consistent()
      modifies manager
      ensures Consistent() && Step(manager.config, old(State()), Event.Read(a, r), State())
    {
      r := manager.ReadBlock(a);
      StepRefines(manager.config, old(State()), Event.Read(a, r), State());
    }

    method Delete(a: int) returns (found: bool)
      requires Consistent()
      modifies manager
      ensures Consistent() && Step(manager.config, old(State()), Event.Delete(a, found), State())
    {
      found := manager.DeleteBlock(a);
      StepRefines(manager.config, old(State()), Event.Delete(a, found), State());
    }

    method ForceGc() returns (reclaimed: nat, raised: bool)
      requires Consistent()
      modifies manager, collector
      ensures Consistent() && Step(manager.config, old(State()), Event.ForceGc(reclaimed, raised), State())
    {
      reclaimed, raised := collector.RunGcCycle();
      StepRefines(manager.config, old(State()), Event.ForceGc(reclaimed, raised), State());
    }

    method ForceWearLeveling() returns (moved: Option<nat>)
      requires Consistent()
      modifies manager, leveling
      ensures Consistent() && Step(manager.config, old(State()), Event.ForceLeveling(moved), State())
    {
      moved := leveling.RunLevelingPass();
      StepRefines(manager.config, old(State()), Event.ForceLeveling(moved), State());
    }
  }
}
