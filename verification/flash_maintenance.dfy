/** Wear leveling and garbage collection over the flash model. */
module FlashMaintenance {
  import opened Common
  import opened FlashModel

  // ---------------------------------------------------------------- wear leveling

  // The pair a scan in block order ends with: the first most-worn VALID block and the
  // first least-worn FREE block, when their wear differs by more than the threshold.
  ghost predicate Candidates(s: Flash, threshold: int, src: nat, dst: nat) {
    && src < |s.blocks| && dst < |s.blocks|
    && s.blocks[src].state.Valid? && s.blocks[dst].state.Free?
    && (forall i: nat | i < |s.blocks| && s.blocks[i].state.Valid? ::
          s.blocks[i].eraseCount <= s.blocks[src].eraseCount
          && (i < src ==> s.blocks[i].eraseCount < s.blocks[src].eraseCount))
    && (forall i: nat | i < |s.blocks| && s.blocks[i].state.Free? ::
          s.blocks[dst].eraseCount <= s.blocks[i].eraseCount
          && (i < dst ==> s.blocks[dst].eraseCount < s.blocks[i].eraseCount))
    && s.blocks[src].eraseCount - s.blocks[dst].eraseCount > threshold
  }

  // No VALID block is worn more than `threshold` beyond any FREE block.
  ghost predicate Leveled(s: Flash, threshold: int) {
    forall i: nat, j: nat | i < |s.blocks| && j < |s.blocks| && s.blocks[i].state.Valid? && s.blocks[j].state.Free? ::
      s.blocks[i].eraseCount - s.blocks[j].eraseCount <= threshold
  }

  // The largest count over all blocks exceeds the smallest over the usable ones by more
  // than the threshold.
  ghost predicate WearGap(s: Flash, threshold: int) {
    exists i: nat, j: nat ::
      && i < |s.blocks| && j < |s.blocks| && !s.blocks[j].state.Bad?
      && s.blocks[i].eraseCount - s.blocks[j].eraseCount > threshold
  }

  function LevelBlock(s: Flash, src: nat, dst: nat): Flash
    requires src < |s.blocks| && dst < |s.blocks|
  {
    if s.blocks[src].state.Valid? && s.blocks[dst].state.Free? then
      var b := s.blocks[src];
      s.(blocks := s.blocks[dst := s.blocks[dst].(state := Valid, data := b.data, logicalAddress := b.logicalAddress)]
                           [src := b.(state := Invalid, logicalAddress := None)],
         l2p := if b.logicalAddress.Some? then s.l2p[b.logicalAddress.value := dst] else s.l2p,
         freePool := s.freePool - {dst},
         stats := s.stats.(freeBlocks := s.stats.freeBlocks - 1, invalidBlocks := s.stats.invalidBlocks + 1))
    else s
  }

  function MoveAndErase(c: Config, s: Flash, src: nat, dst: nat): Flash
    requires src < |s.blocks| && dst < |s.blocks|
  {
    EraseBlock(c, LevelBlock(s, src, dst), src)
  }

  // One round: find candidates, move, erase the source.
  ghost predicate Round(c: Config, s: Flash, s': Flash) {
    exists src, dst :: Candidates(s, c.threshold, src, dst) && s' == MoveAndErase(c, s, src, dst)
  }

  // A run of rounds, given by the states it goes through.
  ghost predicate Rounds(c: Config, trace: seq<Flash>) {
    |trace| >= 1 && forall i | 0 <= i < |trace| - 1 :: Round(c, trace[i], trace[i + 1])
  }

  // One leveling pass: nothing without a wear gap, otherwise rounds until no pair is left.
  ghost predicate LevelingPass(c: Config, s: Flash, n: nat, s': Flash) {
    if WearGap(s, c.threshold) then
      && Leveled(s', c.threshold)
      && exists trace :: Rounds(c, trace) && |trace| == n + 1 && trace[0] == s && trace[n] == s'
    else n == 0 && s' == s
  }

  // Moving a VALID block's contents into a FREE one keeps the mapping and the view.
  lemma LevelMapping(s: Flash, src: nat, dst: nat)
    requires Mapping(s) && src < |s.blocks| && dst < |s.blocks|
    requires s.blocks[src].state.Valid? && s.blocks[dst].state.Free?
    ensures Mapping(LevelBlock(s, src, dst)) && View(LevelBlock(s, src, dst)) == View(s)
    ensures LevelBlock(s, src, dst).l2p.Keys == s.l2p.Keys
  {
    var t := LevelBlock(s, src, dst);
    assert forall q: nat | q < |s.blocks| && q != src && q != dst :: t.blocks[q] == s.blocks[q];
    assert t.l2p.Keys == s.l2p.Keys;
    assert Mapping(t);
    ViewUnderMapping(s);
    SameView(t, View(s));
  }

  lemma LevelCounted(c: Config, s: Flash, src: nat, dst: nat)
    requires Counted(c, s) && src < |s.blocks| && dst < |s.blocks|
    requires s.blocks[src].state.Valid? && s.blocks[dst].state.Free? && dst in s.freePool
    requires LevelBlock(s, src, dst).l2p.Keys == s.l2p.Keys
    ensures var t := LevelBlock(s, src, dst);
      && Counted(c, t)
      && Sum(Wear, t.blocks) == Sum(Wear, s.blocks)
      && Sum(ValidWear, t.blocks) == Sum(ValidWear, s.blocks) - s.blocks[src].eraseCount + s.blocks[dst].eraseCount
  {
    hide Sum;
    var t := LevelBlock(s, src, dst);
    var half := s.(blocks := s.blocks[dst := t.blocks[dst]]);
    SumsAfter(s, dst, t.blocks[dst]);
    SumsAfter(half, src, t.blocks[src]);
    assert |t.l2p| == |t.l2p.Keys| == |s.l2p.Keys| == |s.l2p|;
  }

  // Moving keeps the invariant and the view and takes the wear gap out of the total wear
  // of the VALID blocks.
  lemma LevelKeeps(c: Config, s: Flash, src: nat, dst: nat)
    requires Inv(c, s) && src < |s.blocks| && dst < |s.blocks|
    requires s.blocks[src].state.Valid? && s.blocks[dst].state.Free?
    ensures var t := LevelBlock(s, src, dst);
      && Inv(c, t) && View(t) == View(s)
      && Sum(Wear, t.blocks) == Sum(Wear, s.blocks)
      && Sum(ValidWear, t.blocks) == Sum(ValidWear, s.blocks) - s.blocks[src].eraseCount + s.blocks[dst].eraseCount
  {
    LevelMapping(s, src, dst);
    LevelCounted(c, s, src, dst);
  }

  // One round keeps the invariant and the view, adds one erase, and lowers the total wear
  // of the VALID blocks by more than the threshold.
  lemma RoundKeeps(c: Config, s: Flash, s': Flash)
    requires Inv(c, s) && Round(c, s, s')
    ensures Inv(c, s') && View(s') == View(s) && |s'.blocks| == |s.blocks|
    ensures Sum(Wear, s'.blocks) == Sum(Wear, s.blocks) + 1
    ensures Sum(ValidWear, s'.blocks) + c.threshold + 1 <= Sum(ValidWear, s.blocks)
    ensures SameTraffic(s, s')
  {
    var src: nat, dst: nat :| Candidates(s, c.threshold, src, dst) && s' == MoveAndErase(c, s, src, dst);
    var t := LevelBlock(s, src, dst);
    assert t.blocks[src].state.Invalid? && |t.blocks| == |s.blocks|;
    assert s' == EraseBlock(c, t, src) && |s'.blocks| == |s.blocks|;
    assert s.blocks[src].eraseCount - s.blocks[dst].eraseCount > c.threshold;
    assert s.blocks[src].state.Valid? && s.blocks[dst].state.Free?;
    assert SameTraffic(s, s');
    hide *;
    LevelKeeps(c, s, src, dst);
    EraseKeeps(c, t, src);
  }

  lemma {:induction false} RoundsKeep(c: Config, trace: seq<Flash>)
    requires Rounds(c, trace) && Inv(c, trace[0])
    ensures var n := |trace| - 1;
      && Inv(c, trace[n]) && View(trace[n]) == View(trace[0]) && |trace[n].blocks| == |trace[0].blocks|
      && Sum(Wear, trace[n].blocks) == Sum(Wear, trace[0].blocks) + n
      && Sum(ValidWear, trace[n].blocks) + n * (c.threshold + 1) <= Sum(ValidWear, trace[0].blocks)
      && SameTraffic(trace[0], trace[n])
  {
    hide Inv; hide Round; hide View; hide Sum;
    var n := |trace| - 1;
    if n > 0 {
      RoundsKeep(c, trace[..n]);
      RoundKeeps(c, trace[n - 1], trace[n]);
      assert n * (c.threshold + 1) == (n - 1) * (c.threshold + 1) + c.threshold + 1;
    }
  }

  ghost function Endurable(c: Config, s: Flash): int {
    (if c.maxErase > 1 then c.maxErase else 1) * |s.blocks|
  }

  // However the threshold is set, a run of rounds is bounded by the erases the flash has left.
  lemma WearBounded(c: Config, s: Flash)
    requires Inv(c, s)
    ensures 0 <= Sum(Wear, s.blocks) <= Endurable(c, s)
    ensures 0 <= Sum(ValidWear, s.blocks)
  {
    var cap := if c.maxErase > 1 then c.maxErase else 1;
    SumBounds(Wear, s.blocks, cap);
    SumBounds(ValidWear, s.blocks, cap);
  }

  // Without a wear gap every VALID block is already close enough to every FREE one.
  lemma NoGapIsLeveled(s: Flash, threshold: int)
    ensures !WearGap(s, threshold) ==> Leveled(s, threshold)
  {
  }

  // A whole pass: the view is untouched, the pass ends leveled whether or not it moved
  // anything, the moves are bounded by the VALID wear it started with, and by the
  // erases left, so it ends for negative thresholds too.
  lemma LevelingPassKeeps(c: Config, s: Flash, n: nat, s': Flash)
    requires Inv(c, s) && LevelingPass(c, s, n, s')
    ensures Inv(c, s') && View(s') == View(s) && |s'.blocks| == |s.blocks|
    ensures Leveled(s', c.threshold) && SameTraffic(s, s')
    ensures n * (c.threshold + 1) <= Sum(ValidWear, s.blocks) - Sum(ValidWear, s'.blocks)
    ensures 0 <= Sum(ValidWear, s'.blocks)
    ensures n <= Endurable(c, s) - Sum(Wear, s.blocks) && Sum(Wear, s'.blocks) == Sum(Wear, s.blocks) + n
  {
    if WearGap(s, c.threshold) {
      var trace :| Rounds(c, trace) && |trace| == n + 1 && trace[0] == s && trace[n] == s';
      RoundsKeep(c, trace);
    } else {
      NoGapIsLeveled(s, c.threshold);
    }
    WearBounded(c, s);
    WearBounded(c, s');
  }

  // ---------------------------------------------------------------- garbage collection

  datatype GcOutcome = GcOutcome(flash: Flash, reclaimed: nat, raised: bool)

  // The garbage blocks numbered `from` and up, in block order.
  function InvalidIds(bs: seq<PhysicalBlock>, from: nat): (ids: seq<nat>)
    requires from <= |bs|
    ensures forall k | 0 <= k < |ids| :: from <= ids[k] < |bs|
    ensures forall k, l | 0 <= k < l < |ids| :: ids[k] < ids[l]
    ensures forall p: nat | from <= p < |bs| :: bs[p].state.Invalid? <==> p in ids
    decreases |bs| - from
  {
    if from == |bs| then []
    else (if bs[from].state.Invalid? then [from] else []) + InvalidIds(bs, from + 1)
  }

  // The statistics query takes a minimum over the usable blocks and fails if there are none.
  ghost predicate AllBad(s: Flash) {
    forall p: nat | p < |s.blocks| :: s.blocks[p].state.Bad?
  }

  function Utilization(s: Flash): real
    requires |s.blocks| > 0
  {
    (|s.blocks| - s.stats.freeBlocks) as real / |s.blocks| as real
  }

  // Erase the listed blocks that are still garbage, until the target is met or the
  // statistics query fails.
  ghost function Sweep(c: Config, s: Flash, ids: seq<nat>): (o: GcOutcome)
    requires forall k | 0 <= k < |ids| :: ids[k] < |s.blocks|
    ensures |o.flash.blocks| == |s.blocks|
    decreases |ids|
  {
    if |ids| == 0 then GcOutcome(s, 0, false)
    else
      var b := s.blocks[ids[0]];
      var t := SweepOne(c, s, ids[0]);
      var gain := if b.state.Invalid? && Survives(c, b) then 1 else 0;
      if AllBad(t) then GcOutcome(t, gain, true)
      else if Utilization(t) <= c.gcTarget then GcOutcome(t, gain, false)
      else
        var rest := Sweep(c, t, ids[1..]);
        rest.(reclaimed := rest.reclaimed + gain)
  }

  // One turn of the sweep, spelled out for the loop that performs it.
  lemma SweepTurn(c: Config, s: Flash, ids: seq<nat>)
    requires |ids| > 0 && forall k | 0 <= k < |ids| :: ids[k] < |s.blocks|
    ensures var t := SweepOne(c, s, ids[0]);
      var gain := if s.blocks[ids[0]].state.Invalid? && Survives(c, s.blocks[ids[0]]) then 1 else 0;
      Sweep(c, s, ids) ==
        if AllBad(t) then GcOutcome(t, gain, true)
        else if Utilization(t) <= c.gcTarget then GcOutcome(t, gain, false)
        else Sweep(c, t, ids[1..]).(reclaimed := Sweep(c, t, ids[1..]).reclaimed + gain)
  {
  }

  ghost function Collect(c: Config, s: Flash): GcOutcome {
    Sweep(c, s, InvalidIds(s.blocks, 0))
  }

  // One position of the sweep: erase the block if it is still garbage.
  function SweepOne(c: Config, s: Flash, q: nat): (t: Flash)
    requires q < |s.blocks|
    ensures |t.blocks| == |s.blocks| && t.l2p == s.l2p
  {
    if s.blocks[q].state.Invalid? then EraseBlock(c, s, q) else s
  }

  lemma SweepOneKeeps(c: Config, s: Flash, q: nat)
    requires Inv(c, s) && q < |s.blocks|
    ensures var t := SweepOne(c, s, q);
      && Inv(c, t) && View(t) == View(s)
      && (SpaceWithin(c, t) <==> SpaceWithin(c, s))
      && (forall p: nat | p < |s.blocks| && t.blocks[p].state.Invalid? :: p != q && s.blocks[p].state.Invalid?)
      && SameTraffic(s, t)
      && t.stats.totalErases == s.stats.totalErases
           + (if s.blocks[q].state.Invalid? && Survives(c, s.blocks[q]) then 1 else 0)
  {
    if s.blocks[q].state.Invalid? {
      EraseKeeps(c, s, q);
      SpaceAfterErase(c, s, q, SweepOne(c, s, q));
    }
  }

  lemma {:induction false} SweepKeeps(c: Config, s: Flash, ids: seq<nat>)
    requires Inv(c, s) && forall k | 0 <= k < |ids| :: ids[k] < |s.blocks|
    ensures var o := Sweep(c, s, ids);
      && Inv(c, o.flash) && View(o.flash) == View(s)
      && o.flash.stats.totalErases == s.stats.totalErases + o.reclaimed
      && o.flash.l2p == s.l2p && SameTraffic(s, o.flash)
      && (o.raised ==> AllBad(o.flash))
    decreases |ids|
  {
    hide Inv; hide View; hide SweepOne; hide AllBad; hide Utilization; hide Survives;
    if |ids| > 0 {
      var t := SweepOne(c, s, ids[0]);
      SweepOneKeeps(c, s, ids[0]);
      if !AllBad(t) && Utilization(t) > c.gcTarget {
        SweepKeeps(c, t, ids[1..]);
      }
    }
  }

  // A whole cycle is invisible to readers and reclaims exactly the erases it counts.
  lemma CollectKeeps(c: Config, s: Flash)
    requires Inv(c, s)
    ensures var o := Collect(c, s);
      && Inv(c, o.flash) && View(o.flash) == View(s)
      && o.flash.stats.totalErases == s.stats.totalErases + o.reclaimed
      && o.flash.l2p == s.l2p && SameTraffic(s, o.flash)
      && (o.raised ==> o.flash.freePool == {})
  {
    SweepKeeps(c, s, InvalidIds(s.blocks, 0));
    var t := Collect(c, s).flash;
    assert AllBad(t) ==> forall p: nat :: p !in t.freePool;
  }

  ghost predicate SpaceWithin(c: Config, s: Flash) {
    || s.freePool != {}
    || exists p: nat :: p < |s.blocks| && s.blocks[p].state.Invalid? && Survives(c, s.blocks[p])
  }

  lemma FractionBelowOne(total: int, free: int)
    requires total > 0
    ensures (total - free) as real / total as real < 1.0 <==> free > 0
    ensures (total - free) as real / total as real <= 1.0 <==> free >= 0
  {
    var q, n := (total - free) as real / total as real, total as real;
    assert q * n == (total - free) as real;
    ScaledOrder(q, 1.0, n);
    ScaledOrder(1.0, q, n);
    assert 1.0 * n == n && (total - free) as real == n - free as real;
    assert (free as real <= 0.0 <==> free <= 0) && (0.0 <= free as real <==> 0 <= free);
  }

  // Below full utilization some block is free.
  lemma BelowFull(c: Config, s: Flash)
    requires Inv(c, s) && |s.blocks| > 0 && Utilization(s) < 1.0
    ensures s.freePool != {}
  {
    FractionBelowOne(|s.blocks|, s.stats.freeBlocks);
    assert |s.freePool| > 0;
  }

  // With a target below 1 a sweep over all the garbage leaves a free block exactly when
  // there was one, or some garbage block could survive one more erase.
  lemma {:induction false} SweepMakesSpace(c: Config, s: Flash, ids: seq<nat>)
    requires Inv(c, s) && c.gcTarget < 1.0
    requires forall k | 0 <= k < |ids| :: ids[k] < |s.blocks|
    requires forall p: nat | p < |s.blocks| && s.blocks[p].state.Invalid? :: p in ids
    ensures Sweep(c, s, ids).flash.freePool != {} <==> SpaceWithin(c, s)
    decreases |ids|
  {
    hide Inv; hide View; hide SweepOne; hide SpaceWithin; hide Survives; hide AllBad;
    if |ids| > 0 {
      var t := SweepOne(c, s, ids[0]);
      SweepOneKeeps(c, s, ids[0]);
      if AllBad(t) {
        AllBadHasNoSpace(c, t);
      } else if Utilization(t) <= c.gcTarget {
        BelowFull(c, t);
        FreeIsSpace(c, t);
      } else {
        assert forall p: nat | p < |t.blocks| && t.blocks[p].state.Invalid? :: p in ids[1..];
        SweepMakesSpace(c, t, ids[1..]);
      }
    } else {
      NoGarbageNoGain(c, s);
    }
  }

  lemma FreeIsSpace(c: Config, s: Flash)
    requires s.freePool != {}
    ensures SpaceWithin(c, s)
  {
  }

  lemma NoGarbageNoGain(c: Config, s: Flash)
    requires forall p: nat | p < |s.blocks| :: !s.blocks[p].state.Invalid?
    ensures SpaceWithin(c, s) <==> s.freePool != {}
  {
  }

  lemma AllBadHasNoSpace(c: Config, s: Flash)
    requires Inv(c, s) && AllBad(s)
    ensures s.freePool == {} && !SpaceWithin(c, s)
  {
    assert forall p: nat :: p !in s.freePool;
  }

  lemma SpaceAfterErase(c: Config, s: Flash, q: nat, t: Flash)
    requires Inv(c, s) && q < |s.blocks|
    requires t == if s.blocks[q].state.Invalid? then EraseBlock(c, s, q) else s
    ensures SpaceWithin(c, t) <==> SpaceWithin(c, s)
  {
    if s.blocks[q].state.Invalid? {
      assert t.blocks[q].state.Free? || t.blocks[q].state.Bad?;
      assert forall p: nat | p < |s.blocks| && p != q :: t.blocks[p] == s.blocks[p];
      if Survives(c, s.blocks[q]) {
        assert q in t.freePool;
      } else {
        assert t.freePool == s.freePool;
      }
    }
  }

  // What one cycle can do for a write that found no free block.  A target of 1 or more is
  // met after the first erase, so only the first garbage block counts then.
  ghost predicate SpaceAfterGc(c: Config, s: Flash) {
    if c.gcTarget < 1.0 then SpaceWithin(c, s)
    else
      var ids := InvalidIds(s.blocks, 0);
      s.freePool != {} || (|ids| > 0 && Survives(c, s.blocks[ids[0]]))
  }

  // A cycle leaves a free block exactly when the starting state says so.
  lemma CollectMakesSpace(c: Config, s: Flash)
    requires Inv(c, s)
    ensures Collect(c, s).flash.freePool != {} <==> SpaceAfterGc(c, s)
  {
    if c.gcTarget < 1.0 {
      SweepMakesSpace(c, s, InvalidIds(s.blocks, 0));
    } else {
      FullTargetStopsEarly(c, s);
    }
  }

  lemma UtilizationAtMostOne(c: Config, s: Flash)
    requires Inv(c, s) && |s.blocks| > 0
    ensures Utilization(s) <= 1.0
  {
    FractionBelowOne(|s.blocks|, s.stats.freeBlocks);
  }

  lemma SweepOneFrees(c: Config, s: Flash, q: nat)
    requires q < |s.blocks| && s.blocks[q].state.Invalid?
    ensures SweepOne(c, s, q).freePool == s.freePool + (if Survives(c, s.blocks[q]) then {q} else {})
  {
  }

  lemma FullTargetStopsEarly(c: Config, s: Flash)
    requires Inv(c, s) && c.gcTarget >= 1.0
    ensures var ids := InvalidIds(s.blocks, 0);
      && Collect(c, s).flash == (if |ids| > 0 then SweepOne(c, s, ids[0]) else s)
      && (Collect(c, s).flash.freePool != {} <==> SpaceAfterGc(c, s))
  {
    hide Inv; hide View; hide SpaceWithin; hide SweepOne; hide Utilization; hide Survives;
    var ids := InvalidIds(s.blocks, 0);
    if |ids| > 0 {
      SweepOneKeeps(c, s, ids[0]);
      UtilizationAtMostOne(c, SweepOne(c, s, ids[0]));
      SweepOneFrees(c, s, ids[0]);
    }
  }

  // ---------------------------------------------------------------- where a cycle stops

  // The state after erasing the first k of the listed blocks.
  ghost function Erased(c: Config, s: Flash, ids: seq<nat>, k: nat): (t: Flash)
    requires k <= |ids| && forall i | 0 <= i < |ids| :: ids[i] < |s.blocks|
    ensures |t.blocks| == |s.blocks|
  {
    if k == 0 then s else EraseBlock(c, Erased(c, s, ids, k - 1), ids[k - 1])
  }

  // More than the target's share of the blocks is outside the pool.
  ghost predicate AboveTarget(c: Config, s: Flash) {
    (|s.blocks| - |s.freePool|) as real > c.gcTarget * |s.blocks| as real
  }

  ghost predicate Usable(s: Flash) {
    exists p: nat :: p < |s.blocks| && !s.blocks[p].state.Bad?
  }

  // How many of the first k listed blocks survive their erase.
  ghost function SurvivorsAmong(c: Config, s: Flash, ids: seq<nat>, k: nat): nat
    requires k <= |ids| && forall i | 0 <= i < |ids| :: ids[i] < |s.blocks|
  {
    if k == 0 then 0
    else SurvivorsAmong(c, s, ids, k - 1) + if s.blocks[ids[k - 1]].eraseCount + 1 < c.maxErase then 1 else 0
  }

  // Where a sweep of garbage blocks ends: it goes on while it is above the target and a block
  // is usable, and stops at the list's end or as soon as that is no longer so.
  ghost predicate StopsAt(c: Config, s: Flash, ids: seq<nat>, k: nat)
    requires forall i | 0 <= i < |ids| :: ids[i] < |s.blocks|
  {
    && k <= |ids| && (|ids| > 0 ==> k > 0)
    && (forall j | 0 < j < k :: AboveTarget(c, Erased(c, s, ids, j)) && Usable(Erased(c, s, ids, j)))
    && (k == |ids| || !AboveTarget(c, Erased(c, s, ids, k)) || !Usable(Erased(c, s, ids, k)))
  }

  lemma FractionMeaning(part: int, total: int, target: real)
    requires total > 0
    ensures part as real / total as real <= target <==> !(part as real > target * total as real)
  {
    var u, n := part as real / total as real, total as real;
    assert u * n == part as real;
    ScaledOrder(u, target, n);
  }

  lemma TargetMeaning(c: Config, s: Flash)
    requires Inv(c, s) && |s.blocks| > 0
    ensures Utilization(s) <= c.gcTarget <==> !AboveTarget(c, s)
  {
    hide Mapping; hide Endurance; hide EraseCap; hide Sum;
    FractionMeaning(|s.blocks| - |s.freePool|, |s.blocks|, c.gcTarget);
  }

  lemma UsableMeaning(s: Flash)
    ensures Usable(s) <==> !AllBad(s)
  {
  }

  // Erasing one more at the front.
  lemma {:induction false} ErasedShift(c: Config, s: Flash, ids: seq<nat>, k: nat)
    requires 0 < k <= |ids| && forall i | 0 <= i < |ids| :: ids[i] < |s.blocks|
    ensures Erased(c, s, ids, k) == Erased(c, EraseBlock(c, s, ids[0]), ids[1..], k - 1)
  {
    hide EraseBlock;
    ErasedKeepsLength(c, s, ids[0]);
    if k > 1 {
      ErasedShift(c, s, ids, k - 1);
      assert ids[1..][k - 2] == ids[k - 1];
    } else {
      assert Erased(c, s, ids, 0) == s;
    }
  }

  lemma ErasedKeepsLength(c: Config, s: Flash, p: nat)
    requires p < |s.blocks|
    ensures |EraseBlock(c, s, p).blocks| == |s.blocks|
    ensures forall q: nat | q < |s.blocks| && q != p :: EraseBlock(c, s, p).blocks[q] == s.blocks[q]
  {
  }

  lemma {:induction false} SurvivorsShift(c: Config, s: Flash, t: Flash, ids: seq<nat>, k: nat)
    requires 0 < k <= |ids| && (forall i | 0 <= i < |ids| :: ids[i] < |s.blocks|) && |t.blocks| == |s.blocks|
    requires forall i | 0 < i < |ids| :: t.blocks[ids[i]] == s.blocks[ids[i]]
    ensures SurvivorsAmong(c, s, ids, k) ==
      SurvivorsAmong(c, t, ids[1..], k - 1) + if s.blocks[ids[0]].eraseCount + 1 < c.maxErase then 1 else 0
  {
    if k > 1 {
      SurvivorsShift(c, s, t, ids, k - 1);
      assert ids[1..][k - 2] == ids[k - 1];
    } else {
      assert SurvivorsAmong(c, s, ids, 0) == 0;
    }
  }

  // A sweep over garbage blocks, each listed once, erases the list up to the one place where
  // it has to stop, counts the survivors, and fails exactly when no block is usable there.
  lemma {:induction false} SweepStops(c: Config, s: Flash, ids: seq<nat>) returns (k: nat)
    requires Inv(c, s) && forall i | 0 <= i < |ids| :: ids[i] < |s.blocks| && s.blocks[ids[i]].state.Invalid?
    requires forall i, j | 0 <= i < j < |ids| :: ids[i] != ids[j]
    ensures StopsAt(c, s, ids, k)
    ensures Sweep(c, s, ids) ==
      GcOutcome(Erased(c, s, ids, k), SurvivorsAmong(c, s, ids, k), k > 0 && !Usable(Erased(c, s, ids, k)))
    decreases |ids|
  {
    hide Inv; hide EraseBlock; hide AboveTarget; hide Usable; hide Utilization; hide AllBad; hide View;
    k := 0;
    if |ids| > 0 {
      var t := EraseBlock(c, s, ids[0]);
      EraseKeeps(c, s, ids[0]);
      ErasedKeepsLength(c, s, ids[0]);
      UsableMeaning(t);
      TargetMeaning(c, t);
      SweepTurn(c, s, ids);
      assert SweepOne(c, s, ids[0]) == t;
      ErasedShift(c, s, ids, 1);
      SurvivorsShift(c, s, t, ids, 1);
      assert Erased(c, t, ids[1..], 0) == t;
      k := 1;
      if Usable(t) && AboveTarget(c, t) {
        assert forall i | 0 <= i < |ids[1..]| :: ids[1..][i] == ids[i + 1];
        var l := SweepStops(c, t, ids[1..]);
        k := l + 1;
        StopsLater(c, s, ids, l);
        ErasedShift(c, s, ids, k);
        SurvivorsShift(c, s, t, ids, k);
      }
    }
  }

  lemma StopsLater(c: Config, s: Flash, ids: seq<nat>, l: nat)
    requires |ids| > 0 && forall i | 0 <= i < |ids| :: ids[i] < |s.blocks|
    requires var t := EraseBlock(c, s, ids[0]);
      |t.blocks| == |s.blocks| && Usable(t) && AboveTarget(c, t) && StopsAt(c, t, ids[1..], l)
    ensures StopsAt(c, s, ids, l + 1)
  {
    hide EraseBlock; hide AboveTarget; hide Usable;
    var t := EraseBlock(c, s, ids[0]);
    forall j | 0 < j <= l + 1
      ensures Erased(c, s, ids, j) == Erased(c, t, ids[1..], j - 1)
    {
      ErasedShift(c, s, ids, j);
    }
    assert Erased(c, t, ids[1..], 0) == t;
  }

  // A whole cycle: of the garbage blocks in order it erases the shortest non-empty stretch
  // that brings the share of blocks outside the pool down to the target, or all of them, or
  // up to where the last usable block went bad.
  lemma CollectStops(c: Config, s: Flash) returns (k: nat)
    requires Inv(c, s)
    ensures var ids := InvalidIds(s.blocks, 0);
      && StopsAt(c, s, ids, k)
      && Collect(c, s) ==
           GcOutcome(Erased(c, s, ids, k), SurvivorsAmong(c, s, ids, k), k > 0 && !Usable(Erased(c, s, ids, k)))
  {
    hide Inv; hide Sweep; hide StopsAt; hide Erased; hide SurvivorsAmong;
    k := SweepStops(c, s, InvalidIds(s.blocks, 0));
  }

  // There is only one such place.
  lemma StopsOnce(c: Config, s: Flash, ids: seq<nat>, k: nat, l: nat)
    requires forall i | 0 <= i < |ids| :: ids[i] < |s.blocks|
    requires StopsAt(c, s, ids, k) && StopsAt(c, s, ids, l)
    ensures k == l
  {
    hide Erased; hide AboveTarget; hide Usable;
  }
}
