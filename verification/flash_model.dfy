/**
The DirectFlash translation layer as a value: physical blocks, the logical-to-physical
table, the free pool and the counters, with every change the block manager, the garbage
collector and the wear leveler make to them.  The classes in module DirectFlash are
proved to make exactly these changes; the lemmas say what the changes keep.
 */
module FlashModel {
  import opened Common

  datatype BlockState = Free | Valid | Invalid | Bad

  datatype PhysicalBlock = PhysicalBlock(
    state: BlockState,
    eraseCount: nat,
    data: Bytes,
    logicalAddress: Option<int>)

  datatype Stats = Stats(
    freeBlocks: int,
    validBlocks: int,
    invalidBlocks: int,
    badBlocks: int,
    totalWrites: int,
    totalReads: int,
    totalErases: int)

  datatype Flash = Flash(
    blocks: seq<PhysicalBlock>,
    l2p: map<int, nat>,
    freePool: set<nat>,
    stats: Stats)

  datatype Config = Config(blockSize: int, maxErase: int, threshold: int, gcTarget: real)

  datatype WriteResult = TooLarge | NoSpace | Written(physicalId: nat)

  // ---------------------------------------------------------------- sums over blocks

  function Sum(f: PhysicalBlock -> int, bs: seq<PhysicalBlock>): int {
    if |bs| == 0 then 0 else f(bs[0]) + Sum(f, bs[1..])
  }

  function Wear(b: PhysicalBlock): int { b.eraseCount }

  function ValidWear(b: PhysicalBlock): int { if b.state.Valid? then b.eraseCount else 0 }

  function IsInvalid(b: PhysicalBlock): int { if b.state.Invalid? then 1 else 0 }

  function IsBad(b: PhysicalBlock): int { if b.state.Bad? then 1 else 0 }

  // Replacing one block moves the sum by the difference of that block's contribution.
  lemma {:induction false} SumUpdate(f: PhysicalBlock -> int, bs: seq<PhysicalBlock>, i: nat, b: PhysicalBlock)
    requires i < |bs|
    ensures Sum(f, bs[i := b]) == Sum(f, bs) - f(bs[i]) + f(b)
  {
    if i == 0 {
      assert bs[i := b][1..] == bs[1..];
    } else {
      assert bs[i := b][1..] == bs[1..][i - 1 := b];
      SumUpdate(f, bs[1..], i - 1, b);
    }
  }

  lemma {:induction false} SumBounds(f: PhysicalBlock -> int, bs: seq<PhysicalBlock>, cap: int)
    requires forall i | 0 <= i < |bs| :: 0 <= f(bs[i]) <= cap
    ensures 0 <= Sum(f, bs) <= cap * |bs|
  {
    if |bs| > 0 {
      SumBounds(f, bs[1..], cap);
      assert cap * |bs| == cap + cap * |bs[1..]|;
    }
  }

  lemma {:induction false} SumOfZeros(f: PhysicalBlock -> int, bs: seq<PhysicalBlock>)
    requires forall i | 0 <= i < |bs| :: f(bs[i]) == 0
    ensures Sum(f, bs) == 0
  {
    if |bs| > 0 {
      SumOfZeros(f, bs[1..]);
    }
  }

  // ---------------------------------------------------------------- operations

  function Blank(): PhysicalBlock { PhysicalBlock(Free, 0, [], None) }

  function IdsBelow(n: nat): (ids: set<nat>)
    ensures |ids| == n && forall p: nat :: p in ids <==> p < n
  {
    if n == 0 then {} else IdsBelow(n - 1) + {n - 1}
  }

  function Initial(totalBlocks: nat): Flash {
    Flash(
      seq(totalBlocks, _ => Blank()),
      map[],
      IdsBelow(totalBlocks),
      Stats(totalBlocks, 0, 0, 0, 0, 0, 0))
  }

  ghost predicate InBounds(s: Flash) {
    && (forall a | a in s.l2p :: s.l2p[a] < |s.blocks|)
    && (forall p: nat | p in s.freePool :: p < |s.blocks|)
  }

  // The block a write takes from the pool: no free block has been erased fewer times.
  // Ties are broken by the pool's iteration order, which is left open here.
  ghost predicate LeastWornFree(s: Flash, p: nat)
    requires InBounds(s)
  {
    && p in s.freePool
    && forall q: nat | q in s.freePool :: s.blocks[p].eraseCount <= s.blocks[q].eraseCount
  }

  // What a write does first to an address that is already mapped.  The table entry stays.
  function InvalidateOld(s: Flash, a: int): Flash
    requires InBounds(s)
  {
    if a in s.l2p then
      s.(blocks := s.blocks[s.l2p[a] := s.blocks[s.l2p[a]].(state := Invalid, logicalAddress := None)],
         stats := s.stats.(validBlocks := s.stats.validBlocks - 1, invalidBlocks := s.stats.invalidBlocks + 1))
    else s
  }

  function PlaceAt(s: Flash, a: int, d: Bytes, p: nat): Flash
    requires p < |s.blocks|
  {
    s.(blocks := s.blocks[p := s.blocks[p].(state := Valid, data := d, logicalAddress := Some(a))],
       l2p := s.l2p[a := p],
       freePool := s.freePool - {p},
       stats := s.stats.(freeBlocks := s.stats.freeBlocks - 1,
                         validBlocks := s.stats.validBlocks + 1,
                         totalWrites := s.stats.totalWrites + 1))
  }

  ghost predicate WriteBlock(c: Config, s: Flash, a: int, d: Bytes, s': Flash, r: WriteResult) {
    && InBounds(s)
    && if |d| > c.blockSize then
         r == TooLarge && s' == s
       else
         var s1 := InvalidateOld(s, a);
         if s1.freePool == {} then
           r == NoSpace && s' == s1
         else
           r.Written? && LeastWornFree(s1, r.physicalId) && s' == PlaceAt(s1, a, d, r.physicalId)
  }

  function ReadBlock(s: Flash, a: int): Option<Bytes>
    requires InBounds(s)
  {
    if a in s.l2p && s.blocks[s.l2p[a]].state.Valid? then Some(s.blocks[s.l2p[a]].data) else None
  }

  function CountRead(s: Flash): Flash {
    s.(stats := s.stats.(totalReads := s.stats.totalReads + 1))
  }

  function DeleteBlock(s: Flash, a: int): Flash
    requires InBounds(s)
  {
    if a in s.l2p then
      s.(blocks := s.blocks[s.l2p[a] := s.blocks[s.l2p[a]].(state := Invalid, logicalAddress := None)],
         l2p := s.l2p - {a},
         stats := s.stats.(validBlocks := s.stats.validBlocks - 1, invalidBlocks := s.stats.invalidBlocks + 1))
    else s
  }

  predicate Survives(c: Config, b: PhysicalBlock) {
    !b.state.Bad? && b.eraseCount + 1 < c.maxErase
  }

  // The invalid-block counter is not decremented: the code tests the state after it
  // has already been overwritten.
  function EraseBlock(c: Config, s: Flash, p: nat): Flash
    requires p < |s.blocks|
  {
    var b := s.blocks[p];
    if b.state.Bad? then s
    else if b.eraseCount + 1 >= c.maxErase then
      s.(blocks := s.blocks[p := b.(state := Bad, eraseCount := b.eraseCount + 1)],
         stats := s.stats.(badBlocks := s.stats.badBlocks + 1))
    else
      s.(blocks := s.blocks[p := PhysicalBlock(Free, b.eraseCount + 1, [], None)],
         freePool := s.freePool + {p},
         stats := s.stats.(freeBlocks := s.stats.freeBlocks + 1, totalErases := s.stats.totalErases + 1))
  }

  // ---------------------------------------------------------------- invariant and view

  // The table and the back-pointers are inverse bijections onto the VALID blocks, the pool is
  // exactly the FREE blocks, and these are empty.
  ghost predicate Mapping(s: Flash) {
    && InBounds(s)
    && (forall a | a in s.l2p ::
          s.blocks[s.l2p[a]].state.Valid? && s.blocks[s.l2p[a]].logicalAddress == Some(a))
    && (forall p: nat | p < |s.blocks| && s.blocks[p].state.Valid? ::
          s.blocks[p].logicalAddress.Some?
          && s.blocks[p].logicalAddress.value in s.l2p
          && s.l2p[s.blocks[p].logicalAddress.value] == p)
    && (forall p: nat | p < |s.blocks| && !s.blocks[p].state.Valid? :: s.blocks[p].logicalAddress.None?)
    && (forall p: nat | p < |s.blocks| :: s.blocks[p].state.Free? <==> p in s.freePool)
    && (forall p: nat | p < |s.blocks| && s.blocks[p].state.Free? :: s.blocks[p].data == [])
  }

  // A block is BAD exactly when an erase has brought its count to the endurance limit.
  ghost predicate Endurance(c: Config, s: Flash) {
    forall p: nat | p < |s.blocks| ::
      s.blocks[p].state.Bad? <==> s.blocks[p].eraseCount >= 1 && s.blocks[p].eraseCount >= c.maxErase
  }

  ghost predicate EraseCap(c: Config, s: Flash) {
    forall p: nat | p < |s.blocks| :: s.blocks[p].eraseCount <= (if c.maxErase > 1 then c.maxErase else 1)
  }

  // What each counter counts.  The invalid counter also remembers every erase, and the
  // four kinds of block add up to all of them.
  ghost predicate Accounts(s: Flash) {
    && s.stats.freeBlocks == |s.freePool|
    && s.stats.validBlocks == |s.l2p|
    && s.stats.badBlocks == Sum(IsBad, s.blocks)
    && Sum(Wear, s.blocks) == s.stats.totalErases + s.stats.badBlocks
    && s.stats.invalidBlocks == Sum(IsInvalid, s.blocks) + Sum(Wear, s.blocks)
    && s.stats.freeBlocks + s.stats.validBlocks + Sum(IsInvalid, s.blocks) + s.stats.badBlocks == |s.blocks|
  }

  ghost predicate Counted(c: Config, s: Flash) {
    Endurance(c, s) && EraseCap(c, s) && Accounts(s)
  }

  ghost predicate Inv(c: Config, s: Flash) {
    Mapping(s) && Counted(c, s)
  }

  // What a reader of the flash can see: a plain map from address to data.
  ghost function View(s: Flash): map<int, Bytes>
    requires InBounds(s)
  {
    map a | a in s.l2p && s.blocks[s.l2p[a]].state.Valid? :: s.blocks[s.l2p[a]].data
  }

  // Maintenance moves and erases blocks without counting as traffic.
  predicate SameTraffic(s: Flash, t: Flash) {
    t.stats.totalWrites == s.stats.totalWrites && t.stats.totalReads == s.stats.totalReads
  }

  lemma ReadIsLookup(s: Flash, a: int)
    requires InBounds(s)
    ensures ReadBlock(s, a) == if a in View(s) then Some(View(s)[a]) else None
  {
  }

  lemma InitialInv(c: Config, totalBlocks: nat)
    ensures Inv(c, Initial(totalBlocks)) && View(Initial(totalBlocks)) == map[]
  {
    var s := Initial(totalBlocks);
    SumOfZeros(Wear, s.blocks);
    SumOfZeros(IsBad, s.blocks);
    SumOfZeros(IsInvalid, s.blocks);
  }

  // ---------------------------------------------------------------- what each operation keeps

  lemma SumsAfter(s: Flash, i: nat, b: PhysicalBlock)
    requires i < |s.blocks|
    ensures Sum(Wear, s.blocks[i := b]) == Sum(Wear, s.blocks) - s.blocks[i].eraseCount + b.eraseCount
    ensures Sum(IsBad, s.blocks[i := b]) == Sum(IsBad, s.blocks) - IsBad(s.blocks[i]) + IsBad(b)
    ensures Sum(IsInvalid, s.blocks[i := b]) == Sum(IsInvalid, s.blocks) - IsInvalid(s.blocks[i]) + IsInvalid(b)
    ensures Sum(ValidWear, s.blocks[i := b]) == Sum(ValidWear, s.blocks) - ValidWear(s.blocks[i]) + ValidWear(b)
  {
    SumUpdate(Wear, s.blocks, i, b);
    SumUpdate(IsBad, s.blocks, i, b);
    SumUpdate(IsInvalid, s.blocks, i, b);
    SumUpdate(ValidWear, s.blocks, i, b);
  }

  // Under the mapping every table entry is visible, with its block's data.
  lemma ViewUnderMapping(s: Flash)
    requires Mapping(s)
    ensures View(s).Keys == s.l2p.Keys
    ensures forall a | a in s.l2p :: View(s)[a] == s.blocks[s.l2p[a]].data
  {
    assert forall a :: a in View(s) <==> a in s.l2p;
  }

  // A flash shows map m when its table has m's addresses and each leads to m's data.
  lemma SameView(s: Flash, m: map<int, Bytes>)
    requires Mapping(s) && s.l2p.Keys == m.Keys
    requires forall a | a in s.l2p :: s.blocks[s.l2p[a]].data == m[a]
    ensures View(s) == m
  {
    ViewUnderMapping(s);
    assert forall a | a in View(s) :: View(s)[a] == m[a];
    MapsAgree(View(s), m);
  }

  lemma PlaceMapping(s: Flash, a: int, d: Bytes, p: nat)
    requires Mapping(s) && a !in s.l2p && p in s.freePool
    ensures Mapping(PlaceAt(s, a, d, p)) && View(PlaceAt(s, a, d, p)) == View(s)[a := d]
  {
    var t := PlaceAt(s, a, d, p);
    assert forall q: nat | q < |s.blocks| && q != p :: t.blocks[q] == s.blocks[q];
    ViewUnderMapping(s);
    SameView(t, View(s)[a := d]);
  }

  lemma PlaceCounted(c: Config, s: Flash, a: int, d: Bytes, p: nat)
    requires Counted(c, s) && a !in s.l2p && p in s.freePool && p < |s.blocks| && s.blocks[p].state.Free?
    ensures Counted(c, PlaceAt(s, a, d, p))
  {
    hide Sum;
    SumsAfter(s, p, PlaceAt(s, a, d, p).blocks[p]);
  }

  lemma PlaceFresh(c: Config, s: Flash, a: int, d: Bytes, p: nat)
    requires Inv(c, s) && a !in s.l2p && p in s.freePool
    ensures Inv(c, PlaceAt(s, a, d, p))
    ensures View(PlaceAt(s, a, d, p)) == View(s)[a := d]
  {
    PlaceMapping(s, a, d, p);
    PlaceCounted(c, s, a, d, p);
  }

  lemma DeleteMapping(s: Flash, a: int)
    requires Mapping(s)
    ensures Mapping(DeleteBlock(s, a)) && View(DeleteBlock(s, a)) == View(s) - {a}
  {
    ViewUnderMapping(s);
    if a in s.l2p {
      var t := DeleteBlock(s, a);
      assert forall q: nat | q < |s.blocks| && q != s.l2p[a] :: t.blocks[q] == s.blocks[q];
      SameView(t, View(s) - {a});
    }
  }

  lemma DeleteCounted(c: Config, s: Flash, a: int)
    requires Counted(c, s) && a in s.l2p && s.l2p[a] < |s.blocks| && s.blocks[s.l2p[a]].state.Valid? && InBounds(s)
    ensures Counted(c, DeleteBlock(s, a))
  {
    hide Sum;
    var t := DeleteBlock(s, a);
    SumsAfter(s, s.l2p[a], t.blocks[s.l2p[a]]);
    assert t.l2p.Keys == s.l2p.Keys - {a};
  }

  lemma DeleteKeeps(c: Config, s: Flash, a: int)
    requires Inv(c, s)
    ensures Inv(c, DeleteBlock(s, a))
    ensures View(DeleteBlock(s, a)) == View(s) - {a}
  {
    DeleteMapping(s, a);
    if a in s.l2p {
      DeleteCounted(c, s, a);
    }
  }

  lemma EraseMapping(c: Config, s: Flash, p: nat)
    requires Mapping(s) && p < |s.blocks| && s.blocks[p].state.Invalid?
    ensures Mapping(EraseBlock(c, s, p)) && View(EraseBlock(c, s, p)) == View(s)
  {
    var t := EraseBlock(c, s, p);
    assert t.l2p == s.l2p && forall q: nat | q < |s.blocks| && q != p :: t.blocks[q] == s.blocks[q];
    ViewUnderMapping(s);
    SameView(t, View(s));
  }

  lemma EraseEndures(c: Config, s: Flash, p: nat)
    requires Endurance(c, s) && EraseCap(c, s) && p < |s.blocks| && s.blocks[p].state.Invalid?
    ensures Endurance(c, EraseBlock(c, s, p)) && EraseCap(c, EraseBlock(c, s, p))
  {
  }

  lemma EraseAccounts(c: Config, s: Flash, p: nat)
    requires Accounts(s) && p < |s.blocks| && s.blocks[p].state.Invalid? && p !in s.freePool
    ensures var t := EraseBlock(c, s, p);
      && Accounts(t)
      && Sum(Wear, t.blocks) == Sum(Wear, s.blocks) + 1
      && Sum(ValidWear, t.blocks) == Sum(ValidWear, s.blocks)
  {
    hide Sum;
    SumsAfter(s, p, EraseBlock(c, s, p).blocks[p]);
  }

  // Erasing a garbage block changes nothing a reader can see and adds one to the total wear.
  lemma EraseKeeps(c: Config, s: Flash, p: nat)
    requires Inv(c, s) && p < |s.blocks| && s.blocks[p].state.Invalid?
    ensures Inv(c, EraseBlock(c, s, p))
    ensures View(EraseBlock(c, s, p)) == View(s)
    ensures Sum(Wear, EraseBlock(c, s, p).blocks) == Sum(Wear, s.blocks) + 1
    ensures Sum(ValidWear, EraseBlock(c, s, p).blocks) == Sum(ValidWear, s.blocks)
  {
    hide Sum; hide EraseBlock; hide View;
    EraseMapping(c, s, p);
    EraseEndures(c, s, p);
    EraseAccounts(c, s, p);
  }

  // Overwriting is deleting and placing again.
  lemma OverwriteIsDeleteThenPlace(s: Flash, a: int, d: Bytes, p: nat)
    requires InBounds(s) && p < |s.blocks|
    ensures PlaceAt(InvalidateOld(s, a), a, d, p) == PlaceAt(DeleteBlock(s, a), a, d, p)
  {
    assert (s.l2p - {a})[a := p] == s.l2p[a := p];
  }

  lemma ReplaceEntry(v: map<int, Bytes>, a: int, d: Bytes)
    ensures (v - {a})[a := d] == v[a := d]
  {
  }

  lemma OverwriteKeeps(c: Config, s: Flash, a: int, d: Bytes, p: nat)
    requires Inv(c, s) && p in s.freePool
    ensures Inv(c, PlaceAt(InvalidateOld(s, a), a, d, p))
    ensures View(PlaceAt(InvalidateOld(s, a), a, d, p)) == View(s)[a := d]
  {
    DeleteKeeps(c, s, a);
    PlaceFresh(c, DeleteBlock(s, a), a, d, p);
    OverwriteIsDeleteThenPlace(s, a, d, p);
    ReplaceEntry(View(s), a, d);
  }

  lemma WriteKeeps(c: Config, s: Flash, a: int, d: Bytes, s': Flash, r: WriteResult)
    requires Inv(c, s) && WriteBlock(c, s, a, d, s', r)
    requires r == TooLarge || a !in s.l2p || s.freePool != {}
    ensures Inv(c, s')
    ensures View(s') == if r.Written? then View(s)[a := d] else View(s)
  {
    if r.Written? {
      OverwriteKeeps(c, s, a, d, r.physicalId);
    }
  }

  // The write keeps the invariant and behaves like a map update exactly when the data is
  // refused for its size, the address is new, or the pool has a block to give.  In the one
  // remaining case the old copy is lost although the write reports failure.
  lemma WriteRefinesExactly(c: Config, s: Flash, a: int, d: Bytes, s': Flash, r: WriteResult)
    requires Inv(c, s) && WriteBlock(c, s, a, d, s', r)
    ensures InBounds(s')
    ensures (Inv(c, s') && View(s') == if r.Written? then View(s)[a := d] else View(s))
            <==> (|d| > c.blockSize || a !in s.l2p || s.freePool != {})
  {
    if |d| > c.blockSize || a !in s.l2p || s.freePool != {} {
      WriteKeeps(c, s, a, d, s', r);
    } else {
      assert s'.l2p[a] == s.l2p[a] && s'.blocks[s.l2p[a]].state.Invalid?;
    }
  }

  // A write that succeeds fills a FREE block that no FREE block is less worn than.
  lemma WriteTakesLeastWorn(c: Config, s: Flash, a: int, d: Bytes, s': Flash, p: nat)
    requires Inv(c, s) && WriteBlock(c, s, a, d, s', Written(p))
    ensures p < |s.blocks| && s.blocks[p].state.Free? && s'.blocks[p].data == d && s'.blocks[p].state.Valid?
    ensures s'.blocks[p].eraseCount == s.blocks[p].eraseCount
    ensures forall q: nat | q < |s.blocks| && s.blocks[q].state.Free? :: s.blocks[p].eraseCount <= s.blocks[q].eraseCount
  {
    var t := InvalidateOld(s, a);
    assert p in t.freePool && t.freePool == s.freePool;
    assert forall q: nat | q in s.freePool :: t.blocks[q] == s.blocks[q];
  }

  // A one-block flash shows the loss: the second write to address 7 fails and the first
  // write's data can no longer be read.
  lemma FailedOverwriteLosesData(c: Config, d: Bytes, e: Bytes)
    requires |d| <= c.blockSize && |e| <= c.blockSize
    ensures exists s1, s2 ::
      && InBounds(s1) && InBounds(s2)
      && WriteBlock(c, Initial(1), 7, d, s1, Written(0)) && ReadBlock(s1, 7) == Some(d)
      && WriteBlock(c, s1, 7, e, s2, NoSpace) && ReadBlock(s2, 7) == None
  {
    var s1 := PlaceAt(Initial(1), 7, d, 0);
    var s2 := InvalidateOld(s1, 7);
    assert Initial(1).freePool == {0};
    assert s1.freePool == {};
    assert WriteBlock(c, Initial(1), 7, d, s1, Written(0)) && WriteBlock(c, s1, 7, e, s2, NoSpace);
  }
}
