/**
Outside the safe fragment: clones and restores into other volumes copy block references
without counting them, and markers written as data get into the deduplication table.  What
deleting a volume then costs the others is stated exactly.
 */
module ArraySharing {
  import opened Common
  import opened Reduction
  import opened DedupModel
  import opened ArrayModel
  import opened ArrayRuns

  // ---------------------------------------------------------------- releases one after the other

  // How many of the listed offsets hold fingerprint h.
  function Occurrences(blocks: map<int, VolumeBlock>, order: seq<int>, h: string): nat
    requires forall i | 0 <= i < |order| :: order[i] in blocks
    decreases |order|
  {
    if |order| == 0 then 0
    else (if blocks[order[0]].fingerprint == h then 1 else 0) + Occurrences(blocks, order[1..], h)
  }

  // Block `id` has one fingerprint, and so has every listed block the table knows it by.
  ghost predicate Paired(blocks: map<int, VolumeBlock>, order: seq<int>, id: BlockId, h: string, indexed: bool) {
    forall i | 0 <= i < |order| ::
      && order[i] in blocks
      && (blocks[order[i]].blockId == id ==> blocks[order[i]].fingerprint == h)
      && (indexed && blocks[order[i]].fingerprint == h ==> blocks[order[i]].blockId == id)
  }

  // A block found through the table outlives the releases exactly when it has more
  // references than are released.
  lemma {:induction false} IndexedOutlives(e: Store, blocks: map<int, VolumeBlock>, order: seq<int>, id: BlockId, h: string)
    requires Paired(blocks, order, id, h, true) && id in e.backend && h in e.table && e.table[h].refs >= 1
    ensures var t := ReleaseAll(e, blocks, order);
      if e.table[h].refs > Occurrences(blocks, order, h) then id in t.backend && t.backend[id] == e.backend[id]
      else id !in t.backend
    decreases |order|
  {
    if |order| > 0 {
      var blk, rest := blocks[order[0]], order[1..];
      assert forall i | 0 <= i < |rest| :: rest[i] == order[i + 1];
      var m := Release(e, blk.blockId, blk.fingerprint);
      if blk.fingerprint == h && e.table[h].refs <= 1 {
        GoneStaysGone(m, blocks, rest, id);
      } else {
        IndexedOutlives(m, blocks, rest, id, h);
      }
    }
  }

  // A block the table does not know goes with its first release.
  lemma {:induction false} UnindexedGoes(e: Store, blocks: map<int, VolumeBlock>, order: seq<int>, id: BlockId, h: string, k: nat)
    requires Paired(blocks, order, id, h, false) && h !in e.table && k < |order| && blocks[order[k]].blockId == id
    ensures id !in ReleaseAll(e, blocks, order).backend
    decreases |order|
  {
    var blk, rest := blocks[order[0]], order[1..];
    assert forall i | 0 <= i < |rest| :: rest[i] == order[i + 1];
    var m := Release(e, blk.blockId, blk.fingerprint);
    if k == 0 {
      GoneStaysGone(m, blocks, rest, id);
    } else {
      UnindexedGoes(m, blocks, rest, id, h, k - 1);
    }
  }

  lemma {:induction false} GoneStaysGone(e: Store, blocks: map<int, VolumeBlock>, order: seq<int>, id: BlockId)
    requires id !in e.backend && forall i | 0 <= i < |order| :: order[i] in blocks
    ensures id !in ReleaseAll(e, blocks, order).backend
    decreases |order|
  {
    if |order| > 0 {
      var blk := blocks[order[0]];
      GoneStaysGone(Release(e, blk.blockId, blk.fingerprint), blocks, order[1..], id);
    }
  }

  // A block nobody releases stays.
  lemma {:induction false} UnreleasedStays(e: Store, blocks: map<int, VolumeBlock>, order: seq<int>, id: BlockId)
    requires id in e.backend
    requires forall i | 0 <= i < |order| :: order[i] in blocks && blocks[order[i]].blockId != id
    ensures var t := ReleaseAll(e, blocks, order); id in t.backend && t.backend[id] == e.backend[id]
    decreases |order|
  {
    if |order| > 0 {
      var blk, rest := blocks[order[0]], order[1..];
      assert forall i | 0 <= i < |rest| :: rest[i] == order[i + 1];
      UnreleasedStays(Release(e, blk.blockId, blk.fingerprint), blocks, rest, id);
    }
  }

  // When block `blk` outlasts the release of `blocks`: the table counts more references to
  // it than are released, or, if the table does not know it, it is not among the released.
  ghost predicate Outlasts(e: Store, blocks: map<int, VolumeBlock>, order: seq<int>, blk: VolumeBlock)
    requires forall i | 0 <= i < |order| :: order[i] in blocks
  {
    if blk.fingerprint in e.table then e.table[blk.fingerprint].refs > Occurrences(blocks, order, blk.fingerprint)
    else forall i | 0 <= i < |order| :: blocks[order[i]].blockId != blk.blockId
  }

  // ---------------------------------------------------------------- shared blocks

  // Some claim, of whatever volume, stands for this block.
  ghost predicate Known(c: Codec, ever: set<Claim>, blk: VolumeBlock) {
    exists w :: w in ever && w.id == blk.blockId && Describes(c, blk, w.data)
  }

  ghost predicate AllKnown(c: Codec, ever: set<Claim>, blocks: map<int, VolumeBlock>) {
    forall off | off in blocks :: Known(c, ever, blocks[off])
  }

  // Volumes and live snapshots point at claimed blocks only, their own or another volume's.
  ghost predicate Shared(c: Codec, s: Array, ever: set<Claim>) {
    && StoreInv(c, s.store, ever)
    && (forall v | v in s.volumes :: AllKnown(c, ever, s.volumes[v].blocks))
    && (forall sid | LiveSnapshot(s, sid) :: AllKnown(c, ever, s.snapshots[sid].blocks))
  }

  lemma BackedIsKnown(c: Codec, ever: set<Claim>, v: VolumeId, blocks: map<int, VolumeBlock>)
    requires AllBacked(c, ever, v, blocks)
    ensures AllKnown(c, ever, blocks)
  {
    hide Describes;
    forall off | off in blocks
      ensures Known(c, ever, blocks[off])
    {
      var d :| Claim(v, off, blocks[off].blockId, d) in ever && Describes(c, blocks[off], d);
      assert Claim(v, off, blocks[off].blockId, d).data == d;
    }
  }

  lemma InvIsShared(c: Codec, s: Array, ever: set<Claim>)
    requires Inv(c, s, ever)
    ensures Shared(c, s, ever)
  {
    hide StoreInv; hide AllBacked; hide AllKnown;
    forall v | v in s.volumes
      ensures AllKnown(c, ever, s.volumes[v].blocks)
    {
      BackedIsKnown(c, ever, v, s.volumes[v].blocks);
    }
    forall sid | LiveSnapshot(s, sid)
      ensures AllKnown(c, ever, s.snapshots[sid].blocks)
    {
      BackedIsKnown(c, ever, s.snapshots[sid].volumeId, s.snapshots[sid].blocks);
    }
  }

  // A known block reads as its data reads.
  lemma KnownReads(c: Codec, e: Store, ever: set<Claim>, blk: VolumeBlock) returns (d: Bytes)
    requires Sound(c) && StoreInv(c, e, ever) && Known(c, ever, blk)
    ensures Describes(c, blk, d) && Good(c, d) && Holds(c, e, blk.blockId, d)
    ensures Analyze(d).Mixed? ==> c.hash(d) in e.table && e.table[c.hash(d)].blockId == blk.blockId
    ensures Retrieve(c, e, blk.blockId) == Reads(c, d) != Err(BlockNotFound)
  {
    hide Good; hide TableTrue; hide CountsCover; hide Encode; hide Decode; hide Sound; hide Analyze;
    var w :| w in ever && w.id == blk.blockId && Describes(c, blk, w.data);
    d := w.data;
    assert Holds(c, e, blk.blockId, d);
    ReadsBack(c, d);
  }

  // Two blocks with one id have one fingerprint, and, if the table knows the fingerprint,
  // the other way round.
  lemma SamePairing(c: Codec, e: Store, ever: set<Claim>, a: VolumeBlock, b: VolumeBlock)
    requires Sound(c) && StoreInv(c, e, ever) && Known(c, ever, a) && Known(c, ever, b)
    ensures a.blockId == b.blockId ==> a.fingerprint == b.fingerprint
    ensures a.fingerprint in e.table && a.fingerprint == b.fingerprint ==> a.blockId == b.blockId
  {
    hide EncodePattern; hide Analyze; hide Encode; hide Holders; hide Sound; hide Good; hide Readable; hide TableTrue;
    var w :| w in ever && w.id == a.blockId && Describes(c, a, w.data);
    var w' :| w' in ever && w'.id == b.blockId && Describes(c, b, w'.data);
    if a.blockId == b.blockId {
      SharersAgree(c, e, ever, w, w');
    }
    if a.fingerprint in e.table && a.fingerprint == b.fingerprint {
      var x := KnownReads(c, e, ever, a);
      var y := KnownReads(c, e, ever, b);
      IndexedIsMixed(c, e, ever, x);
      IndexedIsMixed(c, e, ever, y);
      MixedFingerprint(c, x);
      MixedFingerprint(c, y);
    }
  }

  lemma ReleaseExactly(c: Codec, e: Store, ever: set<Claim>, blocks: map<int, VolumeBlock>, order: seq<int>, blk: VolumeBlock)
    requires Sound(c) && StoreInv(c, e, ever) && AllKnown(c, ever, blocks)
    requires Enumerates(order, blocks.Keys) && Known(c, ever, blk)
    ensures var t, id := ReleaseAll(e, blocks, order), blk.blockId;
      && id in e.backend
      && if Outlasts(e, blocks, order, blk) then id in t.backend && t.backend[id] == e.backend[id] else id !in t.backend
  {
    hide ReleaseAll; hide Decode; hide Good; hide Readable; hide Indexed; hide TableTrue; hide Holders; hide Occurrences; hide Sound; hide Encode; hide Known; hide Analyze;
    var h := blk.fingerprint;
    var _ := KnownReads(c, e, ever, blk);
    forall o | o in blocks
      ensures blocks[o].blockId == blk.blockId ==> blocks[o].fingerprint == h
      ensures h in e.table && blocks[o].fingerprint == h ==> blocks[o].blockId == blk.blockId
    {
      SamePairing(c, e, ever, blk, blocks[o]);
    }
    if h in e.table {
      IndexedOutlives(e, blocks, order, blk.blockId, h);
    } else if Outlasts(e, blocks, order, blk) {
      UnreleasedStays(e, blocks, order, blk.blockId);
    } else {
      var k :| 0 <= k < |order| && blocks[order[k]].blockId == blk.blockId;
      UnindexedGoes(e, blocks, order, blk.blockId, h, k);
    }
  }

  // Deleting a volume in a state with shared blocks can cost other volumes their data.  A
  // block of any other volume survives exactly when it outlasts the release; otherwise it
  // is gone.
  lemma DeletionExactly(c: Codec, s: Array, ever: set<Claim>, x: VolumeId, order: seq<int>, u: VolumeId, off: int)
    requires Sound(c) && Shared(c, s, ever) && x in s.volumes && Enumerates(order, s.volumes[x].blocks.Keys)
    requires u in s.volumes && u != x && off in s.volumes[u].blocks
    ensures ReadBlock(c, s, u, off) != Some(Err(BlockNotFound))
    ensures ReadBlock(c, DeleteVolume(s, x, order), u, off) ==
      if Outlasts(s.store, s.volumes[x].blocks, order, s.volumes[u].blocks[off])
      then ReadBlock(c, s, u, off) else Some(Err(BlockNotFound))
  {
    hide StoreInv; hide Known; hide ReleaseAll; hide Decode; hide Occurrences; hide Sound; hide Outlasts; hide Reads;
    ReleaseExactly(c, s.store, ever, s.volumes[x].blocks, order, s.volumes[u].blocks[off]);
    var _ := KnownReads(c, s.store, ever, s.volumes[u].blocks[off]);
  }

  // ---------------------------------------------------------------- runs with copies

  // A call of the safe fragment other than deleting a volume, a clone, or a restore into any
  // volume of a snapshot whose own volume still exists.
  datatype Sharing =
    | Call(event: Event)
    | Cloned(vol: VolumeId, clone: VolumeId)
    | RestoredTo(snap: SnapshotId, vol: VolumeId)

  ghost predicate SharingStep(c: Codec, s: Array, e: Sharing, t: Array) {
    match e
    case Call(x) => !x.Deleted? && Step(c, s, x, t)
    case Cloned(v, clone) => FreshVolume(s, clone) && t == CloneVolume(s, v, clone)
    case RestoredTo(sid, v) => LiveSnapshot(s, sid) && t == RestoreSnapshot(s, sid, v)
  }

  ghost function SharingEver(c: Codec, s: Array, ever: set<Claim>, e: Sharing): set<Claim> {
    if e.Call? then NextEver(c, s, ever, e.event) else ever
  }

  lemma StillKnown(c: Codec, ever: set<Claim>, ever': set<Claim>, blocks: map<int, VolumeBlock>)
    requires AllKnown(c, ever, blocks) && ever <= ever'
    ensures AllKnown(c, ever', blocks)
  {
    hide Describes;
  }

  // A write, to a copy or to any other volume, adds a claim of its own.
  lemma SharedWrite(c: Codec, s: Array, ever: set<Claim>, v: VolumeId, off: int, d: Bytes, id: BlockId)
    requires Sound(c) && Shared(c, s, ever) && Admitted(c, d) && id !in s.store.backend
    ensures Shared(c, WriteBlock(c, s, v, off, d, id).0, EverAfterWrite(c, s, ever, v, off, d, id))
  {
    hide StoreInv; hide AllKnown; hide Sound; hide ReduceAndStore; hide Admitted;
    if v in s.volumes && Aligned(c, off) {
      MayStore(c, s.store, ever, d, id);
      if ReduceAndStore(c, s.store, d, id).Ok? {
        var (e, placed) := ReduceAndStore(c, s.store, d, id).value;
        var w := Claim(v, off, placed.blockId, d);
        var more, t := ever + {w}, WriteBlock(c, s, v, off, d, id).0;
        StoreKeeps(c, s.store, ever, v, off, d, id);
        if off + |d| > s.volumes[v].sizeBytes {
          FewerClaims(c, e, ever, more);
          assert t == s.(store := e);
        } else {
          var blk := VolumeBlock(placed.blockId, placed.fingerprint, |d|);
          assert t.volumes == s.volumes[v := s.volumes[v].(blocks := s.volumes[v].blocks[off := blk])];
          OneMoreKnown(c, ever, w, s.volumes[v].blocks, off, blk);
          forall u | u in s.volumes
            ensures AllKnown(c, more, s.volumes[u].blocks)
          {
            StillKnown(c, ever, more, s.volumes[u].blocks);
          }
          forall sid | LiveSnapshot(t, sid)
            ensures AllKnown(c, more, t.snapshots[sid].blocks)
          {
            assert LiveSnapshot(s, sid);
            StillKnown(c, ever, more, s.snapshots[sid].blocks);
          }
        }
      }
    }
  }

  lemma OneMoreKnown(c: Codec, ever: set<Claim>, w: Claim, blocks: map<int, VolumeBlock>, off: int, blk: VolumeBlock)
    requires AllKnown(c, ever, blocks) && w.id == blk.blockId && Describes(c, blk, w.data)
    ensures AllKnown(c, ever + {w}, blocks[off := blk])
  {
    hide Describes;
    StillKnown(c, ever, ever + {w}, blocks);
    assert Known(c, ever + {w}, blk);
  }

  lemma SharingStepKeeps(c: Codec, s: Array, ever: set<Claim>, e: Sharing, t: Array)
    requires Sound(c) && Shared(c, s, ever) && SharingStep(c, s, e, t)
    ensures Shared(c, t, SharingEver(c, s, ever, e))
  {
    hide StoreInv; hide Known; hide Sound; hide WriteBlock; hide EverAfterWrite; hide Admitted;
    if e.Call? && e.event.Wrote? {
      var x := e.event;
      SharedWrite(c, s, ever, x.vol, x.off, x.data, x.id);
    }
  }

  ghost predicate SharingRun(c: Codec, trace: seq<Array>, events: seq<Sharing>) {
    && |trace| == |events| + 1
    && forall i | 0 <= i < |events| :: SharingStep(c, trace[i], events[i], trace[i + 1])
  }

  lemma {:induction false} SharingRunKeeps(c: Codec, trace: seq<Array>, events: seq<Sharing>, ever: set<Claim>, i: nat)
    returns (claims: set<Claim>)
    requires Sound(c) && SharingRun(c, trace, events) && Shared(c, trace[0], ever) && i <= |events|
    ensures Shared(c, trace[i], claims)
  {
    hide Sound; hide Shared; hide SharingStep; hide SharingEver;
    claims := ever;
    if i > 0 {
      var before := SharingRunKeeps(c, trace, events, ever, i - 1);
      SharingStepKeeps(c, trace[i - 1], before, events[i - 1], trace[i]);
      claims := SharingEver(c, trace[i - 1], before, events[i - 1]);
    }
  }

  // After any run of the safe fragment and then any clones, restores elsewhere, snapshots,
  // writes to copies and to other volumes, nothing is missing, and deleting a volume costs
  // every other volume exactly the blocks that do not outlast the release.
  lemma SharingRunDeletion(c: Codec, safe: seq<Array>, calls: seq<Event>, trace: seq<Array>, events: seq<Sharing>,
                           x: VolumeId, order: seq<int>, u: VolumeId, off: int)
    requires Sound(c) && Run(c, safe, calls) && SharingRun(c, trace, events) && trace[0] == safe[|calls|]
    requires var s := trace[|events|];
      && x in s.volumes && Enumerates(order, s.volumes[x].blocks.Keys)
      && u in s.volumes && u != x && off in s.volumes[u].blocks
    ensures var s := trace[|events|];
      && ReadBlock(c, s, u, off) != Some(Err(BlockNotFound))
      && ReadBlock(c, DeleteVolume(s, x, order), u, off) ==
           if Outlasts(s.store, s.volumes[x].blocks, order, s.volumes[u].blocks[off])
           then ReadBlock(c, s, u, off) else Some(Err(BlockNotFound))
  {
    hide Sound; hide Shared; hide Inv; hide SharingStep; hide Step; hide ReadBlock; hide Outlasts; hide DeleteVolume; hide Enumerates; hide EverAt; hide ViewOf; hide Replay;
    RunInvariant(c, safe, calls, |calls|);
    InvIsShared(c, safe[|calls|], EverAt(c, safe, calls, |calls|));
    var claims := SharingRunKeeps(c, trace, events, EverAt(c, safe, calls, |calls|), |events|);
    DeletionExactly(c, trace[|events|], claims, x, order, u, off);
  }

  // Write, clone, delete the clone: what becomes of every block of every other volume.
  lemma CloneDeletionExactly(c: Codec, s: Array, ever: set<Claim>, v: VolumeId, clone: VolumeId, order: seq<int>,
                             u: VolumeId, off: int)
    requires Sound(c) && Inv(c, s, ever) && v in s.volumes && FreshVolume(s, clone)
    requires Enumerates(order, s.volumes[v].blocks.Keys) && u in s.volumes && off in s.volumes[u].blocks
    ensures ReadBlock(c, DeleteVolume(CloneVolume(s, v, clone), clone, order), u, off) ==
      if Outlasts(s.store, s.volumes[v].blocks, order, s.volumes[u].blocks[off])
      then ReadBlock(c, s, u, off) else Some(Err(BlockNotFound))
  {
    hide StoreInv; hide Backed; hide ReleaseAll; hide Retrieve; hide Occurrences; hide Sound; hide Outlasts; hide Shared;
    InvIsShared(c, s, ever);
    SharingStepKeeps(c, s, ever, Cloned(v, clone), CloneVolume(s, v, clone));
    DeletionExactly(c, CloneVolume(s, v, clone), ever, clone, order, u, off);
  }

  // The same for a snapshot restored into a volume other than its own and then deleted there.
  lemma RestoreElsewhereExactly(c: Codec, s: Array, ever: set<Claim>, sid: SnapshotId, x: VolumeId, order: seq<int>,
                                u: VolumeId, off: int)
    requires Sound(c) && Inv(c, s, ever) && LiveSnapshot(s, sid) && x in s.volumes
    requires Enumerates(order, s.snapshots[sid].blocks.Keys) && u in s.volumes && u != x && off in s.volumes[u].blocks
    ensures ReadBlock(c, DeleteVolume(RestoreSnapshot(s, sid, x), x, order), u, off) ==
      if Outlasts(s.store, s.snapshots[sid].blocks, order, s.volumes[u].blocks[off])
      then ReadBlock(c, s, u, off) else Some(Err(BlockNotFound))
  {
    hide StoreInv; hide Backed; hide ReleaseAll; hide Retrieve; hide Occurrences; hide Sound; hide Outlasts; hide Shared;
    InvIsShared(c, s, ever);
    SharingStepKeeps(c, s, ever, RestoredTo(sid, x), RestoreSnapshot(s, sid, x));
    DeletionExactly(c, RestoreSnapshot(s, sid, x), ever, x, order, u, off);
  }

  // New data is stored under its fresh id, and its one release takes it away again.
  lemma StoreThenRelease(c: Codec, e: Store, d: Bytes, id: BlockId)
    requires Sound(c) && Good(c, d) && id !in e.backend && Fingerprint(c, d) !in e.table
    ensures ReduceAndStore(c, e, d, id).Ok?
    ensures var (t, placed) := ReduceAndStore(c, e, d, id).value;
      && placed.blockId == id && placed.fingerprint == Fingerprint(c, d)
      && Retrieve(c, t, id) == Reads(c, d) != Err(BlockNotFound)
      && id !in Release(t, id, placed.fingerprint).backend
  {
    hide IsMarker; hide Compress; hide Decode; hide Sound;
    ReadsBack(c, d);
  }

  lemma ReleaseSingle(e: Store, blocks: map<int, VolumeBlock>, off: int)
    requires off in blocks
    ensures ReleaseAll(e, blocks, [off]) == Release(e, blocks[off].blockId, blocks[off].fingerprint)
  {
    var order := [off];
    assert order[1..] == [];
    assert ReleaseAll(e, blocks, order) == ReleaseAll(Release(e, blocks[off].blockId, blocks[off].fingerprint), blocks, []);
  }

  // The smallest case: write new data to an empty volume, clone it, delete the clone, and
  // the source's block is gone.
  lemma CloneBreaksSource(c: Codec, s: Array, v: VolumeId, clone: VolumeId, off: int, d: Bytes, id: BlockId)
    requires Sound(c) && Good(c, d) && id !in s.store.backend && Fingerprint(c, d) !in s.store.table
    requires v in s.volumes && s.volumes[v].blocks == map[] && clone !in s.volumes
    requires Aligned(c, off) && off + |d| <= s.volumes[v].sizeBytes
    ensures var written := WriteBlock(c, s, v, off, d, id);
      var cloned := CloneVolume(written.0, v, clone);
      var deleted := DeleteVolume(cloned, clone, [off]);
      && written.1.Done?
      && Enumerates([off], cloned.volumes[clone].blocks.Keys)
      && ReadBlock(c, written.0, v, off) == Some(Reads(c, d)) && Reads(c, d) != Err(BlockNotFound)
      && ReadBlock(c, deleted, v, off) == Some(Err(BlockNotFound))
  {
    hide Good; hide Sound; hide ReduceAndStore; hide Release; hide Decode; hide Reads; hide Aligned; hide ReleaseAll;
    StoreThenRelease(c, s.store, d, id);
    var written := WriteBlock(c, s, v, off, d, id).0;
    ReleaseSingle(written.store, written.volumes[v].blocks, off);
  }

  // ---------------------------------------------------------------- markers written as data

  // The store after a pattern block, its marker written as data, and the pattern again.
  lemma MarkerStores(c: Codec, e: Store, ever: set<Claim>, x: Bytes, id0: BlockId, id1: BlockId, id2: BlockId)
    requires Sound(c) && StoreInv(c, e, ever) && Good(c, x) && !Analyze(x).Mixed? && InPlay(c, MarkerOf(x)) && id0 !in e.backend
    ensures var m, h := MarkerOf(x), c.hash(MarkerOf(x));
      var r0 := ReduceAndStore(c, e, x, id0);
      && r0.Ok? && r0.value.1.blockId == id0 && r0.value.1.fingerprint == h
      && var r1 := ReduceAndStore(c, r0.value.0, m, id1);
         && r1.Ok? && r1.value.1.blockId == id1 && r1.value.1.fingerprint == h
         && var r2 := ReduceAndStore(c, r1.value.0, x, id2);
            && r2.Ok? && r2.value.1.blockId == id1 && r2.value.1.fingerprint == h
            && h in r2.value.0.table && r2.value.0.table[h].refs == 2
            && Retrieve(c, r2.value.0, id1) == Reads(c, x)
  {
    hide Compress; hide Decode; hide IsMarker; hide Analyze; hide Readable; hide Indexed; hide CountsCover; hide Reads;
    var m, h := MarkerOf(x), Fingerprint(c, x);
    PatternIsMarker(x);
    MarkerReadsAsPattern(c, x);
    ReadsBack(c, m);
    var (e0, p0) := ReduceAndStore(c, e, x, id0).value;
    assert h !in e.table;
    assert c.hash(x) != h;
    assert h !in e0.table;
    var (e1, p1) := ReduceAndStore(c, e0, m, id1).value;
    assert e1.table[h] == Entry(id1, |m|, 1) && Holds(c, e1, id1, m);
  }

  // Releasing the first pattern block uses up a reference it never took, so the release of
  // the marker's block is the last.
  lemma MarkerReleases(e: Store, h: string, id0: BlockId, id1: BlockId)
    requires h in e.table && e.table[h].refs == 2
    ensures id1 !in Release(Release(e, id0, h), id1, h).backend
  {
  }

  // What pattern removal makes of a pattern block.
  function MarkerOf(x: Bytes): Bytes {
    if EncodePattern(x).Ok? then EncodePattern(x).value.0 else []
  }

  ghost predicate EmptyVolume(s: Array, v: VolumeId, room: nat) {
    v in s.volumes && s.volumes[v].blocks == map[] && room <= s.volumes[v].sizeBytes
  }

  // One write of marker bytes costs another volume its block.  In any state of the safe
  // fragment: volume v0 writes a pattern block, v1 writes the marker that stands for it, v2
  // writes the pattern block, which is found through the marker's entry and reads back;
  // delete v0 and v1, and v2 can no longer read what it wrote.
  lemma MarkerLosesData(c: Codec, ever: set<Claim>, x: Bytes, v0: VolumeId, v1: VolumeId, v2: VolumeId,
                        trace: seq<Array>, events: seq<Event>)
    requires Sound(c) && Aligned(c, 0) && Good(c, x) && !Analyze(x).Mixed? && InPlay(c, MarkerOf(x))
    requires |trace| == 8 && |events| == 7 && Inv(c, trace[0], ever)
    requires v0 != v1 && v1 != v2 && v0 != v2
    requires var room := |x| + |MarkerOf(x)|;
      EmptyVolume(trace[0], v0, room) && EmptyVolume(trace[0], v1, room) && EmptyVolume(trace[0], v2, room)
    requires forall i | 0 <= i < 7 :: Perform(c, trace[i], events[i], trace[i + 1])
    requires events[0].Wrote? && events[0].vol == v0 && events[0].off == 0 && events[0].data == x
    requires events[1].Wrote? && events[1].vol == v1 && events[1].off == 0 && events[1].data == MarkerOf(x)
    requires events[2].Wrote? && events[2].vol == v2 && events[2].off == 0 && events[2].data == x
    requires events[3].WasRead? && events[3].vol == v2 && events[3].off == 0
    requires events[4].Deleted? && events[4].vol == v0 && events[5].Deleted? && events[5].vol == v1
    requires events[6].WasRead? && events[6].vol == v2 && events[6].off == 0
    ensures events[0].reply.Done? && events[1].reply.Done? && events[2].reply.Done?
    ensures events[3].answer == Some(Reads(c, x)) && events[4].found && events[5].found
    ensures events[6].answer == Some(Err(BlockNotFound))
  {
    hide Good; hide Sound; hide ReduceAndStore; hide Release; hide Decode; hide Reads; hide Aligned; hide Analyze; hide Encode; hide StoreInv; hide AllBacked; hide InPlay; hide WriteBlock; hide DeleteVolume; hide Enumerates; hide MarkerOf;
    var m, h, s := MarkerOf(x), c.hash(MarkerOf(x)), trace[0];
    assert Perform(c, trace[0], events[0], trace[1]);
    MarkerStores(c, s.store, ever, x, events[0].id, events[1].id, events[2].id);
    FirstWrite(c, trace[0], v0, x, events[0].id);
    assert Perform(c, trace[1], events[1], trace[2]);
    FirstWrite(c, trace[1], v1, m, events[1].id);
    assert Perform(c, trace[2], events[2], trace[3]);
    FirstWrite(c, trace[2], v2, x, events[2].id);
    assert Perform(c, trace[3], events[3], trace[4]);
    assert Perform(c, trace[4], events[4], trace[5]);
    DeleteSingle(trace[4], v0, VolumeBlock(events[0].id, h, |x|), events[4].order);
    assert Perform(c, trace[5], events[5], trace[6]);
    DeleteSingle(trace[5], v1, VolumeBlock(events[1].id, h, |m|), events[5].order);
    MarkerReleases(trace[4].store, h, events[0].id, events[1].id);
    assert Perform(c, trace[6], events[6], trace[7]);
  }

  // A write at the start of an empty volume.
  lemma FirstWrite(c: Codec, s: Array, v: VolumeId, d: Bytes, id: BlockId)
    requires Aligned(c, 0) && v in s.volumes && s.volumes[v].blocks == map[] && |d| <= s.volumes[v].sizeBytes
    requires ReduceAndStore(c, s.store, d, id).Ok?
    ensures var (e, placed) := ReduceAndStore(c, s.store, d, id).value;
      var blk := VolumeBlock(placed.blockId, placed.fingerprint, |d|);
      WriteBlock(c, s, v, 0, d, id) ==
        (s.(store := e, volumes := s.volumes[v := s.volumes[v].(blocks := map[0 := blk])]), Done)
  {
    hide ReduceAndStore;
  }

  lemma DeleteSingle(s: Array, v: VolumeId, blk: VolumeBlock, order: seq<int>)
    requires v in s.volumes && s.volumes[v].blocks == map[0 := blk] && Enumerates(order, s.volumes[v].blocks.Keys)
    ensures DeleteVolume(s, v, order) ==
      s.(store := Release(s.store, blk.blockId, blk.fingerprint), volumes := s.volumes - {v})
  {
    hide Release;
    assert 0 in order;
    assert order[0] == 0 && order[|order| - 1] == 0;
    assert order == [0];
    ReleaseSingle(s.store, s.volumes[v].blocks, 0);
  }
}
