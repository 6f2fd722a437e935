/**
The exact reference counts of the safe fragment: over every run the count of a fingerprint is
the number of stores of its data less the number of its blocks in deleted volumes.  Data in
overwritten blocks, and in writes refused for size, stays counted; pattern blocks are counted
but never released.
 */
module ArrayCounts {
  import opened Common
  import opened Reduction
  import opened DedupModel
  import opened ArrayModel
  import opened ArrayRuns
  import opened ArraySharing

  ghost function Count(e: Store, h: string): int {
    if h in e.table then e.table[h].refs else 0
  }

  // A store counts its data once, new or known, and nothing else.
  lemma StoreCounts(c: Codec, e: Store, d: Bytes, id: BlockId, h: string)
    requires TableTrue(c, e) && InPlay(c, d) && !IsMarker(d) && ReduceAndStore(c, e, d, id).Ok?
    ensures Count(ReduceAndStore(c, e, d, id).value.0, h) == Count(e, h) + if c.hash(d) == h then 1 else 0
  {
    hide IsMarker; hide Compress; hide Analyze;
    if EncodePattern(d).value.1 {
      PatternIsMarker(d);
    }
  }

  // A release takes one off the count of a fingerprint the table knows.
  lemma ReleaseCounts(e: Store, id: BlockId, f: string, h: string)
    requires f in e.table ==> e.table[f].refs >= 1
    ensures Count(Release(e, id, f), h) == Count(e, h) - if f == h && h in e.table then 1 else 0
  {
  }

  // A claimed block with the hash of some data other than a marker holds that data, and the
  // table knows it.
  lemma ClaimIsCounted(c: Codec, e: Store, ever: set<Claim>, w: Claim, d: Bytes)
    requires Sound(c) && StoreInv(c, e, ever) && w in ever && Good(c, d)
    requires EncodePattern(w.data).Ok? && Fingerprint(c, w.data) == c.hash(d)
    ensures c.hash(d) in e.table
  {
    hide Sound; hide Good; hide Holds; hide Fingerprint; hide Analyze; hide TableTrue; hide CountsCover; hide EncodePattern;
    FingerprintsApart(c, w.data, d);
  }

  // Releasing a volume's blocks takes off the count exactly the offsets that hold the data.
  lemma {:induction false} ReleaseAllCounts(c: Codec, e: Store, ever: set<Claim>, v: VolumeId,
                                            blocks: map<int, VolumeBlock>, order: seq<int>, d: Bytes)
    requires Sound(c) && StoreInv(c, e, ever) && Good(c, d)
    requires forall i | 0 <= i < |order| :: order[i] in blocks && Backed(c, ever, v, order[i], blocks[order[i]])
    requires forall i, j | 0 <= i < j < |order| :: order[i] != order[j]
    ensures Count(ReleaseAll(e, blocks, order), c.hash(d)) == Count(e, c.hash(d)) - Occurrences(blocks, order, c.hash(d))
    decreases |order|
  {
    hide Sound; hide EncodePattern; hide Fingerprint; hide Release; hide Good; hide Readable; hide Indexed; hide TableTrue; hide Holders; hide Count;
    if |order| > 0 {
      var off, blk := order[0], blocks[order[0]];
      var x :| Claim(v, off, blk.blockId, x) in ever && Describes(c, blk, x);
      var w := Claim(v, off, blk.blockId, x);
      if blk.fingerprint == c.hash(d) {
        ClaimIsCounted(c, e, ever, w, d);
      }
      ReleaseCounts(e, blk.blockId, blk.fingerprint, c.hash(d));
      ReleaseKeeps(c, e, ever, w);
      forall i | 0 <= i < |order| - 1
        ensures Backed(c, ever - {w}, v, order[1..][i], blocks[order[1..][i]])
      {
        var o := order[i + 1];
        var y :| Claim(v, o, blocks[o].blockId, y) in ever && Describes(c, blocks[o], y);
        assert Claim(v, o, blocks[o].blockId, y) in ever - {w};
      }
      ReleaseAllCounts(c, Release(e, blk.blockId, blk.fingerprint), ever - {w}, v, blocks, order[1..], d);
    }
  }

  // Offsets that hold fingerprint h.
  ghost function Holding(blocks: map<int, VolumeBlock>, h: string): set<int> {
    set off | off in blocks && blocks[off].fingerprint == h
  }

  ghost function HoldingAmong(blocks: map<int, VolumeBlock>, keys: set<int>, h: string): set<int> {
    set off | off in keys && off in blocks && blocks[off].fingerprint == h
  }

  lemma RestEnumerates(order: seq<int>, keys: set<int>)
    requires |order| > 0 && Enumerates(order, keys)
    ensures order[0] in keys && Enumerates(order[1..], keys - {order[0]})
  {
    var rest := order[1..];
    assert forall i | 0 <= i < |rest| :: rest[i] == order[i + 1];
    forall k | k in keys - {order[0]}
      ensures k in rest
    {
      var i :| 0 <= i < |order| && order[i] == k;
      assert rest[i - 1] == k;
    }
  }

  lemma NothingEnumerated(keys: set<int>)
    requires Enumerates([], keys)
    ensures keys == {}
  {
    if keys != {} {
      var k := HasElement(keys);
    }
  }

  lemma OneMoreHolding(blocks: map<int, VolumeBlock>, keys: set<int>, off: int, h: string)
    requires off in keys && off in blocks
    ensures |HoldingAmong(blocks, keys, h)| ==
      |HoldingAmong(blocks, keys - {off}, h)| + if blocks[off].fingerprint == h then 1 else 0
  {
    var less, all := HoldingAmong(blocks, keys - {off}, h), HoldingAmong(blocks, keys, h);
    if blocks[off].fingerprint == h {
      assert all == less + {off};
    } else {
      assert all == less;
    }
  }

  lemma {:induction false} OccurrencesAreOffsets(blocks: map<int, VolumeBlock>, order: seq<int>, keys: set<int>, h: string)
    requires keys <= blocks.Keys && Enumerates(order, keys) && forall i | 0 <= i < |order| :: order[i] in blocks
    ensures Occurrences(blocks, order, h) == |HoldingAmong(blocks, keys, h)|
    decreases |order|
  {
    hide Enumerates; hide HoldingAmong;
    if |order| > 0 {
      RestEnumerates(order, keys);
      OccurrencesAreOffsets(blocks, order[1..], keys - {order[0]}, h);
      OneMoreHolding(blocks, keys, order[0], h);
    } else {
      NothingEnumerated(keys);
      NothingHeld(blocks, h);
    }
  }

  lemma NothingHeld(blocks: map<int, VolumeBlock>, h: string)
    ensures |HoldingAmong(blocks, {}, h)| == 0
  {
    assert HoldingAmong(blocks, {}, h) == {};
  }

  lemma ReleasedOffsets(blocks: map<int, VolumeBlock>, order: seq<int>, h: string)
    requires Enumerates(order, blocks.Keys)
    ensures Occurrences(blocks, order, h) == |Holding(blocks, h)|
  {
    OccurrencesAreOffsets(blocks, order, blocks.Keys, h);
    assert Holding(blocks, h) == HoldingAmong(blocks, blocks.Keys, h);
  }

  // ---------------------------------------------------------------- over runs

  // A write whose data reached the store: done, or refused for size afterwards.
  ghost function StoresBy(c: Codec, events: seq<Event>, h: string): nat {
    if |events| == 0 then 0
    else
      var e := events[|events| - 1];
      var stored := e.Wrote? && (e.reply.Done? || e.reply.ExceedsVolume?) && c.hash(e.data) == h;
      StoresBy(c, events[..|events| - 1], h) + if stored then 1 else 0
  }

  // Blocks with fingerprint h in the volumes deleted by the first i calls.
  ghost function ReleasesBy(trace: seq<Array>, events: seq<Event>, i: nat, h: string): nat
    requires i <= |events| < |trace|
  {
    if i == 0 then 0
    else
      var s, e := trace[i - 1], events[i - 1];
      var released := if e.Deleted? && e.found && e.vol in s.volumes then |Holding(s.volumes[e.vol].blocks, h)| else 0;
      ReleasesBy(trace, events, i - 1, h) + released
  }

  // Each call changes the count by what it stores or releases.
  lemma StepCounts(c: Codec, s: Array, ever: set<Claim>, e: Event, t: Array, d: Bytes)
    requires Sound(c) && Inv(c, s, ever) && Step(c, s, e, t) && Good(c, d)
    ensures var h := c.hash(d);
      Count(t.store, h) == Count(s.store, h)
        + (if e.Wrote? && (e.reply.Done? || e.reply.ExceedsVolume?) && c.hash(e.data) == h then 1 else 0)
        - (if e.Deleted? && e.found && e.vol in s.volumes then |Holding(s.volumes[e.vol].blocks, h)| else 0)
  {
    hide Sound; hide Good; hide Readable; hide Indexed; hide TableTrue; hide CountsCover; hide Count; hide ReduceAndStore; hide ReleaseAll; hide InPlay; hide IsMarker; hide Backed; hide Holding;
    match e
    case Wrote(v, off, x, id, reply) =>
      if ReduceAndStore(c, s.store, x, id).Ok? {
        StoreCounts(c, s.store, x, id, c.hash(d));
      }
    case Deleted(v, order, found) =>
      if found {
        ReleaseAllCounts(c, s.store, ever, v, s.volumes[v].blocks, order, d);
        ReleasedOffsets(s.volumes[v].blocks, order, c.hash(d));
      }
    case Created(_, _) =>
    case WasRead(_, _, _) =>
    case Snapped(_, _, _) =>
    case Unsnapped(_, _) =>
    case Restored(_, _, _) =>
  }

  // At every point of every run the count of any data's hash is the number of stores of the
  // data less the number of its blocks in deleted volumes, and the table has an entry exactly
  // while that is not zero.
  lemma {:induction false} CountsAreExact(c: Codec, trace: seq<Array>, events: seq<Event>, i: nat, d: Bytes)
    requires Sound(c) && Run(c, trace, events) && i <= |events| && Good(c, d)
    ensures var h, e := c.hash(d), trace[i].store;
      && Count(e, h) == StoresBy(c, events[..i], h) - ReleasesBy(trace, events, i, h)
      && (h in e.table <==> StoresBy(c, events[..i], h) > ReleasesBy(trace, events, i, h))
  {
    hide Sound; hide Good; hide Step; hide Holding; hide ViewOf; hide EverAt; hide Readable; hide Indexed; hide TableTrue; hide Holders;
    RunInvariant(c, trace, events, i);
    if i > 0 {
      CountsAreExact(c, trace, events, i - 1, d);
      RunInvariant(c, trace, events, i - 1);
      StepCounts(c, trace[i - 1], EverAt(c, trace, events, i - 1), events[i - 1], trace[i], d);
      assert events[..i][..i - 1] == events[..i - 1];
    }
  }
}
