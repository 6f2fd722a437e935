/** Histories of controller calls, and what every call keeps. */
module ArrayRuns {
  import opened Common
  import opened Reduction
  import opened DedupModel
  import opened ArrayModel

  // ---------------------------------------------------------------- what each call keeps

  // Storing more, with more claims, changes nothing anybody can see.
  lemma GrowKeeps(c: Codec, s: Array, ever: set<Claim>, e: Store, ever': set<Claim>)
    requires Inv(c, s, ever) && StoreInv(c, e, ever') && ever <= ever'
    requires forall w | w in ever' :: w.vol in s.volumes
    ensures Inv(c, s.(store := e), ever') && ViewOf(c, s.(store := e)) == ViewOf(c, s)
  {
    hide StoreInv; hide Contents; hide AllBacked;
    var t := s.(store := e);
    forall v | v in s.volumes
      ensures AllBacked(c, ever', v, s.volumes[v].blocks)
      ensures Contents(c, e, s.volumes[v].blocks) == Contents(c, s.store, s.volumes[v].blocks)
    {
      ContentsStable(c, s.store, ever, e, ever', v, s.volumes[v].blocks);
    }
    forall sid | LiveSnapshot(s, sid)
      ensures AllBacked(c, ever', s.snapshots[sid].volumeId, s.snapshots[sid].blocks)
      ensures Contents(c, e, s.snapshots[sid].blocks) == Contents(c, s.store, s.snapshots[sid].blocks)
    {
      ContentsStable(c, s.store, ever, e, ever', s.snapshots[sid].volumeId, s.snapshots[sid].blocks);
    }
    MapsAgree(VolumesOf(c, t), VolumesOf(c, s));
    MapsAgree(SnapshotsOf(c, t), SnapshotsOf(c, s));
  }

  // The view with other contents for one volume.
  ghost function WithContents(view: View, v: VolumeId, contents: map<int, Result<Bytes, Error>>): View
    requires v in view.volumes
  {
    view.(volumes := view.volumes[v := view.volumes[v].(contents := contents)])
  }

  // Pointing a volume at other backed blocks changes that volume's view and no other.
  lemma RemapKeeps(c: Codec, s: Array, ever: set<Claim>, v: VolumeId, blocks: map<int, VolumeBlock>)
    requires Inv(c, s, ever) && v in s.volumes && AllBacked(c, ever, v, blocks)
    ensures var t := s.(volumes := s.volumes[v := s.volumes[v].(blocks := blocks)]);
      && Inv(c, t, ever)
      && ViewOf(c, t) == WithContents(ViewOf(c, s), v, Contents(c, s.store, blocks))
  {
    hide StoreInv; hide Contents; hide AllBacked;
    var t := s.(volumes := s.volumes[v := s.volumes[v].(blocks := blocks)]);
    assert t.volumes.Keys == s.volumes.Keys;
    assert forall sid :: LiveSnapshot(t, sid) <==> LiveSnapshot(s, sid);
    MapsAgree(VolumesOf(c, t), WithContents(ViewOf(c, s), v, Contents(c, s.store, blocks)).volumes);
    MapsAgree(SnapshotsOf(c, t), SnapshotsOf(c, s));
  }

  // One more block in a volume's map is one more offset in its contents.
  lemma ContentsUpdate(c: Codec, e: Store, ever: set<Claim>, v: VolumeId, blocks: map<int, VolumeBlock>,
                       off: int, blk: VolumeBlock, d: Bytes)
    requires Sound(c) && StoreInv(c, e, ever) && AllBacked(c, ever, v, blocks)
    requires Claim(v, off, blk.blockId, d) in ever && Describes(c, blk, d)
    ensures AllBacked(c, ever, v, blocks[off := blk])
    ensures Contents(c, e, blocks[off := blk]) == Contents(c, e, blocks)[off := Reads(c, d)]
  {
    hide Good; hide Encode; hide Decode; hide Indexed; hide TableTrue; hide CountsCover; hide Describes; hide Sound; hide Reads;
    assert Holds(c, e, blk.blockId, d);
    ReadsBack(c, d);
    var bs := blocks[off := blk];
    assert Backed(c, ever, v, off, blk);
    assert AllBacked(c, ever, v, bs);
    MapsAgree(Contents(c, e, bs), Contents(c, e, blocks)[off := Reads(c, d)]);
  }

  ghost function EverAfterWrite(c: Codec, s: Array, ever: set<Claim>, v: VolumeId, off: int, d: Bytes, id: BlockId): set<Claim> {
    if WriteBlock(c, s, v, off, d, id).1.Done?
    then ever + {Claim(v, off, WriteBlock(c, s, v, off, d, id).0.volumes[v].blocks[off].blockId, d)}
    else ever
  }

  // The answer a write should get, told from what callers can see.
  ghost function Reply(c: Codec, view: View, v: VolumeId, off: int, d: Bytes): WriteReply {
    if v !in view.volumes then NoVolume
    else if !Aligned(c, off) then Misaligned
    else if !AllSame(d, 0) && |d| >= WORD then ReduceFailed(Overflow)
    else if off + |d| > view.volumes[v].sizeBytes then ExceedsVolume
    else Done
  }

  // Which data a run may write: any but what pattern removal itself produces.
  predicate Admitted(c: Codec, d: Bytes) {
    !IsMarker(d) && InPlay(c, d)
  }

  // A write that succeeds updates one offset of one volume; any other changes nothing
  // visible.  Which it is can be told beforehand.
  lemma WriteKeeps(c: Codec, s: Array, ever: set<Claim>, v: VolumeId, off: int, d: Bytes, id: BlockId)
    requires Sound(c) && Inv(c, s, ever) && Admitted(c, d) && id !in s.store.backend
    ensures var (t, reply) := WriteBlock(c, s, v, off, d, id);
      && Inv(c, t, EverAfterWrite(c, s, ever, v, off, d, id))
      && reply == Reply(c, ViewOf(c, s), v, off, d)
      && ViewOf(c, t) == if reply.Done? then
           WithContents(ViewOf(c, s), v, ViewOf(c, s).volumes[v].contents[off := Reads(c, d)])
         else ViewOf(c, s)
  {
    hide StoreInv; hide Contents; hide AllBacked; hide Sound; hide ReduceAndStore; hide Admitted; hide Reads; hide SnapshotsOf; hide OrphansOf;
    if v in s.volumes && Aligned(c, off) {
      MayStore(c, s.store, ever, d, id);
      if ReduceAndStore(c, s.store, d, id).Ok? {
        var (e, placed) := ReduceAndStore(c, s.store, d, id).value;
        var w := Claim(v, off, placed.blockId, d);
        var vol := s.volumes[v];
        StoreKeeps(c, s.store, ever, v, off, d, id);
        if off + |d| > vol.sizeBytes {
          FewerClaims(c, e, ever, ever + {w});
          GrowKeeps(c, s, ever, e, ever);
        } else {
          GrowKeeps(c, s, ever, e, ever + {w});
          var blk := VolumeBlock(placed.blockId, placed.fingerprint, |d|);
          ContentsUpdate(c, e, ever + {w}, v, vol.blocks, off, blk, d);
          RemapKeeps(c, s.(store := e), ever + {w}, v, vol.blocks[off := blk]);
          assert ViewOf(c, s.(store := e)).volumes[v].contents == Contents(c, e, vol.blocks);
        }
      }
    }
  }

  // Whether admitted data can be stored depends on its length alone.
  lemma MayStore(c: Codec, e: Store, ever: set<Claim>, d: Bytes, id: BlockId)
    requires StoreInv(c, e, ever) && Admitted(c, d)
    ensures var r := ReduceAndStore(c, e, d, id);
      && (r.Err? <==> !AllSame(d, 0) && |d| >= WORD) && (r.Err? ==> r.error == Overflow)
      && (r.Ok? ==> Good(c, d) && EncodePattern(d).Ok? && r.value.1.fingerprint == Fingerprint(c, d))
  {
    hide IsMarker; hide Readable; hide Indexed; hide CountsCover; hide Compress; hide Analyze; hide ReduceAndStore; hide TableTrue;
    StoreFails(c, e, d, id);
    EncodeFails(c, d);
    if ReduceAndStore(c, e, d, id).Ok? {
      StoreSucceeds(c, e, d, id);
    }
  }

  // ---------------------------------------------------------------- deleting a volume

  ghost function Others(ever: set<Claim>, v: VolumeId): set<Claim> {
    set w | w in ever && w.vol != v
  }

  // Releasing a volume's blocks one by one, in any order, costs no other volume anything.
  lemma {:induction false} ReleaseAllKeeps(c: Codec, e: Store, ever: set<Claim>, v: VolumeId,
                                           blocks: map<int, VolumeBlock>, order: seq<int>)
    requires Sound(c) && StoreInv(c, e, ever)
    requires forall i | 0 <= i < |order| :: order[i] in blocks && Backed(c, ever, v, order[i], blocks[order[i]])
    requires forall i, j | 0 <= i < j < |order| :: order[i] != order[j]
    ensures StoreInv(c, ReleaseAll(e, blocks, order), Others(ever, v))
    decreases |order|
  {
    hide Sound; hide StoreInv; hide EncodePattern; hide Fingerprint; hide Release;
    if |order| == 0 {
      FewerClaims(c, e, Others(ever, v), ever);
    } else {
      var off, blk := order[0], blocks[order[0]];
      var d :| Claim(v, off, blk.blockId, d) in ever && Describes(c, blk, d);
      var w := Claim(v, off, blk.blockId, d);
      ReleaseKeeps(c, e, ever, w);
      forall i | 0 <= i < |order| - 1
        ensures Backed(c, ever - {w}, v, order[1..][i], blocks[order[1..][i]])
      {
        var o := order[i + 1];
        var x :| Claim(v, o, blocks[o].blockId, x) in ever && Describes(c, blocks[o], x);
        assert Claim(v, o, blocks[o].blockId, x) in ever - {w};
      }
      ReleaseAllKeeps(c, Release(e, blk.blockId, blk.fingerprint), ever - {w}, v, blocks, order[1..]);
      assert Others(ever - {w}, v) == Others(ever, v);
    }
  }

  ghost function WithoutVolume(view: View, v: VolumeId): View {
    View(view.volumes - {v},
         map sid | sid in view.snapshots && view.snapshots[sid].volumeId != v :: view.snapshots[sid],
         view.orphans + (set sid | sid in view.snapshots && view.snapshots[sid].volumeId == v))
  }

  // Deleting a volume takes it out of sight and orphans its snapshots, and nothing else.
  lemma DeleteVolumeKeeps(c: Codec, s: Array, ever: set<Claim>, v: VolumeId, order: seq<int>)
    requires Sound(c) && Inv(c, s, ever) && v in s.volumes && Enumerates(order, s.volumes[v].blocks.Keys)
    ensures Inv(c, DeleteVolume(s, v, order), Others(ever, v))
    ensures ViewOf(c, DeleteVolume(s, v, order)) == WithoutVolume(ViewOf(c, s), v)
  {
    hide Sound; hide StoreInv; hide Contents; hide Backed; hide ReleaseAll;
    var t, rest := DeleteVolume(s, v, order), Others(ever, v);
    ReleaseAllKeeps(c, s.store, ever, v, s.volumes[v].blocks, order);
    assert t.volumes.Keys == s.volumes.Keys - {v};
    forall u | u in t.volumes
      ensures AllBacked(c, rest, u, t.volumes[u].blocks)
      ensures Contents(c, t.store, t.volumes[u].blocks) == Contents(c, s.store, s.volumes[u].blocks)
    {
      ContentsStable(c, s.store, ever, t.store, rest, u, t.volumes[u].blocks);
    }
    forall sid | LiveSnapshot(t, sid)
      ensures AllBacked(c, rest, t.snapshots[sid].volumeId, t.snapshots[sid].blocks)
      ensures Contents(c, t.store, t.snapshots[sid].blocks) == Contents(c, s.store, s.snapshots[sid].blocks)
    {
      assert LiveSnapshot(s, sid);
      ContentsStable(c, s.store, ever, t.store, rest, t.snapshots[sid].volumeId, t.snapshots[sid].blocks);
    }
    assert forall sid :: LiveSnapshot(t, sid) <==> LiveSnapshot(s, sid) && s.snapshots[sid].volumeId != v;
    MapsAgree(VolumesOf(c, t), VolumesOf(c, s) - {v});
    MapsAgree(SnapshotsOf(c, t), WithoutVolume(ViewOf(c, s), v).snapshots);
    assert OrphansOf(t) == WithoutVolume(ViewOf(c, s), v).orphans;
  }

  // ---------------------------------------------------------------- volumes and snapshots

  // A drawn volume id has never been used, not even by a deleted volume with a snapshot left.
  ghost predicate FreshVolume(s: Array, v: VolumeId) {
    v !in s.volumes && forall sid | sid in s.snapshots :: s.snapshots[sid].volumeId != v
  }

  lemma CreateVolumeKeeps(c: Codec, s: Array, ever: set<Claim>, v: VolumeId, sizeBytes: int)
    requires Inv(c, s, ever) && FreshVolume(s, v)
    ensures Inv(c, CreateVolume(s, v, sizeBytes), ever)
    ensures ViewOf(c, CreateVolume(s, v, sizeBytes)) ==
      ViewOf(c, s).(volumes := ViewOf(c, s).volumes[v := VolumeView(sizeBytes, map[])])
  {
    hide StoreInv; hide Retrieve;
    var t := CreateVolume(s, v, sizeBytes);
    assert forall sid :: LiveSnapshot(t, sid) <==> LiveSnapshot(s, sid);
    assert Contents(c, s.store, map[]) == map[];
    MapsAgree(VolumesOf(c, t), VolumesOf(c, s)[v := VolumeView(sizeBytes, map[])]);
    MapsAgree(SnapshotsOf(c, t), SnapshotsOf(c, s));
  }

  // A volume's size and contents, kept.
  ghost function Frozen(v: VolumeId, volume: VolumeView): SnapshotView {
    SnapshotView(v, volume.sizeBytes, volume.contents)
  }

  // A snapshot freezes the volume's contents of the moment.
  lemma CreateSnapshotKeeps(c: Codec, s: Array, ever: set<Claim>, v: VolumeId, sid: SnapshotId)
    requires Inv(c, s, ever) && v in s.volumes && sid !in s.snapshots
    ensures Inv(c, CreateSnapshot(s, v, sid), ever)
    ensures ViewOf(c, CreateSnapshot(s, v, sid)) ==
      ViewOf(c, s).(snapshots := ViewOf(c, s).snapshots[sid := Frozen(v, ViewOf(c, s).volumes[v])])
  {
    hide StoreInv; hide Contents; hide AllBacked;
    var t := CreateSnapshot(s, v, sid);
    assert forall x :: LiveSnapshot(t, x) <==> LiveSnapshot(s, x) || x == sid;
    MapsAgree(VolumesOf(c, t), VolumesOf(c, s));
    MapsAgree(SnapshotsOf(c, t), SnapshotsOf(c, s)[sid := Frozen(v, VolumesOf(c, s)[v])]);
  }

  lemma DeleteSnapshotKeeps(c: Codec, s: Array, ever: set<Claim>, sid: SnapshotId)
    requires Inv(c, s, ever)
    ensures Inv(c, DeleteSnapshot(s, sid), ever)
    ensures ViewOf(c, DeleteSnapshot(s, sid)) ==
      ViewOf(c, s).(snapshots := ViewOf(c, s).snapshots - {sid}, orphans := ViewOf(c, s).orphans - {sid})
  {
    hide StoreInv; hide Contents; hide AllBacked;
    var t := DeleteSnapshot(s, sid);
    assert forall x :: LiveSnapshot(t, x) <==> LiveSnapshot(s, x) && x != sid;
    MapsAgree(VolumesOf(c, t), VolumesOf(c, s));
    MapsAgree(SnapshotsOf(c, t), SnapshotsOf(c, s) - {sid});
  }

  // Restoring a snapshot into its own volume brings back the contents it froze.
  lemma RestoreKeeps(c: Codec, s: Array, ever: set<Claim>, sid: SnapshotId)
    requires Inv(c, s, ever) && LiveSnapshot(s, sid)
    ensures var v := s.snapshots[sid].volumeId;
      && Inv(c, RestoreSnapshot(s, sid, v), ever)
      && ViewOf(c, RestoreSnapshot(s, sid, v)) ==
           WithContents(ViewOf(c, s), v, ViewOf(c, s).snapshots[sid].contents)
  {
    hide StoreInv; hide Contents; hide AllBacked;
    RemapKeeps(c, s, ever, s.snapshots[sid].volumeId, s.snapshots[sid].blocks);
  }

  // ---------------------------------------------------------------- histories

  // A controller call with the ids it drew and the answer its caller got.
  datatype Event =
    | Created(vol: VolumeId, sizeBytes: int)
    | Wrote(vol: VolumeId, off: int, data: Bytes, id: BlockId, reply: WriteReply)
    | WasRead(vol: VolumeId, off: int, answer: Option<Result<Bytes, Error>>)
    | Deleted(vol: VolumeId, order: seq<int>, found: bool)
    | Snapped(vol: VolumeId, snap: SnapshotId, found: bool)
    | Unsnapped(snap: SnapshotId, found: bool)
    | Restored(snap: SnapshotId, vol: VolumeId, found: bool)

  // What a call does.  Drawn ids are fresh.
  ghost predicate Perform(c: Codec, s: Array, e: Event, t: Array) {
    match e
    case Created(v, size) => FreshVolume(s, v) && t == CreateVolume(s, v, size)
    case Wrote(v, off, d, id, reply) => id !in s.store.backend && (t, reply) == WriteBlock(c, s, v, off, d, id)
    case WasRead(v, off, answer) => t == s && answer == ReadBlock(c, s, v, off)
    case Deleted(v, order, found) =>
      && (found <==> v in s.volumes)
      && (found ==> Enumerates(order, s.volumes[v].blocks.Keys))
      && t == if found then DeleteVolume(s, v, order) else s
    case Snapped(v, sid, found) =>
      sid !in s.snapshots && (found <==> v in s.volumes) && t == CreateSnapshot(s, v, sid)
    case Unsnapped(sid, found) => (found <==> sid in s.snapshots) && t == DeleteSnapshot(s, sid)
    case Restored(sid, v, found) => (found <==> sid in s.snapshots && v in s.volumes) && t == RestoreSnapshot(s, sid, v)
  }

  // The safe fragment: written data is not a marker, and a snapshot is restored only into
  // the volume it was taken from.  There is no clone.
  ghost predicate Safe(c: Codec, s: Array, e: Event) {
    && (e.Wrote? ==> Admitted(c, e.data))
    && (e.Restored? && e.snap in s.snapshots ==> s.snapshots[e.snap].volumeId == e.vol)
  }

  ghost predicate Step(c: Codec, s: Array, e: Event, t: Array) {
    Safe(c, s, e) && Perform(c, s, e, t)
  }

  // The same call on plain maps ...
  ghost function Apply(c: Codec, view: View, e: Event): View {
    match e
    case Created(v, size) => view.(volumes := view.volumes[v := VolumeView(size, map[])])
    case Wrote(v, off, d, _, reply) =>
      if reply.Done? && v in view.volumes then WithContents(view, v, view.volumes[v].contents[off := Reads(c, d)]) else view
    case WasRead(_, _, _) => view
    case Deleted(v, _, found) => if found then WithoutVolume(view, v) else view
    case Snapped(v, sid, found) =>
      if found && v in view.volumes
      then view.(snapshots := view.snapshots[sid := Frozen(v, view.volumes[v])]) else view
    case Unsnapped(sid, _) => view.(snapshots := view.snapshots - {sid}, orphans := view.orphans - {sid})
    case Restored(sid, v, found) =>
      if found && sid in view.snapshots && v in view.volumes
      then WithContents(view, v, view.snapshots[sid].contents) else view
  }

  // ... and the answer plain maps would give.
  ghost predicate Answers(c: Codec, view: View, e: Event) {
    match e
    case Created(v, _) => v !in view.volumes
    case Wrote(v, off, d, _, reply) => reply == Reply(c, view, v, off, d)
    case WasRead(v, off, answer) => answer == Lookup(view, v, off)
    case Deleted(v, _, found) => found <==> v in view.volumes
    case Snapped(v, sid, found) => (found <==> v in view.volumes) && sid !in view.snapshots && sid !in view.orphans
    case Unsnapped(sid, found) => found <==> sid in view.snapshots || sid in view.orphans
    case Restored(sid, v, found) => found <==> sid in view.snapshots
  }

  ghost function Lookup(view: View, v: VolumeId, off: int): Option<Result<Bytes, Error>> {
    if v in view.volumes && off in view.volumes[v].contents then Some(view.volumes[v].contents[off]) else None
  }

  ghost function NextEver(c: Codec, s: Array, ever: set<Claim>, e: Event): set<Claim> {
    match e
    case Wrote(v, off, d, id, _) => EverAfterWrite(c, s, ever, v, off, d, id)
    case Deleted(v, _, found) => if found then Others(ever, v) else ever
    case _ => ever
  }

  lemma ReadAnswers(c: Codec, s: Array, v: VolumeId, off: int)
    ensures ReadBlock(c, s, v, off) == Lookup(ViewOf(c, s), v, off)
  {
    hide Retrieve; hide SnapshotsOf; hide OrphansOf;
  }

  // Every call keeps the invariant, changes the view as plain maps change, and gave its
  // caller the plain maps' answer.
  lemma StepRefines(c: Codec, s: Array, ever: set<Claim>, e: Event, t: Array)
    requires Sound(c) && Inv(c, s, ever) && Step(c, s, e, t)
    ensures Inv(c, t, NextEver(c, s, ever, e))
    ensures ViewOf(c, t) == Apply(c, ViewOf(c, s), e)
    ensures Answers(c, ViewOf(c, s), e)
  {
    hide Sound; hide Inv; hide Contents; hide WithoutVolume; hide EverAfterWrite; hide Enumerates; hide Retrieve; hide Admitted; hide Reads; hide Aligned; hide WriteBlock;
    match e
    case Created(v, size) => CreateVolumeKeeps(c, s, ever, v, size);
    case Wrote(v, off, d, id, reply) => WriteKeeps(c, s, ever, v, off, d, id);
    case WasRead(v, off, _) => ReadAnswers(c, s, v, off);
    case Deleted(v, order, found) =>
      if found {
        DeleteVolumeKeeps(c, s, ever, v, order);
      }
    case Snapped(v, sid, found) =>
      if found {
        CreateSnapshotKeeps(c, s, ever, v, sid);
      }
    case Unsnapped(sid, _) => DeleteSnapshotKeeps(c, s, ever, sid);
    case Restored(sid, v, found) =>
      if found {
        RestoreKeeps(c, s, ever, sid);
      }
  }

  ghost predicate Run(c: Codec, trace: seq<Array>, events: seq<Event>) {
    && |trace| == |events| + 1
    && trace[0] == EmptyArray()
    && forall i | 0 <= i < |events| :: Step(c, trace[i], events[i], trace[i + 1])
  }

  ghost function Replay(c: Codec, events: seq<Event>): View {
    if |events| == 0 then View(map[], map[], {})
    else Apply(c, Replay(c, events[..|events| - 1]), events[|events| - 1])
  }

  // The claims still alive after i calls.
  ghost function EverAt(c: Codec, trace: seq<Array>, events: seq<Event>, i: nat): set<Claim>
    requires i <= |events| < |trace|
  {
    if i == 0 then {} else NextEver(c, trace[i - 1], EverAt(c, trace, events, i - 1), events[i - 1])
  }

  lemma EmptyInv(c: Codec)
    ensures Inv(c, EmptyArray(), {}) && ViewOf(c, EmptyArray()) == View(map[], map[], {})
  {
  }

  lemma {:induction false} RunInvariant(c: Codec, trace: seq<Array>, events: seq<Event>, i: nat)
    requires Sound(c) && Run(c, trace, events) && i <= |events|
    ensures Inv(c, trace[i], EverAt(c, trace, events, i))
    ensures ViewOf(c, trace[i]) == Replay(c, events[..i])
  {
    hide Sound; hide Inv; hide ViewOf; hide Step; hide Apply; hide NextEver; hide Answers;
    if i == 0 {
      EmptyInv(c);
    } else {
      RunInvariant(c, trace, events, i - 1);
      StepRefines(c, trace[i - 1], EverAt(c, trace, events, i - 1), events[i - 1], trace[i]);
      assert events[..i][..i - 1] == events[..i - 1];
    }
  }

  // In every run of the safe fragment every answer is the plain maps': in particular every
  // block of a live volume is still in the backend and reads back the data last written or
  // restored there.
  lemma RunRefinesMaps(c: Codec, trace: seq<Array>, events: seq<Event>, i: nat)
    requires Sound(c) && Run(c, trace, events) && i < |events|
    ensures Answers(c, Replay(c, events[..i]), events[i])
  {
    hide Sound; hide Inv; hide ViewOf; hide Step; hide Apply; hide NextEver; hide Answers;
    RunInvariant(c, trace, events, i);
    StepRefines(c, trace[i], EverAt(c, trace, events, i), events[i], trace[i + 1]);
  }

  // The same for every volume and offset at every point, whether or not anybody reads:
  // nothing a live volume holds is ever missing from the backend.
  lemma RunReadsBack(c: Codec, trace: seq<Array>, events: seq<Event>, i: nat, v: VolumeId, off: int)
    requires Sound(c) && Run(c, trace, events) && i <= |events|
    ensures ReadBlock(c, trace[i], v, off) == Lookup(Replay(c, events[..i]), v, off)
    ensures ReadBlock(c, trace[i], v, off) != Some(Err(BlockNotFound))
  {
    hide Sound; hide ViewOf; hide Step; hide Retrieve; hide StoreInv; hide Backed; hide Lookup; hide NextEver; hide EverAt; hide Replay; hide Reads;
    RunInvariant(c, trace, events, i);
    ReadAnswers(c, trace[i], v, off);
    if v in trace[i].volumes && off in trace[i].volumes[v].blocks {
      var _ := BackedReads(c, trace[i].store, EverAt(c, trace, events, i), v, off, trace[i].volumes[v].blocks[off]);
    }
  }

  // ---------------------------------------------------------------- reference counts

  // Call k wrote data with fingerprint h, and its volume has not been deleted by call i.
  ghost predicate LiveWrite(c: Codec, events: seq<Event>, i: nat, k: nat, h: string) {
    && k < i <= |events| && events[k].Wrote? && events[k].reply.Done?
    && EncodePattern(events[k].data).Ok? && Fingerprint(c, events[k].data) == h
    && forall j | k < j < i :: !(events[j].Deleted? && events[j].found && events[j].vol == events[k].vol)
  }

  // The live (volume, offset) pairs where fingerprint h was ever written.
  ghost function LivePairs(c: Codec, events: seq<Event>, i: nat, h: string): set<(VolumeId, int)>
    requires i <= |events|
  {
    set k: nat | k < i && LiveWrite(c, events, i, k, h) :: (events[k].vol, events[k].off)
  }

  ghost function Pairs(ws: set<Claim>): set<(VolumeId, int)> {
    set w | w in ws :: (w.vol, w.off)
  }

  lemma {:induction false} PairsSize(ws: set<Claim>)
    ensures |Pairs(ws)| <= |ws|
  {
    if ws != {} {
      var w :| w in ws;
      PairsSize(ws - {w});
      assert Pairs(ws) == Pairs(ws - {w}) + {(w.vol, w.off)};
    }
  }

  lemma {:induction false} LiveWriteIsClaimed(c: Codec, trace: seq<Array>, events: seq<Event>, i: nat, k: nat, h: string)
    returns (w: Claim)
    requires Sound(c) && Run(c, trace, events) && i <= |events| && LiveWrite(c, events, i, k, h)
    ensures w in EverAt(c, trace, events, i)
    ensures w.vol == events[k].vol && w.off == events[k].off && w.data == events[k].data
  {
    hide Sound; hide ReduceAndStore; hide Good; hide EncodePattern; hide Fingerprint;
    var e := events[k];
    assert Step(c, trace[i - 1], events[i - 1], trace[i]);
    if i == k + 1 {
      w := Claim(e.vol, e.off, trace[i].volumes[e.vol].blocks[e.off].blockId, e.data);
    } else {
      w := LiveWriteIsClaimed(c, trace, events, i - 1, k, h);
      StillClaimed(c, trace[i - 1], EverAt(c, trace, events, i - 1), events[i - 1], w);
    }
  }

  // Only deleting its volume takes a claim away.
  lemma StillClaimed(c: Codec, s: Array, ever: set<Claim>, e: Event, w: Claim)
    requires w in ever && !(e.Deleted? && e.found && e.vol == w.vol)
    ensures w in NextEver(c, s, ever, e)
  {
    hide WriteBlock;
  }

  // At every point of every run: a fingerprint written to a live volume, other than a
  // pattern's, is in the table, leads to a block that holds the data, and has a reference
  // count of at least the number of live (volume, offset) pairs where it was ever written.
  lemma CountsCoverLivePairs(c: Codec, trace: seq<Array>, events: seq<Event>, i: nat, k: nat, h: string)
    requires Sound(c) && Run(c, trace, events) && i <= |events|
    requires LiveWrite(c, events, i, k, h) && Analyze(events[k].data).Mixed?
    ensures var e := trace[i].store;
      && h in e.table && Holds(c, e, e.table[h].blockId, events[k].data)
      && |LivePairs(c, events, i, h)| <= e.table[h].refs
  {
    hide Sound; hide ViewOf; hide Step; hide NextEver; hide EncodePattern; hide EverAt; hide LivePairs; hide Analyze; hide Encode; hide Good;
    RunInvariant(c, trace, events, i);
    var w := LiveWriteIsClaimed(c, trace, events, i, k, h);
    MixedFingerprint(c, events[k].data);
    EntriesCoverLivePairs(c, trace, events, i, h);
  }

  // The same for every entry the table has, whoever made it.
  lemma EntriesCoverLivePairs(c: Codec, trace: seq<Array>, events: seq<Event>, i: nat, h: string)
    requires Sound(c) && Run(c, trace, events) && i <= |events|
    ensures h in trace[i].store.table ==> |LivePairs(c, events, i, h)| <= trace[i].store.table[h].refs
  {
    hide Sound; hide ViewOf; hide Step; hide NextEver; hide EncodePattern; hide Fingerprint; hide EverAt;
    var ever := EverAt(c, trace, events, i);
    RunInvariant(c, trace, events, i);
    forall k: nat | k < i && LiveWrite(c, events, i, k, h)
      ensures (events[k].vol, events[k].off) in Pairs(Holders(c, ever, h))
    {
      var w := LiveWriteIsClaimed(c, trace, events, i, k, h);
      assert w in Holders(c, ever, h);
    }
    assert LivePairs(c, events, i, h) <= Pairs(Holders(c, ever, h));
    SubsetSize(LivePairs(c, events, i, h), Pairs(Holders(c, ever, h)));
    PairsSize(Holders(c, ever, h));
  }

  // ---------------------------------------------------------------- snapshots over time

  // While its volume lives and it is not deleted, a snapshot never changes.
  lemma {:induction false} SnapshotFrozen(c: Codec, events: seq<Event>, i: nat, j: nat, v: VolumeId, sid: SnapshotId)
    requires i < j <= |events| && events[i] == Snapped(v, sid, true) && v in Replay(c, events[..i]).volumes
    requires forall k | i < k < j ::
      && !(events[k].Snapped? && events[k].snap == sid)
      && !(events[k].Unsnapped? && events[k].snap == sid)
      && !(events[k].Deleted? && events[k].vol == v)
    ensures sid in Replay(c, events[..j]).snapshots
    ensures Replay(c, events[..j]).snapshots[sid] == Frozen(v, Replay(c, events[..i]).volumes[v])
    ensures v in Replay(c, events[..j]).volumes
    decreases j
  {
    assert events[..j][..j - 1] == events[..j - 1];
    if j > i + 1 {
      SnapshotFrozen(c, events, i, j - 1, v, sid);
    }
  }

  // Restoring a snapshot into its own volume makes every offset read as it did when the
  // snapshot was taken, whatever was written in between.
  lemma RestoreBringsBack(c: Codec, trace: seq<Array>, events: seq<Event>, i: nat, j: nat, v: VolumeId, sid: SnapshotId)
    requires Sound(c) && Run(c, trace, events) && i < j < |events|
    requires events[i] == Snapped(v, sid, true) && events[j] == Restored(sid, v, true)
    requires forall k | i < k < j ::
      && !(events[k].Snapped? && events[k].snap == sid)
      && !(events[k].Unsnapped? && events[k].snap == sid)
      && !(events[k].Deleted? && events[k].vol == v)
    ensures forall off :: ReadBlock(c, trace[j + 1], v, off) == ReadBlock(c, trace[i], v, off)
  {
    hide Sound; hide Inv; hide ViewOf; hide Step; hide NextEver; hide ReadBlock;
    RunInvariant(c, trace, events, i);
    RunInvariant(c, trace, events, j + 1);
    RunRefinesMaps(c, trace, events, i);
    SnapshotFrozen(c, events, i, j, v, sid);
    assert events[..j + 1][..j] == events[..j];
    forall off
      ensures ReadBlock(c, trace[j + 1], v, off) == ReadBlock(c, trace[i], v, off)
    {
      ReadAnswers(c, trace[j + 1], v, off);
      ReadAnswers(c, trace[i], v, off);
    }
  }
}
