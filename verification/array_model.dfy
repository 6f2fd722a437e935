/**
The storage controller over Purity: volumes, snapshots and the deduplicating store, with
whole histories of controller calls and the theorem that volumes and snapshots behave like
plain maps from offset to data.
 */
module ArrayModel {
  import opened Common
  import opened Reduction
  import opened DedupModel

  type SnapshotId = string

  datatype VolumeBlock = VolumeBlock(blockId: BlockId, fingerprint: string, size: nat)

  datatype Volume = Volume(sizeBytes: int, blocks: map<int, VolumeBlock>)

  datatype Snapshot = Snapshot(volumeId: VolumeId, sizeBytes: int, blocks: map<int, VolumeBlock>)

  datatype Array = Array(store: Store, volumes: map<VolumeId, Volume>, snapshots: map<SnapshotId, Snapshot>)

  datatype WriteReply = NoVolume | Misaligned | ReduceFailed(error: Error) | ExceedsVolume | Done

  // ---------------------------------------------------------------- controller calls

  function EmptyArray(): Array { Array(EmptyStore(), map[], map[]) }

  function CreateVolume(s: Array, v: VolumeId, sizeBytes: int): Array {
    s.(volumes := s.volumes[v := Volume(sizeBytes, map[])])
  }

  predicate Aligned(c: Codec, off: int) {
    c.blockSize != 0 && off % c.blockSize == 0
  }

  // The data goes to the store before the volume checks its size, so a write that exceeds
  // the volume still leaves its reference behind.
  function WriteBlock(c: Codec, s: Array, v: VolumeId, off: int, d: Bytes, id: BlockId): (Array, WriteReply) {
    if v !in s.volumes then (s, NoVolume)
    else if !Aligned(c, off) then (s, Misaligned)
    else
      match ReduceAndStore(c, s.store, d, id)
      case Err(x) => (s, ReduceFailed(x))
      case Ok((store, placed)) =>
        var t := s.(store := store);
        var vol := s.volumes[v];
        if off + |d| > vol.sizeBytes then (t, ExceedsVolume)
        else
          var blk := VolumeBlock(placed.blockId, placed.fingerprint, |d|);
          (t.(volumes := s.volumes[v := vol.(blocks := vol.blocks[off := blk])]), Done)
  }

  function ReadBlock(c: Codec, s: Array, v: VolumeId, off: int): Option<Result<Bytes, Error>> {
    if v in s.volumes && off in s.volumes[v].blocks
    then Some(Retrieve(c, s.store, s.volumes[v].blocks[off].blockId))
    else None
  }

  function ReleaseAll(e: Store, blocks: map<int, VolumeBlock>, order: seq<int>): Store
    requires forall i | 0 <= i < |order| :: order[i] in blocks
    decreases |order|
  {
    if |order| == 0 then e
    else
      var blk := blocks[order[0]];
      ReleaseAll(Release(e, blk.blockId, blk.fingerprint), blocks, order[1..])
  }

  // The order in which the blocks are released is the dictionary's and left open.
  ghost predicate Enumerates(order: seq<int>, keys: set<int>) {
    && (forall i | 0 <= i < |order| :: order[i] in keys)
    && (forall k | k in keys :: k in order)
    && (forall i, j | 0 <= i < j < |order| :: order[i] != order[j])
  }

  function DeleteVolume(s: Array, v: VolumeId, order: seq<int>): Array
    requires v in s.volumes ==> forall i | 0 <= i < |order| :: order[i] in s.volumes[v].blocks
  {
    if v in s.volumes then
      s.(store := ReleaseAll(s.store, s.volumes[v].blocks, order), volumes := s.volumes - {v})
    else s
  }

  function CreateSnapshot(s: Array, v: VolumeId, sid: SnapshotId): Array {
    if v in s.volumes then
      s.(snapshots := s.snapshots[sid := Snapshot(v, s.volumes[v].sizeBytes, s.volumes[v].blocks)])
    else s
  }

  function DeleteSnapshot(s: Array, sid: SnapshotId): Array {
    s.(snapshots := s.snapshots - {sid})
  }

  function RestoreSnapshot(s: Array, sid: SnapshotId, v: VolumeId): Array {
    if sid in s.snapshots && v in s.volumes then
      s.(volumes := s.volumes[v := s.volumes[v].(blocks := s.snapshots[sid].blocks)])
    else s
  }

  // Cloning copies block references and takes no reference count.
  function CloneVolume(s: Array, v: VolumeId, clone: VolumeId): Array {
    if v in s.volumes then s.(volumes := s.volumes[clone := s.volumes[v]]) else s
  }

  // ---------------------------------------------------------------- invariant

  ghost predicate Backed(c: Codec, ever: set<Claim>, v: VolumeId, off: int, blk: VolumeBlock) {
    exists d :: Claim(v, off, blk.blockId, d) in ever && Describes(c, blk, d)
  }

  // The block record carries the data's fingerprint and length.
  ghost predicate Describes(c: Codec, blk: VolumeBlock, d: Bytes) {
    EncodePattern(d).Ok? && Fingerprint(c, d) == blk.fingerprint && |d| == blk.size
  }

  ghost predicate AllBacked(c: Codec, ever: set<Claim>, v: VolumeId, blocks: map<int, VolumeBlock>) {
    forall off | off in blocks :: Backed(c, ever, v, off, blocks[off])
  }

  ghost predicate LiveSnapshot(s: Array, sid: SnapshotId) {
    sid in s.snapshots && s.snapshots[sid].volumeId in s.volumes
  }

  // Every block of a live volume, and of a live volume's snapshots, is a claim on the store.
  ghost predicate Inv(c: Codec, s: Array, ever: set<Claim>) {
    && StoreInv(c, s.store, ever)
    && (forall w | w in ever :: w.vol in s.volumes)
    && (forall v | v in s.volumes :: AllBacked(c, ever, v, s.volumes[v].blocks))
    && (forall sid | LiveSnapshot(s, sid) :: AllBacked(c, ever, s.snapshots[sid].volumeId, s.snapshots[sid].blocks))
  }

  // ---------------------------------------------------------------- views

  // What reading each offset returns.
  ghost function Contents(c: Codec, e: Store, blocks: map<int, VolumeBlock>): map<int, Result<Bytes, Error>> {
    map off | off in blocks :: Retrieve(c, e, blocks[off].blockId)
  }

  datatype VolumeView = VolumeView(sizeBytes: int, contents: map<int, Result<Bytes, Error>>)

  datatype SnapshotView = SnapshotView(volumeId: VolumeId, sizeBytes: int, contents: map<int, Result<Bytes, Error>>)

  // `orphans` are the snapshots whose volume is gone.
  datatype View = View(
    volumes: map<VolumeId, VolumeView>,
    snapshots: map<SnapshotId, SnapshotView>,
    orphans: set<SnapshotId>)

  ghost function VolumesOf(c: Codec, s: Array): map<VolumeId, VolumeView> {
    map v | v in s.volumes :: VolumeView(s.volumes[v].sizeBytes, Contents(c, s.store, s.volumes[v].blocks))
  }

  ghost function SnapshotsOf(c: Codec, s: Array): map<SnapshotId, SnapshotView> {
    map sid | sid in s.snapshots && LiveSnapshot(s, sid) ::
      SnapshotView(s.snapshots[sid].volumeId, s.snapshots[sid].sizeBytes, Contents(c, s.store, s.snapshots[sid].blocks))
  }

  ghost function OrphansOf(s: Array): set<SnapshotId> {
    set sid | sid in s.snapshots && !LiveSnapshot(s, sid)
  }

  // What callers can see: each live volume's size and data by offset, each live volume's
  // snapshots, and which snapshots have outlived their volume.
  ghost function ViewOf(c: Codec, s: Array): View {
    View(VolumesOf(c, s), SnapshotsOf(c, s), OrphansOf(s))
  }

  // A backed block reads as the claimed data reads: nothing a live volume points at is missing.
  lemma BackedReads(c: Codec, e: Store, ever: set<Claim>, v: VolumeId, off: int, blk: VolumeBlock) returns (d: Bytes)
    requires Sound(c) && StoreInv(c, e, ever) && Backed(c, ever, v, off, blk)
    ensures Claim(v, off, blk.blockId, d) in ever && Describes(c, blk, d) && Holds(c, e, blk.blockId, d)
    ensures Retrieve(c, e, blk.blockId) == Reads(c, d) != Err(BlockNotFound)
  {
    hide Good; hide Indexed; hide TableTrue; hide CountsCover; hide Encode; hide Decode; hide Sound;
    d :| Claim(v, off, blk.blockId, d) in ever && Describes(c, blk, d);
    assert Holds(c, e, blk.blockId, d);
    ReadsBack(c, d);
  }

  // As long as a volume keeps its claims, its blocks read the same from one store to another.
  lemma ContentsStable(c: Codec, e: Store, ever: set<Claim>, e': Store, ever': set<Claim>, v: VolumeId, blocks: map<int, VolumeBlock>)
    requires StoreInv(c, e, ever) && StoreInv(c, e', ever') && AllBacked(c, ever, v, blocks)
    requires forall w | w in ever && w.vol == v :: w in ever'
    ensures Contents(c, e', blocks) == Contents(c, e, blocks) && AllBacked(c, ever', v, blocks)
  {
    hide Good; hide Decode; hide Encode; hide Indexed; hide TableTrue; hide CountsCover; hide Describes;
    forall off | off in blocks
      ensures Retrieve(c, e', blocks[off].blockId) == Retrieve(c, e, blocks[off].blockId)
      ensures Backed(c, ever', v, off, blocks[off])
    {
      var d :| Claim(v, off, blocks[off].blockId, d) in ever && Describes(c, blocks[off], d);
      assert Holds(c, e, blocks[off].blockId, d) && Holds(c, e', blocks[off].blockId, d);
    }
    MapsAgree(Contents(c, e', blocks), Contents(c, e, blocks));
  }
}
