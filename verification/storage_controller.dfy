/**
The classes of the storage controller and of Purity, changing their tables in place.  Each
method makes exactly the change that DedupModel and ArrayModel describe.  Block, volume and
snapshot ids, which the code draws as random UUIDs, are parameters.
 */
module StorageArray {
  import opened Common
  import opened Reduction
  import opened DedupModel
  import opened ArrayModel

  class DeduplicationEngine {
    const codec: Codec
    var table: map<string, Entry>

    constructor (codec: Codec)
      ensures this.codec == codec && table == map[]
    {
      this.codec := codec;
      table := map[];
    }

    method CheckDuplicate(d: Bytes) returns (fingerprint: string, existing: Option<BlockId>, refs: int)
      ensures fingerprint == codec.hash(d)
      ensures existing == if fingerprint in table then Some(table[fingerprint].blockId) else None
      ensures refs == if fingerprint in table then table[fingerprint].refs else 0
    {
      fingerprint := codec.hash(d);
      if fingerprint in table {
        return fingerprint, Some(table[fingerprint].blockId), table[fingerprint].refs;
      }
      return fingerprint, None, 0;
    }

    method RegisterBlock(d: Bytes, id: BlockId) returns (isNew: bool)
      modifies this
      ensures table == Register(codec, old(table), d, id)
      ensures isNew <==> codec.hash(d) !in old(table)
    {
      var fingerprint := codec.hash(d);
      if fingerprint in table {
        table := table[fingerprint := table[fingerprint].(refs := table[fingerprint].refs + 1)];
        return false;
      }
      table := table[fingerprint := Entry(id, |d|, 1)];
      return true;
    }

    // The count left, 0 for a fingerprint the table does not know.
    method DereferenceBlock(fingerprint: string) returns (left: int)
      modifies this
      ensures left == if fingerprint in old(table) && old(table)[fingerprint].refs > 1 then old(table)[fingerprint].refs - 1 else 0
      ensures table == if left > 0 then old(table)[fingerprint := old(table)[fingerprint].(refs := left)] else old(table) - {fingerprint}
    {
      if fingerprint !in table {
        return 0;
      }
      left := table[fingerprint].refs - 1;
      if left <= 0 {
        table := table - {fingerprint};
        return 0;
      }
      table := table[fingerprint := table[fingerprint].(refs := left)];
    }
  }

  class PurityEngine {
    const codec: Codec
    const dedup: DeduplicationEngine
    var backend: map<BlockId, Bytes>

    ghost function State(): Store
      reads this, dedup
    {
      Store(dedup.table, backend)
    }

    constructor (codec: Codec)
      ensures this.codec == codec && dedup.codec == codec && fresh(dedup) && State() == EmptyStore()
    {
      this.codec := codec;
      dedup := new DeduplicationEngine(codec);
      backend := map[];
    }

    method ReduceAndStore(d: Bytes, id: BlockId) returns (r: Result<Placed, Error>)
      requires dedup.codec == codec
      modifies this, dedup
      ensures match DedupModel.ReduceAndStore(codec, old(State()), d, id)
        case Ok((t, placed)) => r == Ok(placed) && State() == t
        case Err(x) => r == Err(x) && State() == old(State())
    {
      var current, reduced := d, false;
      var analysis := Analyze(d);
      if analysis != Mixed {
        var encoded := EncodePattern(d);
        if encoded.Err? {
          return Err(encoded.error);
        }
        current, reduced := encoded.value.0, encoded.value.1;
      }
      var fingerprint, existing, _ := dedup.CheckDuplicate(current);
      if existing.Some? {
        var _ := dedup.RegisterBlock(current, existing.value);
        return Ok(Placed(existing.value, fingerprint, 0));
      }
      if !reduced {
        var framed := Compress(codec, current);
        if framed.Err? {
          return Err(framed.error);
        }
        current := framed.value;
      }
      backend := backend[id := current];
      var _ := dedup.RegisterBlock(d, id);
      return Ok(Placed(id, fingerprint, |current|));
    }

    method Retrieve(id: BlockId) returns (r: Result<Bytes, Error>)
      ensures r == DedupModel.Retrieve(codec, State(), id)
    {
      if id !in backend {
        return Err(BlockNotFound);
      }
      var data := backend[id];
      if HasHeader(data) {
        var plain := Decompress(codec, data);
        if plain.Err? {
          return plain;
        }
        data := plain.value;
      }
      if IsEncoded(data) {
        return DecodePattern(codec, data);
      }
      return Ok(data);
    }

    method Delete(id: BlockId, fingerprint: string) returns (removed: bool)
      modifies this, dedup
      ensures State() == Release(old(State()), id, fingerprint)
      ensures removed <==> id in old(backend) && id !in backend
    {
      var left := dedup.DereferenceBlock(fingerprint);
      if left == 0 {
        removed := id in backend;
        backend := backend - {id};
        return;
      }
      return false;
    }
  }

  class StorageController {
    const codec: Codec
    const purity: PurityEngine
    var volumes: map<VolumeId, Volume>
    var snapshots: map<SnapshotId, Snapshot>

    ghost function State(): Array
      reads this, purity, purity.dedup
    {
      Array(purity.State(), volumes, snapshots)
    }

    ghost predicate Wired()
      reads this
    {
      purity.codec == codec && purity.dedup.codec == codec
    }

    constructor (codec: Codec)
      ensures Wired() && this.codec == codec && fresh(purity) && fresh(purity.dedup) && State() == EmptyArray()
    {
      this.codec := codec;
      purity := new PurityEngine(codec);
      volumes := map[];
      snapshots := map[];
    }

    method CreateVolume(v: VolumeId, sizeBytes: int)
      modifies this
      ensures State() == ArrayModel.CreateVolume(old(State()), v, sizeBytes)
    {
      volumes := volumes[v := Volume(sizeBytes, map[])];
    }

    method Write(v: VolumeId, off: int, d: Bytes, id: BlockId) returns (reply: WriteReply)
      requires Wired()
      modifies this, purity, purity.dedup
      ensures (State(), reply) == WriteBlock(codec, old(State()), v, off, d, id)
    {
      if v !in volumes {
        return NoVolume;
      }
      if codec.blockSize == 0 || off % codec.blockSize != 0 {
        return Misaligned;
      }
      var placed := purity.ReduceAndStore(d, id);
      if placed.Err? {
        return ReduceFailed(placed.error);
      }
      reply := RecordBlock(v, off, VolumeBlock(placed.value.blockId, placed.value.fingerprint, |d|));
    }

    // The volume manager's part of a write.
    method RecordBlock(v: VolumeId, off: int, blk: VolumeBlock) returns (reply: WriteReply)
      modifies this
      ensures reply == if v !in old(volumes) then NoVolume
                       else if off + blk.size > old(volumes)[v].sizeBytes then ExceedsVolume else Done
      ensures snapshots == old(snapshots)
      ensures volumes == if reply.Done?
        then old(volumes)[v := old(volumes)[v].(blocks := old(volumes)[v].blocks[off := blk])] else old(volumes)
    {
      if v !in volumes {
        return NoVolume;
      }
      var vol := volumes[v];
      if off + blk.size > vol.sizeBytes {
        return ExceedsVolume;
      }
      volumes := volumes[v := vol.(blocks := vol.blocks[off := blk])];
      return Done;
    }

    method Read(v: VolumeId, off: int) returns (answer: Option<Result<Bytes, Error>>)
      requires Wired()
      ensures answer == ReadBlock(codec, State(), v, off)
    {
      if v !in volumes || off !in volumes[v].blocks {
        return None;
      }
      var r := purity.Retrieve(volumes[v].blocks[off].blockId);
      return Some(r);
    }

    method DeleteVolume(v: VolumeId) returns (found: bool, ghost order: seq<int>)
      requires Wired()
      modifies this, purity, purity.dedup
      ensures found <==> v in old(volumes)
      ensures found ==> Enumerates(order, old(volumes)[v].blocks.Keys)
      ensures State() == if found then ArrayModel.DeleteVolume(old(State()), v, order) else old(State())
    {
      if v !in volumes {
        return false, [];
      }
      order := ReleaseBlocks(volumes[v].blocks);
      volumes := volumes - {v};
      found := true;
    }

    method ReleaseBlocks(blocks: map<int, VolumeBlock>) returns (ghost order: seq<int>)
      modifies purity, purity.dedup
      ensures Enumerates(order, blocks.Keys)
      ensures purity.State() == ReleaseAll(old(purity.State()), blocks, order)
    {
      hide Release;
      order := [];
      var rest := blocks.Keys;
      while rest != {}
        invariant rest <= blocks.Keys && Enumerates(order, blocks.Keys - rest)
        invariant purity.State() == ReleaseAll(old(purity.State()), blocks, order)
        decreases rest
      {
        ghost var _ := HasElement(rest);
        var off :| off in rest;
        var blk := blocks[off];
        ReleaseAllSnoc(old(purity.State()), blocks, order, off);
        var _ := purity.Delete(blk.blockId, blk.fingerprint);
        ghost var longer := order + [off];
        assert Enumerates(longer, blocks.Keys - (rest - {off})) by {
          assert forall k | k in blocks.Keys - (rest - {off}) && k != off :: k in order;
        }
        order := longer;
        rest := rest - {off};
      }
      assert blocks.Keys - rest == blocks.Keys;
    }

    lemma {:induction false} ReleaseAllSnoc(e: Store, blocks: map<int, VolumeBlock>, order: seq<int>, off: int)
      requires off in blocks && forall i | 0 <= i < |order| :: order[i] in blocks
      ensures ReleaseAll(e, blocks, order + [off]) ==
        Release(ReleaseAll(e, blocks, order), blocks[off].blockId, blocks[off].fingerprint)
      decreases |order|
    {
      hide Release;
      if |order| == 0 {
        assert (order + [off])[1..] == [];
        assert ReleaseAll(Release(e, blocks[off].blockId, blocks[off].fingerprint), blocks, []) ==
          Release(e, blocks[off].blockId, blocks[off].fingerprint);
      } else {
        var blk := blocks[order[0]];
        assert (order + [off])[1..] == order[1..] + [off];
        ReleaseAllSnoc(Release(e, blk.blockId, blk.fingerprint), blocks, order[1..], off);
      }
    }

    // Copies the block references one by one.
    method CopyBlocks(blocks: map<int, VolumeBlock>) returns (copied: map<int, VolumeBlock>)
      ensures copied == blocks
    {
      copied := map[];
      var rest := blocks.Keys;
      while rest != {}
        invariant rest <= blocks.Keys && copied.Keys == blocks.Keys - rest
        invariant forall k | k in copied :: copied[k] == blocks[k]
        decreases rest
      {
        ghost var _ := HasElement(rest);
        var off :| off in rest;
        copied := copied[off := blocks[off]];
        rest := rest - {off};
      }
      assert copied.Keys == blocks.Keys;
      assert forall k | k in copied :: copied[k] == blocks[k];
      MapsAgree(copied, blocks);
    }

    method CreateSnapshot(v: VolumeId, sid: SnapshotId) returns (found: bool)
      modifies this
      ensures found <==> v in old(volumes)
      ensures State() == ArrayModel.CreateSnapshot(old(State()), v, sid)
    {
      if v !in volumes {
        return false;
      }
      var copied := CopyBlocks(volumes[v].blocks);
      snapshots := snapshots[sid := Snapshot(v, volumes[v].sizeBytes, copied)];
      return true;
    }

    method DeleteSnapshot(sid: SnapshotId) returns (found: bool)
      modifies this
      ensures found <==> sid in old(snapshots)
      ensures State() == ArrayModel.DeleteSnapshot(old(State()), sid)
    {
      found := sid in snapshots;
      snapshots := snapshots - {sid};
    }

    method RestoreSnapshot(sid: SnapshotId, v: VolumeId) returns (found: bool)
      modifies this
      ensures found <==> sid in old(snapshots) && v in old(volumes)
      ensures State() == ArrayModel.RestoreSnapshot(old(State()), sid, v)
    {
      if sid !in snapshots || v !in volumes {
        return false;
      }
      volumes := volumes[v := volumes[v].(blocks := snapshots[sid].blocks)];
      return true;
    }

    method CloneVolume(v: VolumeId, clone: VolumeId) returns (found: bool)
      modifies this
      ensures found <==> v in old(volumes)
      ensures State() == ArrayModel.CloneVolume(old(State()), v, clone)
    {
      if v !in volumes {
        return false;
      }
      volumes := volumes[clone := Volume(volumes[v].sizeBytes, volumes[v].blocks)];
      return true;
    }
  }
}
