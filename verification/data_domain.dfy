/** The Data Domain engine class, changing its maps and counters in place. */
module DataDomain {
  import opened Common
  import opened Chunking
  import opened DataDomainModel

  class DataDomainEngine {
    const settings: Settings
    var fingerprints: map<string, SegmentId>
    var segments: map<SegmentId, Segment>
    var backend: map<SegmentId, Bytes>
    var nextId: nat
    var stats: Stats

    ghost function State(): Engine
      reads this
    {
      Engine(fingerprints, segments, backend, nextId, stats)
    }

    constructor (settings: Settings)
      ensures this.settings == settings && State() == NewEngine()
    {
      this.settings := settings;
      fingerprints, segments, backend := map[], map[], map[];
      nextId := 0;
      stats := Stats(0, 0, 0, 0);
    }

    method StoreSegment(d: Bytes, fingerprint: string) returns (id: SegmentId)
      requires fingerprint == settings.hash(d)
      modifies this
      ensures id == old(nextId) && nextId == id + 1 && stats == old(stats)
      ensures segments == old(segments)[id := NewSegment(settings, d)]
      ensures fingerprints == old(fingerprints)[fingerprint := id]
      ensures backend == old(backend)[id := var g := NewSegment(settings, d); if g.compressed then g.compressedData else g.data]
    {
      id := nextId;
      nextId := nextId + 1;
      var segment := Segment(fingerprint, d, |d|, 1, false, []);
      if settings.mode == Inline || settings.mode == Hybrid {
        var compressed := CompressData(d);
        if |compressed| < |d| {
          segment := segment.(compressed := true, compressedData := compressed);
        }
      }
      segments := segments[id := segment];
      backend := backend[id := if segment.compressed then segment.compressedData else segment.data];
      fingerprints := fingerprints[fingerprint := id];
    }

    method TakeChunk(d: Bytes) returns (id: SegmentId, isNew: bool)
      modifies this
      ensures Taken(State(), id, isNew) == DataDomainModel.TakeChunk(settings, old(State()), d)
    {
      var fingerprint := settings.hash(d);
      if fingerprint in fingerprints && fingerprints[fingerprint] in segments {
        id := fingerprints[fingerprint];
        segments := segments[id := segments[id].(refCount := segments[id].refCount + 1)];
        isNew := false;
      } else {
        id := StoreSegment(d, fingerprint);
        isNew := true;
      }
    }

    method DeduplicateAndStore(data: Bytes) returns (recipe: Recipe)
      modifies this
      ensures (State(), recipe) == DataDomainModel.DeduplicateAndStore(settings, old(State()), data)
    {
      hide Chunks; hide DataDomainModel.TakeChunk;
      var chunks := ChunkData(data);
      var refs: seq<SegmentRef> := [];
      var uniqueBytes, duplicateBytes := 0, 0;
      ghost var goal := TakeAll(settings, Ingest(old(State()), [], 0, 0), chunks);
      var k := 0;
      while k < |chunks|
        invariant k <= |chunks| && uniqueBytes >= 0 && duplicateBytes >= 0 && k == |refs|
        invariant TakeAll(settings, Ingest(State(), refs, uniqueBytes, duplicateBytes), chunks[k..]) == goal
      {
        var d := chunks[k];
        assert chunks[k..][0] == d && chunks[k..][1..] == chunks[k + 1..];
        var id, isNew := TakeChunk(d);
        refs := refs + [SegmentRef(id, settings.hash(d), k, |d|)];
        if isNew {
          uniqueBytes := uniqueBytes + |d|;
        } else {
          duplicateBytes := duplicateBytes + |d|;
        }
        k := k + 1;
      }
      stats := UpdateStats(stats, |data|, uniqueBytes, duplicateBytes);
      recipe := Recipe(|data|, refs);
    }

    method ReconstructData(recipe: Recipe) returns (r: Option<Bytes>)
      ensures r == Rebuild(State(), recipe.refs)
    {
      var result: Bytes := [];
      for k := 0 to |recipe.refs|
        invariant Rebuild(State(), recipe.refs[..k]) == Some(result)
      {
        var id := recipe.refs[k].segmentId;
        assert recipe.refs[..k + 1][..k] == recipe.refs[..k];
        if id !in segments {
          MissingSegment(State(), recipe.refs, k);
          return None;
        }
        var segment := segments[id];
        var data := if segment.compressed then DecompressData(segment.compressedData) else segment.data;
        result := result + data;
      }
      assert recipe.refs[..|recipe.refs|] == recipe.refs;
      return Some(result);
    }

    lemma {:induction false} MissingSegment(e: Engine, refs: seq<SegmentRef>, k: nat)
      requires k < |refs| && refs[k].segmentId !in e.segments
      ensures Rebuild(e, refs) == None
      decreases |refs|
    {
      if k < |refs| - 1 {
        MissingSegment(e, refs[..|refs| - 1], k);
      }
    }

    // Visits every indexed fingerprint once and drops the segments nobody refers to.  The
    // index holds the segment objects themselves, so a count can be read after its segment
    // has left the store: `objects` are the objects the index held when the visit began.
    method CollectGarbage()
      modifies this
      ensures State() == DataDomainModel.CollectGarbage(old(State()))
    {
      var keys, index, objects := fingerprints.Keys, fingerprints, segments;
      ghost var before, seen: set<string> := State(), {};
      while keys != {}
        invariant seen + keys == before.fingerprints.Keys && seen !! keys
        invariant State() == Without(before, Dead(before, seen))
        decreases keys
      {
        ghost var _ := HasElement(keys);
        var key :| key in keys;
        var id := index[key];
        ghost var more := seen + {key};
        if id in objects && objects[id].refCount == 0 {
          WithoutOneMore(before, Dead(before, seen), key);
          assert Dead(before, more) == Dead(before, seen) + {key};
          fingerprints := fingerprints - {key};
          segments := segments - {id};
        } else {
          assert Dead(before, more) == Dead(before, seen);
        }
        seen := more;
        keys := keys - {key};
      }
      assert seen == before.fingerprints.Keys;
    }
  }
}
