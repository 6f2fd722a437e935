/**
The Data Domain engine as a value: the fingerprint index, the segment store, the counters
and the recipes it has issued, over every history of ingests and garbage collections.
 */
module DataDomainModel {
  import opened Common
  import opened Chunking

  type SegmentId = nat

  datatype Mode = Inline | PostProcess | Hybrid

  // SHA-256 is given from outside and taken to be free of collisions on the chunks in play.
  datatype Settings = Settings(mode: Mode, hash: Bytes -> string, inPlay: Bytes -> bool)

  ghost predicate Sound(c: Settings) {
    forall x, y :: c.inPlay(x) && c.inPlay(y) && c.hash(x) == c.hash(y) ==> x == y
  }

  datatype Segment = Segment(
    fingerprint: string,
    data: Bytes,
    size: nat,
    refCount: int,
    compressed: bool,
    compressedData: Bytes)

  datatype Stats = Stats(ingested: int, unique: int, duplicate: int, operations: int)

  // The index maps a fingerprint to the segment object; segments are named by their number.
  datatype Engine = Engine(
    fingerprints: map<string, SegmentId>,
    segments: map<SegmentId, Segment>,
    backend: map<SegmentId, Bytes>,
    nextId: nat,
    stats: Stats)

  // `index` is the chunk's position in the list, as the code records it.
  datatype SegmentRef = SegmentRef(segmentId: SegmentId, fingerprint: string, index: nat, length: nat)

  datatype Recipe = Recipe(totalSize: nat, refs: seq<SegmentRef>)

  // ---------------------------------------------------------------- operations

  function NewEngine(): Engine { Engine(map[], map[], map[], 0, Stats(0, 0, 0, 0)) }

  // The code's compressor is a stand-in that returns its input.
  function CompressData(d: Bytes): Bytes { d }

  function DecompressData(d: Bytes): Bytes { d }

  function NewSegment(c: Settings, d: Bytes): Segment {
    var z := CompressData(d);
    var keep := !c.mode.PostProcess? && |z| < |d|;
    Segment(c.hash(d), d, |d|, 1, keep, if keep then z else [])
  }

  function SegmentData(g: Segment): Bytes {
    if g.compressed then DecompressData(g.compressedData) else g.data
  }

  datatype Taken = Taken(engine: Engine, id: SegmentId, isNew: bool)

  function TakeChunk(c: Settings, e: Engine, d: Bytes): Taken {
    var h := c.hash(d);
    if h in e.fingerprints && e.fingerprints[h] in e.segments then
      var id := e.fingerprints[h];
      Taken(e.(segments := e.segments[id := e.segments[id].(refCount := e.segments[id].refCount + 1)]), id, false)
    else
      var id, g := e.nextId, NewSegment(c, d);
      Taken(e.(nextId := id + 1,
               segments := e.segments[id := g],
               backend := e.backend[id := if g.compressed then g.compressedData else g.data],
               fingerprints := e.fingerprints[h := id]), id, true)
  }

  datatype Ingest = Ingest(engine: Engine, refs: seq<SegmentRef>, unique: nat, duplicate: nat)

  // Chunks taken one after the other; `done` is what came before.
  function TakeAll(c: Settings, done: Ingest, chunks: seq<Bytes>): Ingest
    decreases |chunks|
  {
    if |chunks| == 0 then done
    else TakeAll(c, TakeOne(c, done, chunks[0]), chunks[1..])
  }

  function TakeOne(c: Settings, done: Ingest, d: Bytes): Ingest {
    var t := TakeChunk(c, done.engine, d);
    Ingest(t.engine,
           done.refs + [SegmentRef(t.id, c.hash(d), |done.refs|, |d|)],
           done.unique + (if t.isNew then |d| else 0),
           done.duplicate + (if t.isNew then 0 else |d|))
  }

  function UpdateStats(s: Stats, total: nat, unique: nat, duplicate: nat): Stats {
    Stats(s.ingested + total, s.unique + unique, s.duplicate + duplicate, s.operations + 1)
  }

  function DeduplicateAndStore(c: Settings, e: Engine, data: Bytes): (Engine, Recipe) {
    var r := TakeAll(c, Ingest(e, [], 0, 0), Chunks(data));
    (r.engine.(stats := UpdateStats(r.engine.stats, |data|, r.unique, r.duplicate)), Recipe(|data|, r.refs))
  }

  // None when a segment is missing.
  function Rebuild(e: Engine, refs: seq<SegmentRef>): Option<Bytes>
    decreases |refs|
  {
    if |refs| == 0 then Some([])
    else
      var n := |refs| - 1;
      match Rebuild(e, refs[..n])
      case None => None
      case Some(d) =>
        if refs[n].segmentId in e.segments then Some(d + SegmentData(e.segments[refs[n].segmentId])) else None
  }

  // Segments nobody refers to leave the index and the store.
  function CollectGarbage(e: Engine): Engine {
    Without(e, Dead(e, e.fingerprints.Keys))
  }

  // The fingerprints among `keys` whose segment nobody refers to.
  function Dead(e: Engine, keys: set<string>): (dead: set<string>)
    ensures dead <= e.fingerprints.Keys
  {
    set h | h in keys && h in e.fingerprints && e.fingerprints[h] in e.segments && e.segments[e.fingerprints[h]].refCount == 0
  }

  function Without(e: Engine, dead: set<string>): Engine
    requires dead <= e.fingerprints.Keys
  {
    e.(fingerprints := e.fingerprints - dead, segments := e.segments - (set h | h in dead :: e.fingerprints[h]))
  }

  // Dropping one more fingerprint drops its entry and its segment and nothing else.
  lemma WithoutOneMore(e: Engine, dead: set<string>, key: string)
    requires dead <= e.fingerprints.Keys && key in e.fingerprints
    ensures var t, id := Without(e, dead), e.fingerprints[key];
      Without(e, dead + {key}) == t.(fingerprints := t.fingerprints - {key}, segments := t.segments - {id})
  {
    var t, id := Without(e, dead), e.fingerprints[key];
    assert (set h | h in dead + {key} :: e.fingerprints[h]) == (set h | h in dead :: e.fingerprints[h]) + {id};
    assert e.fingerprints - (dead + {key}) == e.fingerprints - dead - {key};
    assert Without(e, dead + {key}).segments == t.segments - {id};
  }

  // ---------------------------------------------------------------- invariant

  function Ids(refs: seq<SegmentRef>): seq<SegmentId> {
    seq(|refs|, i requires 0 <= i < |refs| => refs[i].segmentId)
  }

  // Total size of the segments numbered below n.
  function StoredSize(segments: map<SegmentId, Segment>, n: nat): nat {
    if n == 0 then 0 else StoredSize(segments, n - 1) + (if n - 1 in segments then segments[n - 1].size else 0)
  }

  // Index and store are inverse to each other.
  ghost predicate Inverse(e: Engine) {
    && (forall h | h in e.fingerprints ::
          e.fingerprints[h] in e.segments && e.segments[e.fingerprints[h]].fingerprint == h)
    && (forall id | id in e.segments ::
          e.segments[id].fingerprint in e.fingerprints && e.fingerprints[e.segments[id].fingerprint] == id)
  }

  // Each segment is what its fingerprint says, and its bytes are with the backend.
  ghost predicate Genuine(c: Settings, e: Engine) {
    forall id | id in e.segments ::
      var g := e.segments[id];
      && id < e.nextId && c.inPlay(g.data) && g.fingerprint == c.hash(g.data)
      && g.size == |g.data| && SegmentData(g) == g.data
      && id in e.backend && e.backend[id] == (if g.compressed then g.compressedData else g.data)
  }

  ghost predicate Bijection(c: Settings, e: Engine) {
    Inverse(e) && Genuine(c, e)
  }

  // Reference counts are the occurrences among all the references ever handed out.
  ghost predicate Counted(e: Engine, ids: seq<SegmentId>) {
    && (forall i | 0 <= i < |ids| :: ids[i] in e.segments)
    && (forall id | id in e.segments :: e.segments[id].refCount == multiset(ids)[id] && id in ids)
  }

  // One more segment or reference never disturbs the data of the old ones.
  ghost predicate Grows(e: Engine, t: Engine) {
    forall id | id in e.segments ::
      && id in t.segments && SegmentData(t.segments[id]) == SegmentData(e.segments[id])
      && t.segments[id].fingerprint == e.segments[id].fingerprint && t.segments[id].size == e.segments[id].size
  }

  // Each reference carries its position and its segment's fingerprint and size.
  ghost predicate Described(e: Engine, refs: seq<SegmentRef>) {
    forall k | 0 <= k < |refs| ::
      && refs[k].index == k && refs[k].segmentId in e.segments
      && refs[k].fingerprint == e.segments[refs[k].segmentId].fingerprint
      && refs[k].length == e.segments[refs[k].segmentId].size
  }

  lemma {:induction false} StoredSizeSame(m: map<SegmentId, Segment>, k: map<SegmentId, Segment>, n: nat)
    requires forall id: nat | id < n :: (id in m <==> id in k) && (id in m ==> m[id].size == k[id].size)
    ensures StoredSize(m, n) == StoredSize(k, n)
  {
    if n > 0 {
      StoredSizeSame(m, k, n - 1);
    }
  }

  lemma CountSnoc(ids: seq<SegmentId>, id: SegmentId)
    ensures multiset(ids + [id]) == multiset(ids)[id := multiset(ids)[id] + 1]
  {
  }

  lemma TakeDuplicate(c: Settings, e: Engine, d: Bytes)
    requires Sound(c) && Bijection(c, e) && c.inPlay(d) && c.hash(d) in e.fingerprints
    ensures var t := TakeChunk(c, e, d);
      && !t.isNew && Bijection(c, t.engine) && Grows(e, t.engine)
      && t.id in t.engine.segments && SegmentData(t.engine.segments[t.id]) == d
      && t.engine.segments[t.id].fingerprint == c.hash(d) && t.engine.segments[t.id].size == |d|
  {
    var id := e.fingerprints[c.hash(d)];
    assert e.segments[id].data == d;
  }

  lemma TakeNew(c: Settings, e: Engine, d: Bytes)
    requires Bijection(c, e) && c.inPlay(d) && c.hash(d) !in e.fingerprints
    ensures var t := TakeChunk(c, e, d);
      && t.isNew && Bijection(c, t.engine) && Grows(e, t.engine)
      && t.id in t.engine.segments && SegmentData(t.engine.segments[t.id]) == d
      && t.engine.segments[t.id].fingerprint == c.hash(d) && t.engine.segments[t.id].size == |d|
  {
    assert e.nextId !in e.segments;
    NewIsInverse(c, e, d);
    NewIsGenuine(c, e, d);
  }

  lemma NewIsInverse(c: Settings, e: Engine, d: Bytes)
    requires Inverse(e) && e.nextId !in e.segments && c.hash(d) !in e.fingerprints
    ensures Inverse(TakeChunk(c, e, d).engine)
  {
  }

  lemma NewIsGenuine(c: Settings, e: Engine, d: Bytes)
    requires Genuine(c, e) && c.inPlay(d) && c.hash(d) !in e.fingerprints
    ensures Genuine(c, TakeChunk(c, e, d).engine)
  {
    var g := NewSegment(c, d);
    assert SegmentData(g) == d && g.size == |d| && g.fingerprint == c.hash(d) && g.data == d;
  }

  lemma TakeBijection(c: Settings, e: Engine, d: Bytes)
    requires Sound(c) && Bijection(c, e) && c.inPlay(d)
    ensures var t := TakeChunk(c, e, d);
      && Bijection(c, t.engine) && Grows(e, t.engine)
      && t.id in t.engine.segments && SegmentData(t.engine.segments[t.id]) == d
      && t.engine.segments[t.id].fingerprint == c.hash(d) && t.engine.segments[t.id].size == |d|
  {
    hide Bijection; hide Grows; hide SegmentData; hide TakeChunk;
    if c.hash(d) in e.fingerprints {
      TakeDuplicate(c, e, d);
    } else {
      TakeNew(c, e, d);
    }
  }

  lemma TakeCounted(c: Settings, e: Engine, ids: seq<SegmentId>, d: Bytes)
    requires Bijection(c, e) && Counted(e, ids)
    ensures Counted(TakeChunk(c, e, d).engine, ids + [TakeChunk(c, e, d).id])
  {
    hide SegmentData;
    var t := TakeChunk(c, e, d);
    CountSnoc(ids, t.id);
    assert t.id in ids + [t.id];
    if t.isNew {
      assert t.id !in e.segments;
      assert multiset(ids)[t.id] == 0 by {
        assert forall i | 0 <= i < |ids| :: ids[i] != t.id;
      }
    }
  }

  lemma TakeStored(c: Settings, e: Engine, d: Bytes)
    requires Bijection(c, e)
    ensures var t := TakeChunk(c, e, d);
      StoredSize(t.engine.segments, t.engine.nextId)
        == StoredSize(e.segments, e.nextId) + (if t.isNew then |d| else 0)
  {
    var t := TakeChunk(c, e, d);
    assert t.isNew ==> t.id == e.nextId;
    assert t.isNew ==> t.engine.nextId == e.nextId + 1 && t.engine.segments[e.nextId].size == |d|;
    hide Bijection; hide SegmentData;
    StoredSizeSame(e.segments, t.engine.segments, e.nextId);
  }

  // ---------------------------------------------------------------- whole ingests

  // The references handed out before, then those of the ingest in progress.
  ghost predicate InProgress(c: Settings, e: Engine, ids: seq<SegmentId>, r: Ingest, taken: Bytes) {
    && Bijection(c, r.engine) && Counted(r.engine, ids + Ids(r.refs)) && Grows(e, r.engine)
    && Rebuild(r.engine, r.refs) == Some(taken) && Described(r.engine, r.refs)
    && r.engine.stats == e.stats
    && r.unique + r.duplicate == |taken|
    && StoredSize(r.engine.segments, r.engine.nextId) == StoredSize(e.segments, e.nextId) + r.unique
  }

  // Data that could be rebuilt still can, unchanged, after any growth.
  lemma {:induction false} RebuildStable(e: Engine, t: Engine, refs: seq<SegmentRef>)
    requires Grows(e, t) && Rebuild(e, refs).Some?
    ensures Rebuild(t, refs) == Rebuild(e, refs)
    decreases |refs|
  {
    hide SegmentData;
    if |refs| > 0 {
      RebuildStable(e, t, refs[..|refs| - 1]);
    }
  }

  lemma DescribedGrows(e: Engine, t: Engine, refs: seq<SegmentRef>)
    requires Grows(e, t) && Described(e, refs)
    ensures Described(t, refs)
  {
    hide SegmentData;
  }

  lemma GrowsTransitive(e: Engine, m: Engine, t: Engine)
    requires Grows(e, m) && Grows(m, t)
    ensures Grows(e, t)
  {
    hide SegmentData;
  }

  lemma TakeOneKeeps(c: Settings, e: Engine, ids: seq<SegmentId>, r: Ingest, taken: Bytes, d: Bytes)
    requires Sound(c) && InProgress(c, e, ids, r, taken) && c.inPlay(d)
    ensures InProgress(c, e, ids, TakeOne(c, r, d), taken + d)
  {
    hide Sound; hide Bijection; hide Counted; hide Grows; hide SegmentData; hide StoredSize;
    var t, after := TakeChunk(c, r.engine, d), TakeOne(c, r, d);
    TakeBijection(c, r.engine, d);
    TakeCounted(c, r.engine, ids + Ids(r.refs), d);
    TakeStored(c, r.engine, d);
    GrowsTransitive(e, r.engine, t.engine);
    RebuildStable(r.engine, t.engine, r.refs);
    assert after.refs[..|r.refs|] == r.refs;
    DescribedGrows(r.engine, t.engine, r.refs);
    assert Ids(after.refs) == Ids(r.refs) + [t.id];
    assert ids + (Ids(r.refs) + [t.id]) == (ids + Ids(r.refs)) + [t.id];
  }

  lemma {:induction false} TakeAllKeeps(c: Settings, e: Engine, ids: seq<SegmentId>, r: Ingest, taken: Bytes, chunks: seq<Bytes>)
    requires Sound(c) && InProgress(c, e, ids, r, taken)
    requires forall k | 0 <= k < |chunks| :: c.inPlay(chunks[k])
    ensures InProgress(c, e, ids, TakeAll(c, r, chunks), taken + Flatten(chunks))
    decreases |chunks|
  {
    hide Sound; hide InProgress; hide TakeOne;
    if |chunks| > 0 {
      TakeOneKeeps(c, e, ids, r, taken, chunks[0]);
      TakeAllKeeps(c, e, ids, TakeOne(c, r, chunks[0]), taken + chunks[0], chunks[1..]);
      assert taken + Flatten(chunks) == taken + chunks[0] + Flatten(chunks[1..]);
    } else {
      assert taken + Flatten(chunks) == taken;
    }
  }

  // ---------------------------------------------------------------- histories

  datatype Issued = Issued(data: Bytes, recipe: Recipe)

  // All references ever handed out.
  ghost function AllIds(issued: seq<Issued>): seq<SegmentId> {
    if |issued| == 0 then [] else AllIds(issued[..|issued| - 1]) + Ids(issued[|issued| - 1].recipe.refs)
  }

  ghost function TotalBytes(issued: seq<Issued>): nat {
    if |issued| == 0 then 0 else TotalBytes(issued[..|issued| - 1]) + |issued[|issued| - 1].data|
  }

  ghost predicate Balanced(e: Engine, issued: seq<Issued>) {
    && e.stats.ingested == TotalBytes(issued) && e.stats.operations == |issued|
    && e.stats.unique + e.stats.duplicate == e.stats.ingested
    && e.stats.unique == StoredSize(e.segments, e.nextId)
  }

  ghost predicate Reproducible(e: Engine, issued: seq<Issued>) {
    forall k | 0 <= k < |issued| ::
      && Rebuild(e, issued[k].recipe.refs) == Some(issued[k].data)
      && Described(e, issued[k].recipe.refs) && issued[k].recipe.totalSize == |issued[k].data|
  }

  ghost predicate Inv(c: Settings, e: Engine, issued: seq<Issued>) {
    Bijection(c, e) && Counted(e, AllIds(issued)) && Balanced(e, issued) && Reproducible(e, issued)
  }

  datatype Event = Ingested(data: Bytes, recipe: Recipe) | Collected | Rebuilt(recipe: Recipe, answer: Option<Bytes>)

  ghost predicate ChunksInPlay(c: Settings, data: Bytes) {
    forall k | 0 <= k < |Chunks(data)| :: c.inPlay(Chunks(data)[k])
  }

  ghost predicate Step(c: Settings, e: Engine, x: Event, t: Engine) {
    match x
    case Ingested(data, recipe) => ChunksInPlay(c, data) && (t, recipe) == DeduplicateAndStore(c, e, data)
    case Collected => t == CollectGarbage(e)
    case Rebuilt(recipe, answer) => t == e && answer == Rebuild(e, recipe.refs)
  }

  ghost function NextIssued(issued: seq<Issued>, x: Event): seq<Issued> {
    if x.Ingested? then issued + [Issued(x.data, x.recipe)] else issued
  }

  lemma IngestKeeps(c: Settings, e: Engine, issued: seq<Issued>, data: Bytes)
    requires Sound(c) && Inv(c, e, issued) && ChunksInPlay(c, data)
    ensures var (t, recipe) := DeduplicateAndStore(c, e, data);
      Inv(c, t, issued + [Issued(data, recipe)])
  {
    hide Sound; hide Bijection; hide Counted; hide Grows; hide StoredSize; hide Chunks; hide TakeAll; hide SegmentData; hide Rebuild; hide Described;
    var ids, start, chunks := AllIds(issued), Ingest(e, [], 0, 0), Chunks(data);
    assert Grows(e, e) by { GrowsReflexive(e); }
    assert ids + Ids([]) == ids;
    NothingTaken(e);
    assert InProgress(c, e, ids, start, []);
    TakeAllKeeps(c, e, ids, start, [], chunks);
    ChunksCoverData(data);
    assert [] + data == data;
    var r := TakeAll(c, start, chunks);
    var t := r.engine.(stats := UpdateStats(r.engine.stats, |data|, r.unique, r.duplicate));
    var after := issued + [Issued(data, Recipe(|data|, r.refs))];
    assert after[..|issued|] == issued;
    StatsDoNotMatter(c, r.engine, t, ids + Ids(r.refs));
    forall k | 0 <= k < |after|
      ensures Rebuild(t, after[k].recipe.refs) == Some(after[k].data) && Described(t, after[k].recipe.refs)
    {
      if k < |issued| {
        RebuildStable(e, r.engine, issued[k].recipe.refs);
        DescribedGrows(e, r.engine, issued[k].recipe.refs);
      }
      RebuildStable(r.engine, t, after[k].recipe.refs);
      DescribedGrows(r.engine, t, after[k].recipe.refs);
    }
  }

  lemma NothingTaken(e: Engine)
    ensures Rebuild(e, []) == Some([]) && Described(e, [])
  {
  }

  lemma GrowsReflexive(e: Engine)
    ensures Grows(e, e)
  {
  }

  lemma StatsDoNotMatter(c: Settings, e: Engine, t: Engine, ids: seq<SegmentId>)
    requires Bijection(c, e) && Counted(e, ids) && t == e.(stats := t.stats)
    ensures Bijection(c, t) && Counted(t, ids) && Grows(e, t)
  {
  }

  // Nothing is ever garbage: no reference is ever taken back, so every stored segment has
  // a count of at least one and a collection changes nothing.
  lemma CollectChangesNothing(c: Settings, e: Engine, ids: seq<SegmentId>)
    requires Bijection(c, e) && Counted(e, ids)
    ensures CollectGarbage(e) == e
  {
    forall h | h in e.fingerprints
      ensures e.segments[e.fingerprints[h]].refCount >= 1
    {
      assert e.fingerprints[h] in multiset(ids);
    }
  }

  lemma StepKeeps(c: Settings, e: Engine, issued: seq<Issued>, x: Event, t: Engine)
    requires Sound(c) && Inv(c, e, issued) && Step(c, e, x, t)
    ensures Inv(c, t, NextIssued(issued, x))
  {
    hide DeduplicateAndStore; hide Balanced; hide Reproducible; hide Bijection; hide Counted; hide ChunksInPlay; hide AllIds;
    match x
    case Ingested(data, recipe) => IngestKeeps(c, e, issued, data);
    case Collected => CollectChangesNothing(c, e, AllIds(issued));
    case Rebuilt(_, _) =>
  }

  ghost predicate Run(c: Settings, trace: seq<Engine>, events: seq<Event>) {
    && |trace| == |events| + 1 && trace[0] == NewEngine()
    && forall i | 0 <= i < |events| :: Step(c, trace[i], events[i], trace[i + 1])
  }

  lemma NewEngineInv(c: Settings)
    ensures Inv(c, NewEngine(), [])
  {
  }

  ghost function IssuedBy(events: seq<Event>): seq<Issued> {
    if |events| == 0 then [] else NextIssued(IssuedBy(events[..|events| - 1]), events[|events| - 1])
  }

  // At every point of every history: each issued recipe rebuilds its original bytes, each
  // reference count is the number of references issued to the segment, index and store are
  // inverse bijections, and the byte counters balance.
  lemma {:induction false} RunInvariant(c: Settings, trace: seq<Engine>, events: seq<Event>, i: nat)
    requires Sound(c) && Run(c, trace, events) && i <= |events|
    ensures Inv(c, trace[i], IssuedBy(events[..i]))
  {
    hide Sound; hide Inv; hide Step; hide NextIssued;
    if i == 0 {
      NewEngineInv(c);
    } else {
      RunInvariant(c, trace, events, i - 1);
      StepKeeps(c, trace[i - 1], IssuedBy(events[..i - 1]), events[i - 1], trace[i]);
      assert events[..i][..i - 1] == events[..i - 1];
    }
  }

  lemma {:induction false} IngestedIsIssued(events: seq<Event>, k: nat)
    requires k < |events| && events[k].Ingested?
    ensures Issued(events[k].data, events[k].recipe) in IssuedBy(events)
    decreases |events|
  {
    if k < |events| - 1 {
      IngestedIsIssued(events[..|events| - 1], k);
    }
  }

  // A rebuild of any recipe issued earlier answers with the bytes it was issued for.
  lemma RebuildAnswers(c: Settings, trace: seq<Engine>, events: seq<Event>, k: nat, i: nat)
    requires Sound(c) && Run(c, trace, events) && k < i < |events|
    requires events[k].Ingested? && events[i].Rebuilt? && events[i].recipe == events[k].recipe
    ensures events[i].answer == Some(events[k].data)
  {
    hide Sound; hide Bijection; hide Counted; hide Balanced;
    RunInvariant(c, trace, events, i);
    assert events[..i][k] == events[k];
    IngestedIsIssued(events[..i], k);
    assert Step(c, trace[i], events[i], trace[i + 1]);
  }
}
