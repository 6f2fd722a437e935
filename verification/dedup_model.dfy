/**
Purity's deduplicating store as a value: the fingerprint table with its reference counts
and the backend's blocks, and the invariant that keeps every block somebody still claims.
 */
module DedupModel {
  import opened Common
  import opened Reduction

  type BlockId = string

  type VolumeId = string

  datatype Entry = Entry(blockId: BlockId, size: nat, refs: int)

  datatype Store = Store(table: map<string, Entry>, backend: map<BlockId, Bytes>)

  // The outcome of a successful reduction: where the data is, under which fingerprint, and
  // how many bytes it took.
  datatype Placed = Placed(blockId: BlockId, fingerprint: string, storedSize: nat)

  // ---------------------------------------------------------------- operations

  function Register(c: Codec, table: map<string, Entry>, d: Bytes, id: BlockId): map<string, Entry> {
    var h := c.hash(d);
    if h in table then table[h := table[h].(refs := table[h].refs + 1)]
    else table[h := Entry(id, |d|, 1)]
  }

  // Lookup is by the pattern-reduced bytes, registration of a new block by the raw ones.
  // `id` is the fresh block id the store draws if it has to write.
  function ReduceAndStore(c: Codec, e: Store, d: Bytes, id: BlockId): Result<(Store, Placed), Error> {
    match EncodePattern(d)
    case Err(x) => Err(x)
    case Ok((cur, reduced)) =>
      var h := c.hash(cur);
      if h in e.table then
        Ok((e.(table := Register(c, e.table, cur, e.table[h].blockId)), Placed(e.table[h].blockId, h, 0)))
      else
        match (if reduced then Ok(cur) else Compress(c, cur))
        case Err(x) => Err(x)
        case Ok(body) =>
          Ok((Store(Register(c, e.table, d, id), e.backend[id := body]), Placed(id, h, |body|)))
  }

  function Retrieve(c: Codec, e: Store, id: BlockId): Result<Bytes, Error> {
    if id in e.backend then Decode(c, e.backend[id]) else Err(BlockNotFound)
  }

  // Drop one reference; at zero, or for a fingerprint the table does not know, the block goes.
  function Release(e: Store, id: BlockId, fingerprint: string): Store {
    if fingerprint !in e.table then
      e.(backend := e.backend - {id})
    else
      var entry := e.table[fingerprint];
      if entry.refs - 1 <= 0 then Store(e.table - {fingerprint}, e.backend - {id})
      else e.(table := e.table[fingerprint := entry.(refs := entry.refs - 1)])
  }

  // ---------------------------------------------------------------- claims

  // Volume `vol` was given `data` at offset `off`, kept under block `id`.
  datatype Claim = Claim(vol: VolumeId, off: int, id: BlockId, data: Bytes)

  // Data hashed without collision, itself and in its reduced form.
  predicate InPlay(c: Codec, d: Bytes) {
    c.inPlay(d) && (EncodePattern(d).Ok? ==> c.inPlay(EncodePattern(d).value.0))
  }

  // Data that can be stored and is not what pattern removal produces.
  predicate Good(c: Codec, d: Bytes) {
    !IsMarker(d) && EncodePattern(d).Ok? && Encode(c, d).Ok? && InPlay(c, d)
  }

  function Fingerprint(c: Codec, d: Bytes): string
    requires EncodePattern(d).Ok?
  {
    c.hash(EncodePattern(d).value.0)
  }

  ghost function Holders(c: Codec, ever: set<Claim>, h: string): set<Claim> {
    set w | w in ever && EncodePattern(w.data).Ok? && Fingerprint(c, w.data) == h
  }

  // Block `id` is in the backend in the form that data d is stored in.
  ghost predicate Holds(c: Codec, e: Store, id: BlockId, d: Bytes) {
    Encode(c, d).Ok? && id in e.backend && e.backend[id] == Encode(c, d).value
  }

  // Every claim's block is in the backend with the claimed data.
  ghost predicate Readable(c: Codec, e: Store, ever: set<Claim>) {
    forall w | w in ever :: Good(c, w.data) && Holds(c, e, w.id, w.data)
  }

  // Deduplicated claims are found through the table; a pattern block has one claim only.
  ghost predicate Indexed(c: Codec, e: Store, ever: set<Claim>) {
    && (forall w | w in ever && Analyze(w.data).Mixed? ::
          c.hash(w.data) in e.table && e.table[c.hash(w.data)].blockId == w.id)
    && (forall w, w' | w in ever && w' in ever && w.id == w'.id && !Analyze(w.data).Mixed? :: w == w')
  }

  // What the table says about data that may be written again, claimed or not: it leads to
  // the data, and it knows neither markers nor data that cannot be stored.
  ghost predicate TableTrue(c: Codec, e: Store) {
    && (forall d | Good(c, d) && Analyze(d).Mixed? && c.hash(d) in e.table ::
          Holds(c, e, e.table[c.hash(d)].blockId, d))
    && (forall d | Good(c, d) && c.hash(d) in e.table :: e.table[c.hash(d)].size == |d|)
    && (forall x | c.inPlay(x) && (IsMarker(x) || Encode(c, x).Err?) :: c.hash(x) !in e.table)
  }

  // A fingerprint's count is at least the number of (volume, offset) pairs it was ever
  // written to and that are still alive.
  ghost predicate CountsCover(c: Codec, e: Store, ever: set<Claim>) {
    forall h | h in e.table :: e.table[h].refs >= 1 && |Holders(c, ever, h)| <= e.table[h].refs
  }

  ghost predicate StoreInv(c: Codec, e: Store, ever: set<Claim>) {
    Readable(c, e, ever) && Indexed(c, e, ever) && TableTrue(c, e) && CountsCover(c, e, ever)
  }

  // ---------------------------------------------------------------- small facts

  lemma HoldersSubset(c: Codec, some: set<Claim>, all: set<Claim>, h: string)
    requires some <= all
    ensures |Holders(c, some, h)| <= |Holders(c, all, h)|
  {
    assert Holders(c, some, h) <= Holders(c, all, h);
    SubsetSize(Holders(c, some, h), Holders(c, all, h));
  }

  // Forgetting claims keeps the invariant.
  lemma FewerClaims(c: Codec, e: Store, some: set<Claim>, all: set<Claim>)
    requires StoreInv(c, e, all) && some <= all
    ensures StoreInv(c, e, some)
  {
    forall h | h in e.table
      ensures e.table[h].refs >= 1 && |Holders(c, some, h)| <= e.table[h].refs
    {
      HoldersSubset(c, some, all, h);
    }
  }

  lemma HoldersAdd(c: Codec, ever: set<Claim>, w: Claim, h: string)
    requires EncodePattern(w.data).Ok?
    ensures |Holders(c, ever + {w}, h)| <= |Holders(c, ever, h)| + (if Fingerprint(c, w.data) == h then 1 else 0)
  {
    var added := if Fingerprint(c, w.data) == h then {w} else {};
    assert Holders(c, ever + {w}, h) == Holders(c, ever, h) + added;
  }

  lemma HoldersRemove(c: Codec, ever: set<Claim>, w: Claim, h: string)
    requires w in ever && EncodePattern(w.data).Ok? && Fingerprint(c, w.data) == h
    ensures |Holders(c, ever - {w}, h)| == |Holders(c, ever, h)| - 1
  {
    assert w in Holders(c, ever, h);
    assert Holders(c, ever - {w}, h) == Holders(c, ever, h) - {w};
  }

  // The block a storable pattern takes is never found in the table.
  lemma PatternNotIndexed(c: Codec, e: Store, d: Bytes)
    requires TableTrue(c, e) && Good(c, d) && !Analyze(d).Mixed?
    ensures Fingerprint(c, d) !in e.table
  {
    hide IsMarker; hide Encode; hide Holds;
    PatternIsMarker(d);
  }

  lemma MixedFingerprint(c: Codec, d: Bytes)
    requires Analyze(d).Mixed?
    ensures EncodePattern(d).Ok? && Fingerprint(c, d) == c.hash(d)
  {
  }

  lemma IndexedIsMixed(c: Codec, e: Store, ever: set<Claim>, d: Bytes)
    requires StoreInv(c, e, ever) && Good(c, d) && Fingerprint(c, d) in e.table
    ensures Analyze(d).Mixed?
  {
    if !Analyze(d).Mixed? {
      PatternNotIndexed(c, e, d);
    }
  }

  // ---------------------------------------------------------------- storing

  // Any good block can be stored, and the fingerprint handed to the volume is that of the
  // pattern-reduced bytes.
  lemma StoreSucceeds(c: Codec, e: Store, d: Bytes, id: BlockId)
    requires Good(c, d)
    ensures ReduceAndStore(c, e, d, id).Ok?
    ensures ReduceAndStore(c, e, d, id).value.1.fingerprint == Fingerprint(c, d)
  {
  }

  // Storing fails exactly when the data cannot be encoded, for want of room in a length field.
  lemma StoreFails(c: Codec, e: Store, d: Bytes, id: BlockId)
    requires TableTrue(c, e) && InPlay(c, d) && !IsMarker(d)
    ensures ReduceAndStore(c, e, d, id).Ok? <==> Encode(c, d).Ok?
    ensures ReduceAndStore(c, e, d, id).Err? ==> ReduceAndStore(c, e, d, id).error == Overflow
  {
    hide IsMarker; hide Analyze;
  }

  // The table and the backend only gain.
  ghost predicate Grows(e: Store, t: Store) {
    && (forall h | h in e.table ::
          h in t.table && t.table[h].blockId == e.table[h].blockId && e.table[h].refs <= t.table[h].refs)
    && (forall id | id in e.backend :: id in t.backend && t.backend[id] == e.backend[id])
  }

  lemma ReadableAdd(c: Codec, e: Store, t: Store, ever: set<Claim>, w: Claim)
    requires Readable(c, e, ever) && Grows(e, t) && Good(c, w.data) && Holds(c, t, w.id, w.data)
    ensures Readable(c, t, ever + {w})
  {
    hide Good; hide Encode;
  }

  // No pattern claim shares the new claim's block, and a pattern claim shares nobody's.
  ghost predicate Apart(ever: set<Claim>, w: Claim) {
    forall w' | w' in ever && w'.id == w.id :: Analyze(w'.data).Mixed? && Analyze(w.data).Mixed?
  }

  lemma IndexedAdd(c: Codec, e: Store, t: Store, ever: set<Claim>, w: Claim)
    requires Indexed(c, e, ever) && Grows(e, t) && Apart(ever, w)
    requires Analyze(w.data).Mixed? ==> c.hash(w.data) in t.table && t.table[c.hash(w.data)].blockId == w.id
    ensures Indexed(c, t, ever + {w})
  {
    hide Analyze;
  }

  lemma CountsAdd(c: Codec, e: Store, t: Store, ever: set<Claim>, w: Claim)
    requires CountsCover(c, e, ever) && Grows(e, t) && EncodePattern(w.data).Ok?
    requires forall h | h in t.table && h !in e.table :: Holders(c, ever, h) == {} && t.table[h].refs >= 1
    requires var h := Fingerprint(c, w.data); h in e.table ==> t.table[h].refs == e.table[h].refs + 1
    ensures CountsCover(c, t, ever + {w})
  {
    hide EncodePattern;
    forall h | h in t.table
      ensures t.table[h].refs >= 1 && |Holders(c, ever + {w}, h)| <= t.table[h].refs
    {
      HoldersAdd(c, ever, w, h);
    }
  }

  // A block that is already there: one more reference, one more claim.
  lemma StoreDuplicate(c: Codec, e: Store, ever: set<Claim>, vol: VolumeId, off: int, d: Bytes)
    requires Sound(c) && StoreInv(c, e, ever) && Good(c, d) && Analyze(d).Mixed? && c.hash(d) in e.table
    ensures var h := c.hash(d);
      StoreInv(c, e.(table := e.table[h := e.table[h].(refs := e.table[h].refs + 1)]),
               ever + {Claim(vol, off, e.table[h].blockId, d)})
  {
    hide Good; hide Holders; hide EncodePattern; hide Analyze; hide IsMarker; hide Encode; hide Sound;
    var h := c.hash(d);
    var w := Claim(vol, off, e.table[h].blockId, d);
    var t := e.(table := e.table[h := e.table[h].(refs := e.table[h].refs + 1)]);
    MixedFingerprint(c, d);
    ReadableAdd(c, e, t, ever, w);
    forall w' | w' in ever && w'.id == w.id
      ensures Analyze(w'.data).Mixed?
    {
      if !Analyze(w'.data).Mixed? {
        PatternBody(c, e, w', d);
      }
    }
    IndexedAdd(c, e, t, ever, w);
    CountsAdd(c, e, t, ever, w);
  }

  lemma NoHolders(c: Codec, e: Store, ever: set<Claim>, d: Bytes)
    requires Sound(c) && Readable(c, e, ever) && Indexed(c, e, ever) && Good(c, d) && c.hash(d) !in e.table
    ensures Holders(c, ever, c.hash(d)) == {}
  {
    hide Encode; hide IsMarker; hide Holds; hide EncodePattern;
    forall w | w in ever
      ensures EncodePattern(w.data).Ok? && Fingerprint(c, w.data) != c.hash(d)
    {
      if Fingerprint(c, w.data) == c.hash(d) {
        FingerprintsApart(c, w.data, d);
      }
    }
  }

  // Data other than a marker shares its own hash with no other data's fingerprint.
  lemma FingerprintsApart(c: Codec, x: Bytes, d: Bytes)
    requires Sound(c) && Good(c, x) && Good(c, d) && Fingerprint(c, x) == c.hash(d)
    ensures x == d && Analyze(d).Mixed?
  {
    hide Encode; hide IsMarker;
    if Analyze(x).Mixed? {
      MixedFingerprint(c, x);
    } else {
      PatternIsMarker(x);
    }
  }

  lemma TableTrueAdd(c: Codec, e: Store, d: Bytes, id: BlockId)
    requires Sound(c) && TableTrue(c, e) && Good(c, d) && id !in e.backend
    ensures TableTrue(c, Store(Register(c, e.table, d, id), e.backend[id := Encode(c, d).value]))
  {
    hide EncodePattern; hide Analyze; hide IsMarker; hide Encode;
  }

  // A new block under a fresh id, whatever is registered for it.
  lemma StoreNew(c: Codec, e: Store, ever: set<Claim>, vol: VolumeId, off: int, d: Bytes, id: BlockId)
    requires Sound(c) && StoreInv(c, e, ever) && Good(c, d) && id !in e.backend
    requires Fingerprint(c, d) !in e.table
    ensures StoreInv(c, Store(Register(c, e.table, d, id), e.backend[id := Encode(c, d).value]),
                     ever + {Claim(vol, off, id, d)})
  {
    hide EncodePattern; hide Analyze; hide IsMarker; hide Encode; hide Holders; hide Sound; hide InPlay;
    var w := Claim(vol, off, id, d);
    var t := Store(Register(c, e.table, d, id), e.backend[id := Encode(c, d).value]);
    if Analyze(d).Mixed? {
      MixedFingerprint(c, d);
    }
    if c.hash(d) !in e.table {
      NoHolders(c, e, ever, d);
    }
    ReadableAdd(c, e, t, ever, w);
    IndexedAdd(c, e, t, ever, w);
    TableTrueAdd(c, e, d, id);
    CountsAdd(c, e, t, ever, w);
  }

  // Storing a good block under a fresh id keeps every claim readable and adds the new one.
  lemma StoreKeeps(c: Codec, e: Store, ever: set<Claim>, vol: VolumeId, off: int, d: Bytes, id: BlockId)
    requires Sound(c) && StoreInv(c, e, ever) && Good(c, d) && id !in e.backend
    requires ReduceAndStore(c, e, d, id).Ok?
    ensures var (t, placed) := ReduceAndStore(c, e, d, id).value;
      StoreInv(c, t, ever + {Claim(vol, off, placed.blockId, d)})
  {
    hide StoreInv; hide IsMarker; hide Decode;
    if Fingerprint(c, d) in e.table {
      assert Analyze(d).Mixed? by {
        IndexedIsMixed(c, e, ever, d);
      }
      StoreDuplicate(c, e, ever, vol, off, d);
    } else {
      StoreNew(c, e, ever, vol, off, d, id);
    }
  }

  // A store keeps the invariant exactly when the data is not a marker: bytes that pattern
  // removal itself produces put the marker's hash into the table, where the next pattern
  // block will find it.
  lemma StoreKeepsExactly(c: Codec, e: Store, ever: set<Claim>, d: Bytes, id: BlockId)
    requires Sound(c) && StoreInv(c, e, ever) && InPlay(c, d) && id !in e.backend
    requires ReduceAndStore(c, e, d, id).Ok?
    ensures StoreInv(c, ReduceAndStore(c, e, d, id).value.0, ever) <==> !IsMarker(d)
  {
    hide Readable; hide Indexed; hide CountsCover; hide Decode; hide Analyze; hide IsMarker; hide Sound;
    var (t, placed) := ReduceAndStore(c, e, d, id).value;
    if IsMarker(d) {
      MarkerIsMixed(d);
      assert c.hash(d) in t.table;
    } else {
      StoreFails(c, e, d, id);
      StoreKeeps(c, e, ever, "", 0, d, id);
      FewerClaims(c, t, ever, ever + {Claim("", 0, placed.blockId, d)});
    }
  }

  lemma MarkerIsMixed(d: Bytes)
    requires IsMarker(d)
    ensures Analyze(d).Mixed?
  {
    assert d[0] == PATTERN_PREFIX[0] == 95;
    assert d[2] == 90 || d[2] == PATTERN_PREFIX[2] == 80;
  }

  // What a store of data other than a marker costs: nothing, and no block, exactly when the
  // table already knows the data and it is not a pattern; otherwise one block under the new
  // id in the form written out in StoredAs, and its length is reported.
  lemma StoreCost(c: Codec, e: Store, d: Bytes, id: BlockId)
    requires TableTrue(c, e) && InPlay(c, d) && !IsMarker(d) && ReduceAndStore(c, e, d, id).Ok?
    ensures var (t, placed) := ReduceAndStore(c, e, d, id).value;
      && (placed.storedSize == 0 <==> TwoBytes(d) && c.hash(d) in e.table)
      && (if placed.storedSize == 0 then t.backend == e.backend && placed.blockId == e.table[c.hash(d)].blockId
          else
            && placed.blockId == id && id in t.backend && t.backend == e.backend[id := t.backend[id]]
            && StoredAs(c, d, t.backend[id]) && placed.storedSize == |t.backend[id]|)
  {
    hide IsMarker; hide Analyze; hide StoredAs; hide TwoBytes; hide Compress;
    MixedHasTwoBytes(d);
    StoreFails(c, e, d, id);
    StoredForm(c, d);
    BodyIsLong(c, d);
    if !Analyze(d).Mixed? {
      PatternIsMarker(d);
    } else {
      MixedFingerprint(c, d);
    }
  }

  lemma BodyIsLong(c: Codec, d: Bytes)
    requires Encode(c, d).Ok?
    ensures |Encode(c, d).value| >= 5
  {
  }

  // ---------------------------------------------------------------- releasing

  // Nobody in `rest` uses block `id`, and neither does any entry of the table `t` keeps.
  ghost predicate Unused(c: Codec, e: Store, t: Store, rest: set<Claim>, id: BlockId) {
    && (forall w | w in rest :: w.id != id)
    && (forall d | Good(c, d) && Analyze(d).Mixed? && c.hash(d) in t.table :: t.table[c.hash(d)].blockId != id)
    && (forall h | h in t.table :: h in e.table && t.table[h] == e.table[h])
    && (forall w | w in rest && Analyze(w.data).Mixed? :: c.hash(w.data) in t.table)
  }

  // Deleting a block nobody uses keeps the invariant.
  lemma DropUnused(c: Codec, e: Store, t: Store, rest: set<Claim>, id: BlockId)
    requires StoreInv(c, e, rest) && Unused(c, e, t, rest, id) && t.backend == e.backend - {id}
    ensures StoreInv(c, t, rest)
  {
    hide Good; hide Analyze; hide Encode; hide IsMarker; hide Holders;
  }

  // Two claims on one block have the same data; a pattern claim has its block to itself.
  lemma SharersAgree(c: Codec, e: Store, ever: set<Claim>, w: Claim, w': Claim)
    requires Sound(c) && Readable(c, e, ever) && Indexed(c, e, ever) && w in ever && w' in ever && w.id == w'.id
    ensures w.data == w'.data && (w == w' || Analyze(w.data).Mixed?)
  {
    hide Good; hide Analyze; hide Encode; hide Sound;
    assert Good(c, w.data) && Good(c, w'.data);
    assert Holds(c, e, w.id, w.data) && Holds(c, e, w'.id, w'.data);
    if Analyze(w.data).Mixed? && Analyze(w'.data).Mixed? {
      SameBody(c, w.data, w'.data);
    }
  }

  lemma SameBody(c: Codec, d: Bytes, d': Bytes)
    requires Sound(c) && Analyze(d).Mixed? && Analyze(d').Mixed?
    requires Encode(c, d).Ok? && Encode(c, d) == Encode(c, d')
    ensures d == d'
  {
    hide Sound; hide Compress;
    assert Encode(c, d) == Compress(c, d) && Encode(c, d') == Compress(c, d');
    EncodeFails(c, d);
    EncodeFails(c, d');
    FramesDiffer(c, d, d');
  }

  // A pattern's block is never the one the table names for other data.
  lemma PatternBody(c: Codec, e: Store, w: Claim, d: Bytes)
    requires Sound(c) && TableTrue(c, e) && Good(c, w.data) && !Analyze(w.data).Mixed? && Holds(c, e, w.id, w.data)
    requires Good(c, d) && Analyze(d).Mixed? && c.hash(d) in e.table
    ensures e.table[c.hash(d)].blockId != w.id
  {
    hide IsMarker; hide Sound;
    assert Holds(c, e, e.table[c.hash(d)].blockId, d);
    FrameIsNoPattern(c, d, w.data);
  }

  lemma FrameIsNoPattern(c: Codec, d: Bytes, x: Bytes)
    requires Analyze(d).Mixed? && !Analyze(x).Mixed? && Encode(c, d).Ok? && Encode(c, x).Ok?
    ensures Encode(c, d).value != Encode(c, x).value
  {
    assert Encode(c, d).value[0] <= 2;
    assert Encode(c, x).value[0] == 95;
  }

  lemma ReleasePattern(c: Codec, e: Store, ever: set<Claim>, w: Claim)
    requires Sound(c) && StoreInv(c, e, ever) && w in ever && !Analyze(w.data).Mixed?
    ensures StoreInv(c, e.(backend := e.backend - {w.id}), ever - {w})
  {
    hide Good; hide Analyze; hide Encode; hide IsMarker; hide Holders; hide Sound;
    var t := e.(backend := e.backend - {w.id});
    FewerClaims(c, e, ever - {w}, ever);
    forall w' | w' in ever - {w}
      ensures w'.id != w.id
    {
      if w'.id == w.id {
        SharersAgree(c, e, ever, w, w');
      }
    }
    forall d | Good(c, d) && Analyze(d).Mixed? && c.hash(d) in e.table
      ensures e.table[c.hash(d)].blockId != w.id
    {
      PatternBody(c, e, w, d);
    }
    DropUnused(c, e, t, ever - {w}, w.id);
  }

  lemma NoCollision(c: Codec, d: Bytes, d': Bytes)
    requires Sound(c) && Good(c, d) && Good(c, d') && c.hash(d) == c.hash(d')
    ensures d == d'
  {
    hide IsMarker; hide Encode; hide EncodePattern;
  }

  lemma ReleaseLast(c: Codec, e: Store, ever: set<Claim>, w: Claim)
    requires Sound(c) && StoreInv(c, e, ever) && w in ever && Analyze(w.data).Mixed?
    requires e.table[c.hash(w.data)].refs <= 1
    ensures StoreInv(c, Store(e.table - {c.hash(w.data)}, e.backend - {w.id}), ever - {w})
  {
    hide Good; hide Sound; hide EncodePattern; hide Analyze; hide Encode; hide IsMarker;
    var h, rest := c.hash(w.data), ever - {w};
    var t := Store(e.table - {h}, e.backend - {w.id});
    MixedFingerprint(c, w.data);
    HoldersRemove(c, ever, w, h);
    FewerClaims(c, e, rest, ever);
    forall w' | w' in rest
      ensures w'.id != w.id && c.hash(w'.data) != h
    {
      if w'.id == w.id {
        SharersAgree(c, e, ever, w, w');
      }
      if c.hash(w'.data) == h {
        NoCollision(c, w.data, w'.data);
      }
      assert w'.data == w.data ==> w' in Holders(c, rest, h);
    }
    forall d | Good(c, d) && Analyze(d).Mixed? && c.hash(d) in t.table
      ensures t.table[c.hash(d)].blockId != w.id
    {
      assert Holds(c, e, e.table[c.hash(d)].blockId, d) && Holds(c, e, w.id, w.data);
      if e.table[c.hash(d)].blockId == w.id {
        SameBody(c, d, w.data);
      }
    }
    DropUnused(c, e, t, rest, w.id);
  }

  lemma ReleaseOne(c: Codec, e: Store, ever: set<Claim>, w: Claim)
    requires StoreInv(c, e, ever) && w in ever && Analyze(w.data).Mixed?
    requires e.table[c.hash(w.data)].refs > 1
    ensures var h := c.hash(w.data);
      StoreInv(c, e.(table := e.table[h := e.table[h].(refs := e.table[h].refs - 1)]), ever - {w})
  {
    hide EncodePattern; hide Analyze; hide IsMarker; hide Encode; hide Holders;
    var h, rest := c.hash(w.data), ever - {w};
    var t := e.(table := e.table[h := e.table[h].(refs := e.table[h].refs - 1)]);
    MixedFingerprint(c, w.data);
    HoldersRemove(c, ever, w, h);
    FewerClaims(c, e, rest, ever);
    assert CountsCover(c, t, rest);
  }

  // Giving up one claim, and the reference it stands for, keeps all the others readable.
  lemma ReleaseKeeps(c: Codec, e: Store, ever: set<Claim>, w: Claim)
    requires Sound(c) && StoreInv(c, e, ever) && w in ever
    ensures StoreInv(c, Release(e, w.id, Fingerprint(c, w.data)), ever - {w})
  {
    hide EncodePattern; hide Analyze; hide IsMarker; hide Encode; hide Holders; hide Sound;
    if Analyze(w.data).Mixed? {
      MixedFingerprint(c, w.data);
      if e.table[c.hash(w.data)].refs <= 1 {
        ReleaseLast(c, e, ever, w);
      } else {
        ReleaseOne(c, e, ever, w);
      }
    } else {
      PatternNotIndexed(c, e, w.data);
      ReleasePattern(c, e, ever, w);
    }
  }

  // ---------------------------------------------------------------- any number of stores

  datatype Put = Put(data: Bytes, id: BlockId)

  function EmptyStore(): Store { Store(map[], map[]) }

  // Stores one after the other, of any data hashed without collision, each under an id the
  // backend does not hold yet.  A store that fails changes nothing.
  ghost predicate Stores(c: Codec, puts: seq<Put>, trace: seq<Store>, placed: seq<Result<Placed, Error>>) {
    && |trace| == |puts| + 1 && |placed| == |puts| && trace[0] == EmptyStore()
    && forall i | 0 <= i < |puts| ::
         && InPlay(c, puts[i].data) && puts[i].id !in trace[i].backend
         && Outcome(ReduceAndStore(c, trace[i], puts[i].data, puts[i].id), trace[i], trace[i + 1], placed[i])
  }

  ghost predicate Outcome(r: Result<(Store, Placed), Error>, e: Store, t: Store, p: Result<Placed, Error>) {
    if r.Ok? then r.value.0 == t && p == Ok(r.value.1) else t == e && p == Err(r.error)
  }

  // Every entry of the table leads to the data it was made for, markers included.
  ghost predicate TableLeads(c: Codec, e: Store) {
    forall x | c.inPlay(x) && c.hash(x) in e.table :: Holds(c, e, e.table[c.hash(x)].blockId, x)
  }

  // Block `id` reads as stored data d reads.
  ghost predicate ReadsLike(c: Codec, e: Store, id: BlockId, d: Bytes) {
    id in e.backend && Retrieve(c, e, id) == Reads(c, d)
  }

  // Whatever is stored reads back as it should, also through an entry made for a marker.
  lemma StoreReads(c: Codec, e: Store, d: Bytes, id: BlockId)
    requires Sound(c) && TableLeads(c, e) && InPlay(c, d) && id !in e.backend
    requires ReduceAndStore(c, e, d, id).Ok?
    ensures var (t, placed) := ReduceAndStore(c, e, d, id).value;
      TableLeads(c, t) && Grows(e, t) && ReadsLike(c, t, placed.blockId, d)
  {
    hide Reads; hide Decode; hide Compress; hide Analyze;
    var (cur, reduced) := EncodePattern(d).value;
    var (t, placed) := ReduceAndStore(c, e, d, id).value;
    if c.hash(cur) in e.table {
      assert Holds(c, e, placed.blockId, cur);
      ReadsBack(c, cur);
      if reduced {
        MarkerReadsAsPattern(c, d);
      }
    } else {
      assert Holds(c, t, id, d);
      ReadsBack(c, d);
    }
  }

  lemma {:induction false} StoresInvariant(c: Codec, puts: seq<Put>, trace: seq<Store>, placed: seq<Result<Placed, Error>>, i: nat, n: nat)
    requires Sound(c) && Stores(c, puts, trace, placed) && i <= n <= |puts|
    ensures TableLeads(c, trace[n])
    ensures i < n && placed[i].Ok? ==> ReadsLike(c, trace[n], placed[i].value.blockId, puts[i].data)
    decreases n
  {
    hide ReduceAndStore; hide InPlay; hide Sound; hide Encode; hide Decode; hide Reads;
    if n > 0 {
      StoresInvariant(c, puts, trace, placed, if i < n then i else n - 1, n - 1);
      var put := puts[n - 1];
      assert Outcome(ReduceAndStore(c, trace[n - 1], put.data, put.id), trace[n - 1], trace[n], placed[n - 1]);
      if placed[n - 1].Ok? {
        assert InPlay(c, put.data) && put.id !in trace[n - 1].backend;
        StoreReads(c, trace[n - 1], put.data, put.id);
      }
    }
  }

  // After any further stores, of whatever data, a stored block reads as Reads says, and so
  // returns its original bytes exactly when they are storable.
  lemma StoresReadBack(c: Codec, puts: seq<Put>, trace: seq<Store>, placed: seq<Result<Placed, Error>>, i: nat, n: nat)
    requires Sound(c) && Stores(c, puts, trace, placed) && i < n <= |puts|
    ensures placed[i].Ok? <==> Encode(c, puts[i].data).Ok?
    ensures placed[i].Ok? ==>
      var got := Retrieve(c, trace[n], placed[i].value.blockId);
      got == Reads(c, puts[i].data) && (got == Ok(puts[i].data) <==> Storable(c, puts[i].data))
  {
    hide ReduceAndStore; hide InPlay; hide Sound; hide Retrieve; hide Reads; hide Storable; hide Encode;
    StoresInvariant(c, puts, trace, placed, i, n);
    StoresInvariant(c, puts, trace, placed, i, i);
    StoreFailsExactly(c, trace[i], puts[i].data, puts[i].id);
    assert Outcome(ReduceAndStore(c, trace[i], puts[i].data, puts[i].id), trace[i], trace[i + 1], placed[i]);
    if placed[i].Ok? {
      ReadsBack(c, puts[i].data);
      RoundTripExactly(c, puts[i].data);
    }
  }

  // Storing fails exactly when the data cannot be encoded: the table never leads to such data.
  lemma StoreFailsExactly(c: Codec, e: Store, d: Bytes, id: BlockId)
    requires TableLeads(c, e) && InPlay(c, d)
    ensures ReduceAndStore(c, e, d, id).Ok? <==> Encode(c, d).Ok?
  {
    hide Compress; hide Analyze;
    if EncodePattern(d).Ok? && EncodePattern(d).value.1 {
      MarkerReadsAsPattern(c, d);
    }
  }

  // ---------------------------------------------------------------- deduplication over stores

  // Data that is not a pattern is kept once: every later store of it, after whatever other
  // stores, gets the block of the first, writes nothing and reports no bytes.
  lemma StoresDeduplicate(c: Codec, puts: seq<Put>, trace: seq<Store>, placed: seq<Result<Placed, Error>>, i: nat, j: nat)
    requires Sound(c) && Stores(c, puts, trace, placed) && i < j < |puts|
    requires puts[i].data == puts[j].data && TwoBytes(puts[i].data) && placed[i].Ok?
    ensures placed[j].Ok? && placed[j].value.blockId == placed[i].value.blockId
    ensures placed[j].value.storedSize == 0 && trace[j + 1].backend == trace[j].backend
  {
    hide InPlay; hide Sound; hide TwoBytes; hide Analyze; hide Compress;
    var d := puts[i].data;
    MixedHasTwoBytes(d);
    assert Outcome(ReduceAndStore(c, trace[i], d, puts[i].id), trace[i], trace[i + 1], placed[i]);
    assert Outcome(ReduceAndStore(c, trace[j], d, puts[j].id), trace[j], trace[j + 1], placed[j]);
    StaysIndexed(c, puts, trace, placed, c.hash(d), i + 1, j);
  }

  // Stores never take an entry away or lead it elsewhere.
  lemma {:induction false} StaysIndexed(c: Codec, puts: seq<Put>, trace: seq<Store>, placed: seq<Result<Placed, Error>>,
                                        h: string, i: nat, j: nat)
    requires Stores(c, puts, trace, placed) && i <= j <= |puts| && h in trace[i].table
    ensures h in trace[j].table && trace[j].table[h].blockId == trace[i].table[h].blockId
    decreases j
  {
    hide InPlay; hide EncodePattern; hide Compress;
    if j > i {
      StaysIndexed(c, puts, trace, placed, h, i, j - 1);
      var put := puts[j - 1];
      assert Outcome(ReduceAndStore(c, trace[j - 1], put.data, put.id), trace[j - 1], trace[j], placed[j - 1]);
    }
  }
}
