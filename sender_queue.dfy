/**
 * The receiving end of an exchange: the sender queues of a stream receiver. Packets of
 * serialized chunks arrive from several senders. Without keep-order a per-sender sequence
 * filter drops repeated packets. With keep-order a reorder buffer holds each sender's
 * packets by sequence number and flushes them to the ready queue only in contiguous
 * sequence order. Each sender's end of stream counts the remaining senders down once.
 * Two queues share these rules: the classic non-pipeline queue and the pipeline queue,
 * which keeps one ready queue per consumer driver and decides when its consumer unplugs.
 */
module SenderQueues {
  import opened Wrappers
  import opened BeStatus

  // ------------------------------------------------------------------ packets and chunks

  /** A serialized chunk as it travels in a transmit request. */
  datatype ChunkPB = ChunkPB(
    isNulls: seq<bool>,
    slotIdMap: seq<int>,   // flattened (slot id, column index) pairs
    isConsts: seq<bool>,
    dataSize: nat,         // bytes of the serialized payload
    decoded: Status)       // what decompressing and deserializing the payload yields

  /** One transmit request: a packet of chunks from sender `beNumber`. */
  datatype Request = Request(
    beNumber: int,
    sequence: int,
    chunks: seq<ChunkPB>,
    driverSequences: seq<int>,
    usePassThrough: bool,
    pipelineLevelShuffle: bool)

  /** A chunk's content: deserialized, still serialized (lazy), or handed over in memory. */
  datatype Payload = Decoded(pb: ChunkPB) | Serialized(pb: ChunkPB) | PassedThrough(chunkId: int)

  /** A queued chunk: its byte size, its consumer driver, its content and whether it holds
   *  the sender's done closure (blocking the sender until the chunk is consumed). */
  datatype ChunkItem = ChunkItem(bytes: nat, driverSequence: int, payload: Payload, closure: bool)

  /** A chunk handed over in memory by a local sender. */
  datatype PassThroughChunk = PassThroughChunk(chunkId: int, bytes: nat, driverSequence: int)

  function ItemBytes(items: seq<ChunkItem>): nat {
    if items == [] then 0 else ItemBytes(items[..|items| - 1]) + items[|items| - 1].bytes
  }

  function ClosureCount(items: seq<ChunkItem>): nat {
    if items == [] then 0 else ClosureCount(items[..|items| - 1]) + (if items[|items| - 1].closure then 1 else 0)
  }

  lemma {:induction false} ItemBytesAppend(a: seq<ChunkItem>, b: seq<ChunkItem>)
    ensures ItemBytes(a + b) == ItemBytes(a) + ItemBytes(b)
    decreases |b|
  {
    if b != [] {
      assert (a + b)[..|a + b| - 1] == a + b[..|b| - 1];
      ItemBytesAppend(a, b[..|b| - 1]);
    } else {
      assert a + b == a;
    }
  }

  lemma {:induction false} ClosureCountAppend(a: seq<ChunkItem>, b: seq<ChunkItem>)
    ensures ClosureCount(a + b) == ClosureCount(a) + ClosureCount(b)
    decreases |b|
  {
    if b != [] {
      assert (a + b)[..|a + b| - 1] == a + b[..|b| - 1];
      ClosureCountAppend(a, b[..|b| - 1]);
    } else {
      assert a + b == a;
    }
  }

  /**
   * Hands the sender's done closure to the last chunk when there is one, the sender passed a
   * closure and the receiver is over its buffer limit; the sender is then blocked until that
   * chunk is consumed.
   */
  function AttachDone(items: seq<ChunkItem>, hasDone: bool, exceedsLimit: bool): (r: (seq<ChunkItem>, bool))
    ensures |r.0| == |items| && ItemBytes(r.0) == ItemBytes(items)
    ensures r.1 <==> items != [] && hasDone && exceedsLimit
    ensures forall i :: 0 <= i < |items| ==>
      r.0[i] == if r.1 && i == |items| - 1 then items[i].(closure := true) else items[i]
  {
    if items != [] && hasDone && exceedsLimit then
      var last := |items| - 1;
      var r := items[last := items[last].(closure := true)];
      assert r[..last] == items[..last];
      (r, true)
    else (items, false)
  }

  /** A chunk deserialized on arrival; it has no consumer driver of its own. */
  function DecodedItem(pb: ChunkPB): ChunkItem {
    ChunkItem(pb.dataSize, -1, Decoded(pb), false)
  }

  function DecodedItems(pbs: seq<ChunkPB>): (r: seq<ChunkItem>)
    ensures |r| == |pbs| && forall i :: 0 <= i < |pbs| ==> r[i] == DecodedItem(pbs[i])
  {
    seq(|pbs|, i requires 0 <= i < |pbs| => DecodedItem(pbs[i]))
  }

  /** Deserializing `pbs` in order stops at the first chunk that fails, with that chunk's error. */
  function DecodeStatus(pbs: seq<ChunkPB>): (r: Status)
    ensures r.OK? <==> forall i :: 0 <= i < |pbs| ==> pbs[i].decoded.OK?
    ensures r.Error? ==> exists i :: 0 <= i < |pbs| && r == pbs[i].decoded
                                     && forall j :: 0 <= j < i ==> pbs[j].decoded.OK?
  {
    if pbs == [] then OK
    else if pbs[0].decoded.Error? then pbs[0].decoded
    else
      var r := DecodeStatus(pbs[1..]);
      assert forall i :: 1 <= i < |pbs| ==> pbs[i] == pbs[1..][i - 1];
      r
  }

  /** One more chunk decoded: the status is that of the rest, and the item and its bytes join the prefix. */
  lemma DecodeStep(pbs: seq<ChunkPB>, i: nat)
    requires i < |pbs| && pbs[i].decoded.OK?
    ensures DecodeStatus(pbs[i..]) == DecodeStatus(pbs[i + 1..])
    ensures DecodedItems(pbs[..i + 1]) == DecodedItems(pbs[..i]) + [DecodedItem(pbs[i])]
    ensures ItemBytes(DecodedItems(pbs[..i + 1])) == ItemBytes(DecodedItems(pbs[..i])) + pbs[i].dataSize
  {
    assert pbs[i..][1..] == pbs[i + 1..];
    var items := DecodedItems(pbs[..i]);
    assert (items + [DecodedItem(pbs[i])])[..|items|] == items;
  }

  /**
   * Deserializes the chunks of a request one by one, giving up at the first failure; on
   * success it yields one item per chunk and their total byte size.
   */
  method DeserializeChunks(pbs: seq<ChunkPB>) returns (status: Status, items: seq<ChunkItem>, total: nat)
    ensures status == DecodeStatus(pbs)
    ensures status.OK? ==> items == DecodedItems(pbs) && total == ItemBytes(items)
  {
    items, total := [], 0;
    var i := 0;
    while i < |pbs|
      invariant 0 <= i <= |pbs|
      invariant DecodeStatus(pbs) == DecodeStatus(pbs[i..])
      invariant items == DecodedItems(pbs[..i]) && total == ItemBytes(items)
    {
      if pbs[i].decoded.Error? {
        return pbs[i].decoded, items, total;
      }
      DecodeStep(pbs, i);
      items := items + [DecodedItem(pbs[i])];
      total := total + pbs[i].dataSize;
      i := i + 1;
    }
    assert pbs[..i] == pbs;
    status := OK;
  }

  // ------------------------------------------------------------------ chunk meta

  /** A slot of a tuple descriptor of the receiver's row layout. */
  datatype SlotDesc = SlotDesc(id: int, typeId: int)

  /** A column type; a freshly resized type vector holds invalid types. */
  datatype TypeDesc = InvalidType | SlotType(typeId: int)

  /** How to deserialize the chunks of a stream, decoded from its first chunk. */
  datatype ChunkMeta = ChunkMeta(slotIdToIndex: map<int, int>, isNulls: seq<bool>, isConsts: seq<bool>, types: seq<TypeDesc>)

  const EmptyMeta := ChunkMeta(map[], [], [], [])

  /** The slot id of the `p`-th pair of a flattened slot map. */
  function SlotOf(pairs: seq<int>, p: nat): int
    requires 2 * p + 1 < |pairs|
  {
    pairs[2 * p]
  }

  function IndexOf(pairs: seq<int>, p: nat): int
    requires 2 * p + 1 < |pairs|
  {
    pairs[2 * p + 1]
  }

  /** `m` with the first `n` (slot id, column index) pairs written over it, in order. */
  function Overlay(m: map<int, int>, pairs: seq<int>, n: nat): map<int, int>
    requires 2 * n <= |pairs|
  {
    if n == 0 then m else Overlay(m, pairs, n - 1)[SlotOf(pairs, n - 1) := IndexOf(pairs, n - 1)]
  }

  /** Writing the pairs over `m`: a slot id is present iff it was in `m` or some pair names it. */
  lemma {:induction false} OverlayHas(m: map<int, int>, pairs: seq<int>, n: nat, k: int)
    requires 2 * n <= |pairs|
    ensures k in Overlay(m, pairs, n) <==> k in m || exists p: nat :: p < n && SlotOf(pairs, p) == k
    decreases n
  {
    if n > 0 {
      OverlayHas(m, pairs, n - 1, k);
      if k == SlotOf(pairs, n - 1) {
        assert SlotOf(pairs, n - 1) == k;
      } else if exists p: nat :: p < n && SlotOf(pairs, p) == k {
        var p: nat :| p < n && SlotOf(pairs, p) == k;
        assert p < n - 1;
      }
    }
  }

  /** A slot id maps to the column index of the last pair naming it. */
  lemma {:induction false} OverlayLastWins(m: map<int, int>, pairs: seq<int>, n: nat, p: nat)
    requires 2 * n <= |pairs| && p < n
    requires forall q: nat :: p < q < n ==> SlotOf(pairs, q) != SlotOf(pairs, p)
    ensures SlotOf(pairs, p) in Overlay(m, pairs, n) && Overlay(m, pairs, n)[SlotOf(pairs, p)] == IndexOf(pairs, p)
    decreases n
  {
    if p < n - 1 {
      OverlayLastWins(m, pairs, n - 1, p);
      assert SlotOf(pairs, n - 1) != SlotOf(pairs, p);
    }
  }

  /** A slot id no pair names keeps its index. */
  lemma {:induction false} OverlayKeeps(m: map<int, int>, pairs: seq<int>, n: nat, k: int)
    requires 2 * n <= |pairs| && k in m
    requires forall p: nat :: p < n ==> SlotOf(pairs, p) != k
    ensures k in Overlay(m, pairs, n) && Overlay(m, pairs, n)[k] == m[k]
    decreases n
  {
    if n > 0 {
      OverlayKeeps(m, pairs, n - 1, k);
      assert SlotOf(pairs, n - 1) != k;
    }
  }

  /** The type of each slot id of one tuple descriptor; the first slot with an id wins. */
  function SlotTypes(slots: seq<SlotDesc>): map<int, int> {
    if slots == [] then map[] else SlotTypes(slots[1..])[slots[0].id := slots[0].typeId]
  }

  /** The slot ids the tuples declare. */
  function DeclaredIds(tuples: seq<seq<SlotDesc>>): set<int> {
    if tuples == [] then {} else DeclaredIds(tuples[..|tuples| - 1]) + SlotTypes(tuples[|tuples| - 1]).Keys
  }

  lemma {:induction false} DeclaredIdsMeans(tuples: seq<seq<SlotDesc>>, k: int)
    ensures k in DeclaredIds(tuples) <==> exists t :: 0 <= t < |tuples| && k in SlotTypes(tuples[t])
    decreases |tuples|
  {
    if tuples != [] {
      var n := |tuples| - 1;
      DeclaredIdsMeans(tuples[..n], k);
      if exists t :: 0 <= t < |tuples| && k in SlotTypes(tuples[t]) {
        var t :| 0 <= t < |tuples| && k in SlotTypes(tuples[t]);
        if t < n {
          assert k in SlotTypes(tuples[..n][t]);
        }
      }
      if exists t :: 0 <= t < n && k in SlotTypes(tuples[..n][t]) {
        var t :| 0 <= t < n && k in SlotTypes(tuples[..n][t]);
        assert k in SlotTypes(tuples[t]);
      }
    }
  }

  /** The number of (tuple, slot id) pairs where a tuple declares a slot id of `keys`. */
  function MatchedCount(tuples: seq<seq<SlotDesc>>, keys: set<int>): nat {
    if tuples == [] then 0
    else MatchedCount(tuples[..|tuples| - 1], keys) + |keys * SlotTypes(tuples[|tuples| - 1]).Keys|
  }

  /**
   * When no slot id is declared by two tuples, the matched count is the number of distinct
   * slot ids of the map that the row layout declares.
   */
  lemma {:induction false} MatchedCountOfDisjoint(tuples: seq<seq<SlotDesc>>, keys: set<int>)
    requires forall t, u :: 0 <= t < u < |tuples| ==> SlotTypes(tuples[t]).Keys !! SlotTypes(tuples[u]).Keys
    ensures MatchedCount(tuples, keys) == |keys * DeclaredIds(tuples)|
    decreases |tuples|
  {
    if tuples != [] {
      var n := |tuples| - 1;
      var front := tuples[..n];
      MatchedCountOfDisjoint(front, keys);
      var last := SlotTypes(tuples[n]).Keys;
      forall k | k in DeclaredIds(front)
        ensures k !in last
      {
        DeclaredIdsMeans(front, k);
        var t :| 0 <= t < |front| && k in SlotTypes(front[t]);
        assert SlotTypes(tuples[t]).Keys !! last;
      }
      assert keys * DeclaredIds(tuples) == keys * DeclaredIds(front) + keys * last;
    }
  }

  /** `types` resized to `n`: the prefix is kept, new entries are invalid. */
  function Resize(types: seq<TypeDesc>, n: nat): (r: seq<TypeDesc>)
    ensures |r| == n && forall j :: 0 <= j < n ==> r[j] == if j < |types| then types[j] else InvalidType
  {
    if n <= |types| then types[..n] else types + seq(n - |types|, _ => InvalidType)
  }

  /** Every column index the slot map names lies within the columns of the chunk. */
  ghost predicate IndicesInRange(m: map<int, int>, n: nat) {
    forall k :: k in m ==> 0 <= m[k] < n
  }

  /** What building the meta from `pb` needs of the pairs: whole pairs and in-range indices. */
  ghost predicate MetaBuildable(meta0: ChunkMeta, pb: ChunkPB) {
    pb.isNulls != [] && pb.slotIdMap != [] ==>
      |pb.slotIdMap| % 2 == 0
      && IndicesInRange(Overlay(meta0.slotIdToIndex, pb.slotIdMap, |pb.slotIdMap| / 2), |pb.isNulls|)
  }

  /**
   * Walks the tuple descriptors in order, typing the column of every declared slot that the
   * slot map names, and counts those slots.
   */
  method TypeColumns(slotIdToIndex: map<int, int>, n: nat, base: seq<TypeDesc>, tuples: seq<seq<SlotDesc>>)
    returns (types: seq<TypeDesc>, hit: set<int>, columnIndex: nat)
    requires IndicesInRange(slotIdToIndex, n) && |base| == n
    ensures TypesSoFar(slotIdToIndex, n, base, tuples, types)
    ensures columnIndex == MatchedCount(tuples, slotIdToIndex.Keys)
    ensures hit == slotIdToIndex.Keys * DeclaredIds(tuples)
  {
    var keys := slotIdToIndex.Keys;
    types := base;
    columnIndex := 0;
    hit := {};
    var t := 0;
    while t < |tuples|
      invariant 0 <= t <= |tuples|
      invariant TypesSoFar(slotIdToIndex, n, base, tuples[..t], types)
      invariant columnIndex == MatchedCount(tuples[..t], keys)
      invariant hit == keys * DeclaredIds(tuples[..t])
    {
      var matched;
      ghost var before := types;
      types, hit, matched := TypeTuple(slotIdToIndex, n, hit, types, SlotTypes(tuples[t]));
      TypesSoFarStep(slotIdToIndex, n, base, tuples, t, before, types);
      columnIndex := columnIndex + matched;
      MatchedSnoc(tuples, t, keys);
      IntersectUnion(keys, DeclaredIds(tuples[..t]), SlotTypes(tuples[t]).Keys);
      t := t + 1;
    }
    assert tuples[..t] == tuples;
  }

  lemma IntersectUnion(keys: set<int>, a: set<int>, b: set<int>)
    ensures keys * (a + b) == keys * a + keys * b
  {
  }

  /**
   * Builds the chunk meta from the first chunk of a stream. An empty null-flag list or slot
   * map is an error that leaves the meta alone. Otherwise the pairs are written over the
   * slot map, the flags are copied, each matched slot's column gets its type, and the build
   * fails unless the number of matches equals the number of columns; a failed build keeps
   * what it wrote.
   */
  method BuildChunkMeta(meta0: ChunkMeta, pb: ChunkPB, tuples: seq<seq<SlotDesc>>) returns (status: Status, meta: ChunkMeta)
    requires MetaBuildable(meta0, pb)
    ensures pb.isNulls == [] || pb.slotIdMap == [] ==>
              status == Error(InternalError, "pb_chunk meta could not be empty") && meta == meta0
    ensures pb.isNulls != [] && pb.slotIdMap != [] ==>
              meta.slotIdToIndex == Overlay(meta0.slotIdToIndex, pb.slotIdMap, |pb.slotIdMap| / 2)
              && meta.isNulls == pb.isNulls && meta.isConsts == pb.isConsts && |meta.types| == |pb.isNulls|
              && (status.OK? <==> MatchedCount(tuples, meta.slotIdToIndex.Keys) == |pb.isNulls|)
              && (status.Error? ==> status.code == InternalError)
              && (forall j :: 0 <= j < |pb.isNulls| ==>
                    if j in Columns(meta.slotIdToIndex, DeclaredIds(tuples))
                    then TypedByLastDeclaring(meta.slotIdToIndex, tuples, j, meta.types[j])
                    else meta.types[j] == Resize(meta0.types, |pb.isNulls|)[j])
  {
    if pb.isNulls == [] || pb.slotIdMap == [] {
      return Error(InternalError, "pb_chunk meta could not be empty"), meta0;
    }
    var slotIdToIndex := OverlayPairs(meta0.slotIdToIndex, pb.slotIdMap);
    var n := |pb.isNulls|;
    var keys := slotIdToIndex.Keys;
    var types, hit, columnIndex := TypeColumns(slotIdToIndex, n, Resize(meta0.types, n), tuples);
    forall j | 0 <= j < n
      ensures j in Columns(slotIdToIndex, DeclaredIds(tuples)) <==> LastDeclaring(slotIdToIndex, tuples, j) >= 0
    {
      LastDeclaringMeans(slotIdToIndex, tuples, j);
    }
    meta := ChunkMeta(slotIdToIndex, pb.isNulls, pb.isConsts, types);
    if columnIndex != n {
      return Error(InternalError, "build chunk meta error"), meta;
    }
    status := OK;
  }

  /** Writes the (slot id, column index) pairs over `m0`, a pair at a time. */
  method OverlayPairs(m0: map<int, int>, pairs: seq<int>) returns (m: map<int, int>)
    requires |pairs| % 2 == 0
    ensures m == Overlay(m0, pairs, |pairs| / 2)
  {
    m := m0;
    var i := 0;
    while i < |pairs|
      invariant 0 <= i <= |pairs| && i % 2 == 0
      invariant m == Overlay(m0, pairs, i / 2)
    {
      m := m[pairs[i] := pairs[i + 1]];
      i := i + 2;
    }
  }

  /**
   * One tuple descriptor's pass over the slot map: each slot id it declares types its column
   * and counts as a match.
   */
  method TypeTuple(m: map<int, int>, n: nat, hit0: set<int>, types0: seq<TypeDesc>, slotToType: map<int, int>)
    returns (types: seq<TypeDesc>, hit: set<int>, matched: nat)
    requires |types0| == n && IndicesInRange(m, n)
    ensures TupleTyped(m, n, slotToType, types0, m.Keys * slotToType.Keys, types)
    ensures hit == hit0 + m.Keys * slotToType.Keys
    ensures matched == |m.Keys * slotToType.Keys|
  {
    types, hit, matched := types0, hit0, 0;
    var keys := KeysOf(m);
    var here: set<int> := {};
    var i := 0;
    while i < |keys|
      invariant 0 <= i <= |keys|
      invariant here == HitIn(keys[..i], slotToType.Keys)
      invariant TupleTyped(m, n, slotToType, types0, here, types)
      invariant matched == CountIn(keys[..i], slotToType.Keys)
      invariant hit == hit0 + here
    {
      var k := keys[i];
      assert keys[..i + 1] == keys[..i] + [k];
      assert k in Elems(keys);
      types, here, matched := VisitSlot(m, n, slotToType, types0, here, types, matched, k);
      hit := hit0 + here;
      i := i + 1;
    }
    assert keys[..i] == keys;
    CountInIsSize(keys, slotToType.Keys);
  }

  /** The keys of `m` in the map's iteration order, which the model leaves open. */
  method KeysOf(m: map<int, int>) returns (ks: seq<int>)
    ensures Distinct(ks) && Elems(ks) == m.Keys
  {
    ks := [];
    var todo := m.Keys;
    while exists k :: k in todo
      invariant Distinct(ks) && Elems(ks) + todo == m.Keys && Elems(ks) !! todo
      decreases |todo|
    {
      var k :| k in todo;
      EnumerateStep(ks, todo, m.Keys, k);
      ks := ks + [k];
      todo := todo - {k};
    }
  }

  lemma EnumerateStep(ks: seq<int>, todo: set<int>, keys: set<int>, k: int)
    requires Distinct(ks) && Elems(ks) + todo == keys && Elems(ks) !! todo && k in todo
    ensures Distinct(ks + [k]) && Elems(ks + [k]) + (todo - {k}) == keys && Elems(ks + [k]) !! todo - {k}
    ensures |todo - {k}| < |todo|
  {
    ElemsSnoc(ks, k);
    assert k !in Elems(ks);
  }

  /** How many of `ks` lie in `ids`. */
  function CountIn(ks: seq<int>, ids: set<int>): nat {
    if ks == [] then 0 else CountIn(ks[..|ks| - 1], ids) + (if ks[|ks| - 1] in ids then 1 else 0)
  }

  /** Those of `ks` that lie in `ids`. */
  function HitIn(ks: seq<int>, ids: set<int>): set<int> {
    if ks == [] then {} else HitIn(ks[..|ks| - 1], ids) + (if ks[|ks| - 1] in ids then {ks[|ks| - 1]} else {})
  }

  /** Over distinct keys the count is the size of the hit set, which is the keys within `ids`. */
  lemma {:induction false} CountInIsSize(ks: seq<int>, ids: set<int>)
    requires Distinct(ks)
    ensures HitIn(ks, ids) == Elems(ks) * ids
    ensures CountIn(ks, ids) == |Elems(ks) * ids|
    decreases |ks|
  {
    if ks != [] {
      var n := |ks| - 1;
      CountInIsSize(ks[..n], ids);
      ElemsSnoc(ks[..n], ks[n]);
      assert ks[..n] + [ks[n]] == ks;
      assert ks[n] !in Elems(ks[..n]);
      if ks[n] in ids {
        assert Elems(ks) * ids == Elems(ks[..n]) * ids + {ks[n]};
      } else {
        assert Elems(ks) * ids == Elems(ks[..n]) * ids;
      }
    }
  }

  /** One slot id of the map: if the tuple declares it, its column gets the slot's type. */
  method VisitSlot(m: map<int, int>, n: nat, slotToType: map<int, int>, ghost before: seq<TypeDesc>,
                   hit0: set<int>, types0: seq<TypeDesc>, matched0: nat, k: int)
    returns (types: seq<TypeDesc>, hit: set<int>, matched: nat)
    requires TupleTyped(m, n, slotToType, before, hit0, types0) && k in m && 0 <= m[k] < n
    ensures TupleTyped(m, n, slotToType, before, hit, types)
    ensures hit == if k in slotToType then hit0 + {k} else hit0
    ensures matched == if k in slotToType then matched0 + 1 else matched0
  {
    types, hit, matched := types0, hit0, matched0;
    if k in slotToType {
      assert Columns(m, hit0 + {k}) == Columns(m, hit0) + {m[k]};
      assert SlotType(slotToType[k]) in WriterTypes(m, slotToType, m[k]);
      types := types[m[k] := SlotType(slotToType[k])];
      matched := matched + 1;
      hit := hit + {k};
    }
  }

  /** The columns the slot ids `ks` of `m` name. */
  ghost function Columns(m: map<int, int>, ks: set<int>): set<int> {
    set k | k in ks && k in m :: m[k]
  }

  /** The types that the slots of one tuple descriptor mapped to column `j` would write there. */
  ghost function WriterTypes(m: map<int, int>, slotToType: map<int, int>, j: int): set<TypeDesc> {
    set k | k in m && k in slotToType && m[k] == j :: SlotType(slotToType[k])
  }

  /**
   * The last tuple descriptor declaring a slot that the slot map sends to column `j`, or -1.
   * Its pass is the last to write the column's type.
   */
  ghost function LastDeclaring(m: map<int, int>, tuples: seq<seq<SlotDesc>>, j: int): (u: int)
    ensures -1 <= u < |tuples|
  {
    if tuples == [] then -1
    else if j in Columns(m, SlotTypes(tuples[|tuples| - 1]).Keys) then |tuples| - 1
    else LastDeclaring(m, tuples[..|tuples| - 1], j)
  }

  /**
   * Column `j` holds the type of one of the slots that the last declaring tuple descriptor
   * maps to it. Which one is left open, as the slot map's iteration order is; when a single
   * slot id names the column, that is its type.
   */
  ghost predicate TypedByLastDeclaring(m: map<int, int>, tuples: seq<seq<SlotDesc>>, j: int, ty: TypeDesc) {
    var u := LastDeclaring(m, tuples, j);
    0 <= u && ty in WriterTypes(m, SlotTypes(tuples[u]), j)
  }

  /** When no two slot ids share a column, the type that the last declaring tuple gives a column is unique. */
  lemma TypedByLastDeclaringUnique(m: map<int, int>, tuples: seq<seq<SlotDesc>>, j: int, ty1: TypeDesc, ty2: TypeDesc)
    requires forall k1, k2 :: k1 in m && k2 in m && m[k1] == m[k2] ==> k1 == k2
    requires TypedByLastDeclaring(m, tuples, j, ty1) && TypedByLastDeclaring(m, tuples, j, ty2)
    ensures ty1 == ty2
  {
    var st := SlotTypes(tuples[LastDeclaring(m, tuples, j)]);
    var k1 :| k1 in m && k1 in st && m[k1] == j && ty1 == SlotType(st[k1]);
    var k2 :| k2 in m && k2 in st && m[k2] == j && ty2 == SlotType(st[k2]);
  }

  /** Within one tuple's pass: the columns of the slots hit so far hold one of their types, the rest are as before. */
  ghost predicate TupleTyped(m: map<int, int>, n: nat, slotToType: map<int, int>, before: seq<TypeDesc>,
                            hit: set<int>, types: seq<TypeDesc>) {
    |types| == n && |before| == n
    && forall j :: 0 <= j < n ==>
         if j in Columns(m, hit) then types[j] in WriterTypes(m, slotToType, j) else types[j] == before[j]
  }

  /** The types after the passes of `tuples`: each written column is typed by its last declaring tuple. */
  ghost predicate TypesSoFar(m: map<int, int>, n: nat, base: seq<TypeDesc>, tuples: seq<seq<SlotDesc>>,
                             types: seq<TypeDesc>) {
    |types| == n && |base| == n
    && forall j :: 0 <= j < n ==>
         if LastDeclaring(m, tuples, j) >= 0 then TypedByLastDeclaring(m, tuples, j, types[j]) else types[j] == base[j]
  }

  lemma TypesSoFarStep(m: map<int, int>, n: nat, base: seq<TypeDesc>, tuples: seq<seq<SlotDesc>>, t: nat,
                       before: seq<TypeDesc>, types: seq<TypeDesc>)
    requires t < |tuples|
    requires TypesSoFar(m, n, base, tuples[..t], before)
    requires TupleTyped(m, n, SlotTypes(tuples[t]), before, m.Keys * SlotTypes(tuples[t]).Keys, types)
    ensures TypesSoFar(m, n, base, tuples[..t + 1], types)
  {
    var st := SlotTypes(tuples[t]);
    assert tuples[..t + 1][..t] == tuples[..t];
    assert Columns(m, m.Keys * st.Keys) == Columns(m, st.Keys);
    forall j | 0 <= j < n
      ensures if LastDeclaring(m, tuples[..t + 1], j) >= 0 then TypedByLastDeclaring(m, tuples[..t + 1], j, types[j])
              else types[j] == base[j]
    {
      if j in Columns(m, st.Keys) {
        assert LastDeclaring(m, tuples[..t + 1], j) == t;
      } else {
        var u := LastDeclaring(m, tuples[..t], j);
        assert LastDeclaring(m, tuples[..t + 1], j) == u;
        if u >= 0 {
          assert tuples[..t + 1][u] == tuples[..t][u];
        }
      }
    }
  }

  /** A column is named by a declared slot exactly when some tuple descriptor declares one. */
  lemma {:induction false} LastDeclaringMeans(m: map<int, int>, tuples: seq<seq<SlotDesc>>, j: int)
    ensures j in Columns(m, DeclaredIds(tuples)) <==> LastDeclaring(m, tuples, j) >= 0
    decreases |tuples|
  {
    if tuples != [] {
      var front := tuples[..|tuples| - 1];
      LastDeclaringMeans(m, front, j);
      assert Columns(m, DeclaredIds(tuples))
          == Columns(m, DeclaredIds(front)) + Columns(m, SlotTypes(tuples[|tuples| - 1]).Keys);
    }
  }

  lemma MatchedSnoc(tuples: seq<seq<SlotDesc>>, t: nat, keys: set<int>)
    requires t < |tuples|
    ensures MatchedCount(tuples[..t + 1], keys) == MatchedCount(tuples[..t], keys) + |keys * SlotTypes(tuples[t]).Keys|
    ensures DeclaredIds(tuples[..t + 1]) == DeclaredIds(tuples[..t]) + SlotTypes(tuples[t]).Keys
  {
    assert tuples[..t + 1][..t] == tuples[..t];
  }

  // ------------------------------------------------------------------ reorder buffer

  /** The result of flushing a sender's reorder buffer. */
  datatype Flushed = Flushed(ready: seq<ChunkItem>, rest: map<int, seq<ChunkItem>>, maxProcessed: int)

  /**
   * While the packet after the last processed sequence is buffered, move its chunks to the
   * ready queue, drop it from the buffer and advance the processed mark.
   */
  function Flush(buf: map<int, seq<ChunkItem>>, maxProcessed: int): Flushed
    decreases |buf.Keys|
  {
    if maxProcessed + 1 in buf then
      var next := maxProcessed + 1;
      assert (buf - {next}).Keys == buf.Keys - {next};
      var f := Flush(buf - {next}, next);
      Flushed(buf[next] + f.ready, f.rest, f.maxProcessed)
    else Flushed([], buf, maxProcessed)
  }

  /**
   * The flush loop: while the buffer holds the sequence after the processed mark, its chunks go
   * to the ready queue, it leaves the buffer and the mark advances.
   */
  method FlushBuffer(buf0: map<int, seq<ChunkItem>>, mark0: int) returns (ready: seq<ChunkItem>, buf: map<int, seq<ChunkItem>>, mark: int)
    ensures Flushed(ready, buf, mark) == Flush(buf0, mark0)
  {
    ready, buf, mark := [], buf0, mark0;
    while mark + 1 in buf
      invariant Flush(buf0, mark0) == Flushed(ready + Flush(buf, mark).ready, Flush(buf, mark).rest, Flush(buf, mark).maxProcessed)
      decreases |buf.Keys|
    {
      var next := mark + 1;
      FlushUnfold(buf, mark);
      var g := Flush(buf - {next}, next);
      assert ready + (buf[next] + g.ready) == (ready + buf[next]) + g.ready;
      ready := ready + buf[next];
      buf := buf - {next};
      mark := next;
    }
  }

  /** The reorder buffer of sender `be`, empty until the sender's first packet. */
  function BufferOf(buffers: map<int, map<int, seq<ChunkItem>>>, be: int): map<int, seq<ChunkItem>> {
    if be in buffers then buffers[be] else map[]
  }

  /** The processed mark of sender `be`, -1 until the sender's first packet. */
  function MarkOf(marks: map<int, int>, be: int): int {
    if be in marks then marks[be] else -1
  }

  /** Sender `be`'s packet `sequence` is parked in its buffer, which is then flushed. */
  function ParkAndFlush(buffers: map<int, map<int, seq<ChunkItem>>>, marks: map<int, int>, be: int, sequence: int,
                        items: seq<ChunkItem>): Flushed
  {
    Flush(BufferOf(buffers, be)[sequence := items], MarkOf(marks, be))
  }

  /** A second update of the same key overrides the first. */
  lemma UpdateTwice<K, V>(m: map<K, V>, k: K, a: V, b: V)
    ensures m[k := a][k := b] == m[k := b]
  {
  }

  /** Each sender's next expected sequence is never left waiting in its buffer. */
  ghost predicate ReorderSettled(marks: map<int, int>, buffers: map<int, map<int, seq<ChunkItem>>>) {
    buffers.Keys <= marks.Keys && forall be :: be in buffers ==> marks[be] + 1 !in buffers[be]
  }

  /**
   * A flush leaves the sender's buffer settled: the next sequence after its new mark is not
   * buffered, so recording the flush keeps every sender settled.
   */
  lemma FlushSettles(marks: map<int, int>, buffers: map<int, map<int, seq<ChunkItem>>>, be: int,
                     buf: map<int, seq<ChunkItem>>, m: int)
    requires ReorderSettled(marks, buffers)
    ensures Flush(buf, m).maxProcessed + 1 !in Flush(buf, m).rest
    ensures ReorderSettled(marks[be := Flush(buf, m).maxProcessed], buffers[be := Flush(buf, m).rest])
  {
    FlushMeans(buf, m);
  }

  /** The chunks of sequences `lo..hi` of `buf`, in sequence order. */
  function ConcatRange(buf: map<int, seq<ChunkItem>>, lo: int, hi: int): seq<ChunkItem>
    requires forall k :: lo <= k <= hi ==> k in buf
    decreases hi - lo
  {
    if lo > hi then [] else buf[lo] + ConcatRange(buf, lo + 1, hi)
  }

  /** `buf` without the sequences `lo..hi`. */
  function Outside(buf: map<int, seq<ChunkItem>>, lo: int, hi: int): map<int, seq<ChunkItem>> {
    map k | k in buf && !(lo <= k <= hi) :: buf[k]
  }

  lemma {:induction false} ConcatRangeAgree(a: map<int, seq<ChunkItem>>, b: map<int, seq<ChunkItem>>, lo: int, hi: int)
    requires forall k :: lo <= k <= hi ==> k in a && k in b && a[k] == b[k]
    ensures ConcatRange(a, lo, hi) == ConcatRange(b, lo, hi)
    decreases hi - lo
  {
    if lo <= hi {
      ConcatRangeAgree(a, b, lo + 1, hi);
    }
  }

  /**
   * Flushing moves exactly the contiguous run of buffered sequences after the processed mark,
   * in sequence order, advances the mark by one per flushed sequence, stops at the first
   * missing sequence and leaves every other packet buffered.
   */
  lemma {:induction false} FlushMeans(buf: map<int, seq<ChunkItem>>, m: int)
    ensures Flush(buf, m).maxProcessed >= m
    ensures forall k :: m < k <= Flush(buf, m).maxProcessed ==> k in buf
    ensures Flush(buf, m).maxProcessed + 1 !in buf
    ensures Flush(buf, m).ready == ConcatRange(buf, m + 1, Flush(buf, m).maxProcessed)
    ensures Flush(buf, m).rest == Outside(buf, m + 1, Flush(buf, m).maxProcessed)
    decreases |buf.Keys|
  {
    FlushRun(buf, m);
    if m + 1 in buf {
      var next := m + 1;
      var smaller := buf - {next};
      assert smaller.Keys == buf.Keys - {next};
      FlushMeans(smaller, next);
      var g := Flush(smaller, next);
      assert Flush(buf, m) == Flushed(buf[next] + g.ready, g.rest, g.maxProcessed);
      ConcatRangeAgree(smaller, buf, next + 1, g.maxProcessed);
      OutsideDrop(buf, next, g.maxProcessed);
    } else {
      OutsideNone(buf, m + 1);
    }
  }

  /** One step of a flush: the next sequence goes out, then the rest of the buffer is flushed. */
  lemma FlushUnfold(buf: map<int, seq<ChunkItem>>, m: int)
    requires m + 1 in buf
    ensures var g := Flush(buf - {m + 1}, m + 1);
            Flush(buf, m) == Flushed(buf[m + 1] + g.ready, g.rest, g.maxProcessed)
            && |(buf - {m + 1}).Keys| < |buf.Keys|
  {
    assert (buf - {m + 1}).Keys == buf.Keys - {m + 1};
  }

  /** The run a flush consumes: the sequences after the mark up to the first missing one. */
  lemma {:induction false} FlushRun(buf: map<int, seq<ChunkItem>>, m: int)
    ensures Flush(buf, m).maxProcessed >= m
    ensures forall k :: m < k <= Flush(buf, m).maxProcessed ==> k in buf
    ensures Flush(buf, m).maxProcessed + 1 !in buf
    decreases |buf.Keys|
  {
    if m + 1 in buf {
      var next := m + 1;
      var smaller := buf - {next};
      assert smaller.Keys == buf.Keys - {next};
      FlushRun(smaller, next);
      assert Flush(buf, m).maxProcessed == Flush(smaller, next).maxProcessed;
      assert forall k :: k in smaller ==> k in buf;
    }
  }

  lemma OutsideDrop(buf: map<int, seq<ChunkItem>>, lo: int, hi: int)
    requires lo <= hi
    ensures Outside(buf - {lo}, lo + 1, hi) == Outside(buf, lo, hi)
  {
    assert Outside(buf - {lo}, lo + 1, hi).Keys == Outside(buf, lo, hi).Keys;
  }

  lemma OutsideNone(buf: map<int, seq<ChunkItem>>, lo: int)
    ensures Outside(buf, lo, lo - 1) == buf
  {
  }


  /** A packet at or below the processed mark is parked in the buffer and never flushed. */
  lemma StalePacketParked(buf: map<int, seq<ChunkItem>>, m: int, sequence: int, items: seq<ChunkItem>)
    requires m + 1 !in buf && sequence <= m
    ensures Flush(buf[sequence := items], m) == Flushed([], buf[sequence := items], m)
  {
  }

  // ------------------------------------------------------------------ in-order delivery

  /** The elements of `s`. */
  function Elems<T>(s: seq<T>): set<T> {
    set i | 0 <= i < |s| :: s[i]
  }

  /** The reorder state of one sender: its buffered packets and its processed mark. */
  datatype Reorder = Reorder(buffered: map<int, seq<ChunkItem>>, maxProcessed: int)

  /** A packet arrives: it is buffered under its sequence, then the buffer is flushed. */
  function Arrive(r: Reorder, sequence: int, items: seq<ChunkItem>): (Reorder, seq<ChunkItem>) {
    var f := Flush(r.buffered[sequence := items], r.maxProcessed);
    (Reorder(f.rest, f.maxProcessed), f.ready)
  }

  /** The packets `packets[arrivals[0]]`, `packets[arrivals[1]]`, ... arrive in that order. */
  function RunArrivals(r: Reorder, arrivals: seq<nat>, packets: seq<seq<ChunkItem>>): (Reorder, seq<ChunkItem>)
    requires forall i :: 0 <= i < |arrivals| ==> arrivals[i] < |packets|
  {
    if arrivals == [] then (r, [])
    else
      var last := arrivals[|arrivals| - 1];
      var before := RunArrivals(r, arrivals[..|arrivals| - 1], packets);
      var after := Arrive(before.0, last, packets[last]);
      (after.0, before.1 + after.1)
  }

  function Flatten(ps: seq<seq<ChunkItem>>): seq<ChunkItem> {
    if ps == [] then [] else ps[0] + Flatten(ps[1..])
  }

  lemma {:induction false} FlattenAppend(a: seq<seq<ChunkItem>>, b: seq<seq<ChunkItem>>)
    ensures Flatten(a + b) == Flatten(a) + Flatten(b)
    decreases |a|
  {
    if a == [] {
      assert a + b == b;
    } else {
      assert (a + b)[1..] == a[1..] + b;
      FlattenAppend(a[1..], b);
    }
  }

  lemma {:induction false} ConcatRangeIsFlatten(buf: map<int, seq<ChunkItem>>, packets: seq<seq<ChunkItem>>, lo: nat, hi: int)
    requires hi < |packets| && lo <= hi + 1
    requires forall k :: lo <= k <= hi ==> k in buf && buf[k] == packets[k]
    ensures ConcatRange(buf, lo, hi) == Flatten(packets[lo..hi + 1])
    decreases hi - lo
  {
    if lo <= hi {
      ConcatRangeIsFlatten(buf, packets, lo + 1, hi);
      assert packets[lo..hi + 1][1..] == packets[lo + 1..hi + 1];
    } else {
      assert packets[lo..hi + 1] == [];
    }
  }

  /**
   * What the reorder state is after the packets of the sequences in `seen` arrived: the mark
   * is the end of the run 0, 1, 2, ... of arrived sequences, the ready output is those
   * packets in order, and the buffer holds exactly the arrived packets beyond the mark.
   */
  ghost predicate DeliveredUpTo(seen: set<nat>, r: Reorder, out: seq<ChunkItem>, packets: seq<seq<ChunkItem>>) {
    -1 <= r.maxProcessed < |packets|
    && (forall k :: k in seen ==> k < |packets|)
    && (forall k: nat :: k <= r.maxProcessed ==> k in seen)
    && r.maxProcessed + 1 !in seen
    && out == Flatten(packets[..r.maxProcessed + 1])
    && r.buffered == Beyond(seen, packets, r.maxProcessed)
  }

  /** The arrived packets beyond mark `m`. */
  function Beyond(seen: set<nat>, packets: seq<seq<ChunkItem>>, m: int): map<int, seq<ChunkItem>>
    requires forall k :: k in seen ==> k < |packets|
  {
    map k: nat | k in seen && k > m :: packets[k]
  }

  lemma BeyondAdd(seen: set<nat>, packets: seq<seq<ChunkItem>>, m: int, x: nat)
    requires forall k :: k in seen ==> k < |packets|
    requires x < |packets| && x > m
    ensures Beyond(seen, packets, m)[x := packets[x]] == Beyond(seen + {x}, packets, m)
  {
  }

  lemma BeyondOutside(seen: set<nat>, packets: seq<seq<ChunkItem>>, m: int, m': int)
    requires forall k :: k in seen ==> k < |packets|
    requires m <= m'
    ensures Outside(Beyond(seen, packets, m), m + 1, m') == Beyond(seen, packets, m')
  {
  }

  /** Flushing the arrived packets beyond mark `m` delivers the next run of them. */
  lemma FlushArrived(seen: set<nat>, packets: seq<seq<ChunkItem>>, m: int, f: Flushed)
    requires forall k :: k in seen ==> k < |packets|
    requires -1 <= m < |packets|
    requires f == Flush(Beyond(seen, packets, m), m)
    ensures m <= f.maxProcessed < |packets|
    ensures forall k :: m < k <= f.maxProcessed ==> k in seen
    ensures f.maxProcessed + 1 !in seen
    ensures f.ready == Flatten(packets[m + 1..f.maxProcessed + 1])
    ensures f.rest == Beyond(seen, packets, f.maxProcessed)
  {
    var buf := Beyond(seen, packets, m);
    FlushMeans(buf, m);
    var mark := f.maxProcessed;
    assert mark < |packets| by {
      if mark > m {
        assert mark in buf;
      }
    }
    assert mark + 1 !in seen;
    forall k | m < k <= mark
      ensures k in seen && k in buf && buf[k] == packets[k]
    {
      assert k in buf;
    }
    ConcatRangeIsFlatten(buf, packets, m + 1, mark);
    assert f.ready == Flatten(packets[m + 1..mark + 1]);
    BeyondOutside(seen, packets, m, mark);
    assert f.rest == Beyond(seen, packets, mark);
  }

  lemma ArriveStep(seen: set<nat>, r: Reorder, out: seq<ChunkItem>, packets: seq<seq<ChunkItem>>, x: nat)
    requires DeliveredUpTo(seen, r, out, packets)
    requires x < |packets| && x !in seen
    ensures DeliveredUpTo(seen + {x}, Arrive(r, x, packets[x]).0, out + Arrive(r, x, packets[x]).1, packets)
  {
    var m := r.maxProcessed;
    var seen' := seen + {x};
    assert x > m;
    BeyondAdd(seen, packets, m, x);
    assert r.buffered[x := packets[x]] == Beyond(seen', packets, m);
    var f := Flush(Beyond(seen', packets, m), m);
    FlushArrived(seen', packets, m, f);
    var mark := f.maxProcessed;
    assert Arrive(r, x, packets[x]) == (Reorder(f.rest, mark), f.ready);
    var delivered, next := packets[..m + 1], packets[m + 1..mark + 1];
    assert out == Flatten(delivered) && f.ready == Flatten(next);
    FlattenAppend(delivered, next);
    assert packets[..mark + 1] == delivered + next;
    assert forall k: nat :: k <= mark ==> k in seen';
    assert DeliveredUpTo(seen', Reorder(f.rest, mark), out + f.ready, packets);
  }

  lemma {:induction false} RunArrivalsDelivers(arrivals: seq<nat>, packets: seq<seq<ChunkItem>>)
    requires forall i :: 0 <= i < |arrivals| ==> arrivals[i] < |packets|
    requires Distinct(arrivals)
    ensures DeliveredUpTo(Elems(arrivals),
                          RunArrivals(Reorder(map[], -1), arrivals, packets).0,
                          RunArrivals(Reorder(map[], -1), arrivals, packets).1, packets)
    decreases |arrivals|
  {
    if arrivals == [] {
      assert packets[..0] == [];
    } else {
      var n := |arrivals| - 1;
      var front := arrivals[..n];
      RunArrivalsDelivers(front, packets);
      var seen := Elems(front);
      assert arrivals[n] !in seen;
      ArriveStep(seen, RunArrivals(Reorder(map[], -1), front, packets).0,
                 RunArrivals(Reorder(map[], -1), front, packets).1, packets, arrivals[n]);
      assert Elems(arrivals) == seen + {arrivals[n]};
    }
  }

  /**
   * Keep-order delivery: whatever order the packets 0..n-1 of one sender arrive in, the
   * ready queue receives their chunks exactly in sequence order, and afterwards nothing is
   * left buffered and the mark is the last sequence.
   */
  lemma InOrderDelivery(arrivals: seq<nat>, packets: seq<seq<ChunkItem>>)
    requires |arrivals| == |packets| && Distinct(arrivals)
    requires forall i :: 0 <= i < |arrivals| ==> arrivals[i] < |packets|
    ensures RunArrivals(Reorder(map[], -1), arrivals, packets)
            == (Reorder(map[], |packets| - 1), Flatten(packets))
  {
    RunArrivalsDelivers(arrivals, packets);
    var seen := Elems(arrivals);
    var r := RunArrivals(Reorder(map[], -1), arrivals, packets);
    assert DeliveredUpTo(seen, r.0, r.1, packets);
    AllArrived(arrivals, |packets|);
    var m := r.0.maxProcessed;
    assert m == |packets| - 1;
    assert packets[..|packets|] == packets;
    assert r.1 == Flatten(packets);
    assert Beyond(seen, packets, m) == map[];
  }

  /** `n` distinct arrivals below `n` are all of 0..n-1. */
  lemma AllArrived(arrivals: seq<nat>, n: nat)
    requires |arrivals| == n && Distinct(arrivals)
    requires forall i :: 0 <= i < |arrivals| ==> arrivals[i] < n
    ensures forall k: nat :: k < n ==> k in Elems(arrivals)
  {
    var seen := Elems(arrivals);
    SeenSize(arrivals);
    var all := Below(n);
    SubsetSameSize(seen, all);
  }

  /** The naturals below `n`. */
  function Below(n: nat): (r: set<nat>)
    ensures |r| == n && forall k: nat :: k in r <==> k < n
  {
    if n == 0 then {} else Below(n - 1) + {n - 1}
  }

  lemma SubsetSameSize<T>(a: set<T>, b: set<T>)
    requires a <= b && |a| == |b|
    ensures a == b
  {
    assert a + b == b;
    assert a * b == a;
    assert |b - a| == 0;
  }

  lemma {:induction false} SeenSize(arrivals: seq<nat>)
    requires Distinct(arrivals)
    ensures |Elems(arrivals)| == |arrivals|
    decreases |arrivals|
  {
    if arrivals != [] {
      var n := |arrivals| - 1;
      SeenSize(arrivals[..n]);
      var front := Elems(arrivals[..n]);
      assert Elems(arrivals) == front + {arrivals[n]};
      assert arrivals[n] !in front;
    }
  }

  // ------------------------------------------------------------------ duplicate filter

  /**
   * The non-keep-order duplicate filter: a packet whose sequence is not above the last one
   * seen from its sender is dropped; otherwise the sender's last-seen sequence becomes it.
   */
  function Dedup(seen: map<int, int>, be: int, sequence: int): (r: Option<map<int, int>>)
    ensures r.None? <==> be in seen && sequence <= seen[be]
    ensures r.Some? ==> r.value.Keys == seen.Keys + {be} && r.value[be] == sequence
                        && forall b :: b in seen && b != be ==> r.value[b] == seen[b]
  {
    if be in seen && seen[be] >= sequence then None else Some(seen[be := sequence])
  }

  /** The packets (sender, sequence) of `pkts` that pass the filter, in arrival order. */
  function Accepted(seen: map<int, int>, pkts: seq<(int, int)>): (map<int, int>, seq<(int, int)>) {
    if pkts == [] then (seen, [])
    else
      var before := Accepted(seen, pkts[..|pkts| - 1]);
      var p := pkts[|pkts| - 1];
      match Dedup(before.0, p.0, p.1)
      case None => before
      case Some(seen') => (seen', before.1 + [p])
  }

  /** Every accepted packet is at or below its sender's mark, which only grows. */
  ghost predicate AcceptedBelowMark(seen0: map<int, int>, seen: map<int, int>, acc: seq<(int, int)>) {
    seen0.Keys <= seen.Keys
    && (forall b :: b in seen0 ==> seen0[b] <= seen[b])
    && (forall i :: 0 <= i < |acc| ==> acc[i].0 in seen && acc[i].1 <= seen[acc[i].0])
    && (forall i, j :: 0 <= i < j < |acc| && acc[i].0 == acc[j].0 ==> acc[i].1 < acc[j].1)
    && (forall i :: 0 <= i < |acc| && acc[i].0 in seen0 ==> seen0[acc[i].0] < acc[i].1)
  }

  lemma {:induction false} AcceptedInvariant(seen0: map<int, int>, pkts: seq<(int, int)>)
    ensures AcceptedBelowMark(seen0, Accepted(seen0, pkts).0, Accepted(seen0, pkts).1)
    decreases |pkts|
  {
    if pkts != [] {
      AcceptedInvariant(seen0, pkts[..|pkts| - 1]);
    }
  }

  /**
   * Without keep-order each sender's accepted packets have strictly increasing sequence
   * numbers, all above the sender's mark when the run began.
   */
  lemma AcceptedIncreasing(seen0: map<int, int>, pkts: seq<(int, int)>, i: nat, j: nat)
    requires i < j < |Accepted(seen0, pkts).1|
    requires Accepted(seen0, pkts).1[i].0 == Accepted(seen0, pkts).1[j].0
    ensures Accepted(seen0, pkts).1[i].1 < Accepted(seen0, pkts).1[j].1
  {
    AcceptedInvariant(seen0, pkts);
  }

  /** A repeated packet is dropped: the same (sender, sequence) twice in a row passes once. */
  lemma RepeatDropped(seen0: map<int, int>, pkts: seq<(int, int)>, p: (int, int))
    ensures Accepted(seen0, pkts + [p, p]).1 == Accepted(seen0, pkts + [p]).1
  {
    var once := pkts + [p];
    var twice := pkts + [p, p];
    assert twice[..|twice| - 1] == once;
    AcceptedInvariant(seen0, once);
    var a := Accepted(seen0, once);
    assert once[..|once| - 1] == pkts;
    assert p.0 in a.0 && p.1 <= a.0[p.0] by {
      var b := Accepted(seen0, pkts);
      if Dedup(b.0, p.0, p.1).Some? {
        assert a.0[p.0] == p.1;
      } else {
        AcceptedInvariant(seen0, pkts);
        assert a.0 == b.0;
      }
    }
  }

  // ------------------------------------------------------------------ end of stream

  /** A sender's end of stream: counted once, the first time it is seen. */
  function Decrement(eos: set<int>, remaining: int, be: int): (r: (set<int>, int))
    ensures r.0 == eos + {be}
    ensures r.1 == if be in eos then remaining else remaining - 1
  {
    if be in eos then (eos, remaining) else (eos + {be}, remaining - 1)
  }

  /** End-of-stream signals from the senders `ids`, in order. */
  function Decrements(eos: set<int>, remaining: int, ids: seq<int>): (set<int>, int) {
    if ids == [] then (eos, remaining)
    else
      var before := Decrements(eos, remaining, ids[..|ids| - 1]);
      Decrement(before.0, before.1, ids[|ids| - 1])
  }

  /**
   * The remaining-sender count falls by exactly the number of distinct senders that had not
   * yet signalled, however often each signals.
   */
  lemma {:induction false} DecrementsCountDistinct(eos: set<int>, remaining: int, ids: seq<int>)
    ensures Decrements(eos, remaining, ids).0 == eos + Elems(ids)
    ensures Decrements(eos, remaining, ids).1 == remaining - |Elems(ids) - eos|
    decreases |ids|
  {
    if ids != [] {
      var n := |ids| - 1;
      var x := ids[n];
      DecrementsCountDistinct(eos, remaining, ids[..n]);
      var front := Elems(ids[..n]);
      var before := Decrements(eos, remaining, ids[..n]);
      assert Decrements(eos, remaining, ids) == Decrement(before.0, before.1, x);
      ElemsSnoc(ids[..n], x);
      assert ids[..n] + [x] == ids;
      assert Elems(ids) == front + {x};
      NewSenderCounted(eos, front, x);
      assert before.0 + {x} == eos + (front + {x});
    }
  }

  lemma ElemsSnoc<T>(s: seq<T>, x: T)
    ensures Elems(s + [x]) == Elems(s) + {x}
  {
    assert forall i :: 0 <= i < |s| ==> (s + [x])[i] == s[i];
    assert (s + [x])[|s|] == x;
  }

  lemma NewSenderCounted(eos: set<int>, front: set<int>, x: int)
    ensures x !in eos + front ==> |(front + {x}) - eos| == |front - eos| + 1
    ensures x in eos + front ==> (front + {x}) - eos == front - eos
  {
    if x !in eos + front {
      assert (front + {x}) - eos == (front - eos) + {x};
    }
  }

}
