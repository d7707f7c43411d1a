/**
 * The backend's tablet registry. Tablets are spread over a power-of-two
 * number of shards. The registry also keeps a partition index and a queue of
 * shut-down tablets with a side map for displaced entries. A round-robin
 * cursor walks the shards in batches. Two pure parts complete it: parsing a
 * tablet's data path, and assigning column unique ids when a tablet is
 * created.
 */
module Tablets {
  import opened Wrappers
  import opened BeStatus
  import Strings

  // ------------------------------------------------------------------ shards

  /** Bitwise AND of two naturals, bit by bit from the lowest bit. */
  function BitAnd(x: nat, y: nat): nat
    decreases x
  {
    if x == 0 || y == 0 then 0
    else (if x % 2 == 1 && y % 2 == 1 then 1 else 0) + 2 * BitAnd(x / 2, y / 2)
  }

  function Pow2(k: nat): (r: nat)
    ensures r >= 1
  {
    if k == 0 then 1 else 2 * Pow2(k - 1)
  }

  /** The constructor's two checks: the count is positive and `count & (count - 1) == 0`. */
  predicate ValidShardCount(n: int) {
    n > 0 && BitAnd(n, n - 1) == 0
  }

  lemma {:induction false} BitAndSelf(m: nat)
    ensures BitAnd(m, m) == m
    decreases m
  {
    if m > 0 {
      BitAndSelf(m / 2);
    }
  }

  lemma MulAtLeast(d: int, a: int)
    requires d > 0 && a >= 1
    ensures d * a >= d
  {
  }

  /** Quotient and remainder are unique. */
  lemma DivModUnique(x: int, d: int, q: int, r: int)
    requires d > 0 && 0 <= r < d && x == d * q + r
    ensures x % d == r && x / d == q
  {
    var q', r' := x / d, x % d;
    assert d * q' + r' == d * q + r;
    assert d * (q' - q) == r - r';
    assert d * (q - q') == r' - r;
    if q' > q {
      MulAtLeast(d, q' - q);
    }
    if q' < q {
      MulAtLeast(d, q - q');
    }
  }

  lemma RemainderStep(x: nat, p: nat, q: nat)
    requires p >= 1 && q == 2 * p
    ensures x % q == x % 2 + 2 * ((x / 2) % p)
  {
    var d := (x / 2) / p;
    var c := (x / 2) % p;
    assert x / 2 == p * d + c;
    assert 2 * (p * d) == (2 * p) * d;
    assert x == (2 * p) * d + (2 * c + x % 2);
    DivModUnique(x, 2 * p, d, 2 * c + x % 2);
  }

  /** AND with an odd mask `2n + 1` keeps the low bit and masks the rest with `n`. */
  lemma BitAndOdd(x: nat, n: nat)
    requires x > 0
    ensures BitAnd(x, 2 * n + 1) == x % 2 + 2 * BitAnd(x / 2, n)
  {
    DivModUnique(2 * n + 1, 2, n, 1);
  }

  /** Masking with `2^k - 1` keeps the remainder modulo `2^k`. */
  lemma {:induction false} MaskIsRemainder(x: nat, k: nat)
    ensures BitAnd(x, Pow2(k) - 1) == x % Pow2(k)
    decreases k
  {
    if k == 0 {
      assert Pow2(k) == 1;
      DivModUnique(x, 1, x, 0);
    } else if x == 0 {
      DivModUnique(0, Pow2(k), 0, 0);
    } else {
      var p := Pow2(k - 1);
      assert Pow2(k) == 2 * p;
      MaskIsRemainder(x / 2, k - 1);
      assert BitAnd(x / 2, p - 1) == (x / 2) % p;
      BitAndOddMask(x, p, Pow2(k));
      RemainderStep(x, p, Pow2(k));
    }
  }

  /** AND with the odd mask `2p - 1` keeps the low bit and masks the rest with `p - 1`. */
  lemma BitAndOddMask(x: nat, p: nat, q: nat)
    requires x > 0 && p >= 1 && q == 2 * p
    ensures BitAnd(x, q - 1) == x % 2 + 2 * BitAnd(x / 2, p - 1)
  {
    var m := p - 1;
    BitAndOdd(x, m);
    assert 2 * m + 1 == q - 1;
  }

  lemma PowerOfTwoPasses(k: nat)
    ensures ValidShardCount(Pow2(k))
  {
    var p := Pow2(k);
    MaskIsRemainder(p, k);
    DivModUnique(p, p, 1, 0);
  }

  lemma {:induction false} PassesIsPowerOfTwo(n: nat)
    requires ValidShardCount(n)
    ensures exists k: nat :: n == Pow2(k)
    decreases n
  {
    if n == 1 {
      assert n == Pow2(0);
    } else if n % 2 == 1 {
      assert (n - 1) / 2 == n / 2 && (n - 1) % 2 == 0;
      assert BitAnd(n, n - 1) == 2 * BitAnd(n / 2, n / 2);
      BitAndSelf(n / 2);
      assert false;
    } else {
      assert (n - 1) / 2 == n / 2 - 1 && (n - 1) % 2 == 1;
      assert BitAnd(n, n - 1) == 2 * BitAnd(n / 2, n / 2 - 1);
      PassesIsPowerOfTwo(n / 2);
      var k: nat :| n / 2 == Pow2(k);
      assert n == Pow2(k + 1);
    }
  }

  /** The constructor's check accepts exactly the powers of two. */
  lemma ShardCountIsPowerOfTwo(n: nat)
    ensures ValidShardCount(n) <==> exists k: nat :: n == Pow2(k)
  {
    if ValidShardCount(n) {
      PassesIsPowerOfTwo(n);
    }
    if exists k: nat :: n == Pow2(k) {
      var k: nat :| n == Pow2(k);
      PowerOfTwoPasses(k);
    }
  }

  /** The shard of a tablet: `tablet_id & (count - 1)`. */
  function ShardIndex(id: nat, count: nat): (r: nat)
    requires ValidShardCount(count)
    ensures r < count
  {
    assert BitAnd(id, count - 1) < count by {
      ShardIndexIsRemainder(id, count);
    }
    BitAnd(id, count - 1)
  }

  /** For a valid shard count the mask selects the remainder modulo the count. */
  lemma ShardIndexIsRemainder(id: nat, count: nat)
    requires ValidShardCount(count)
    ensures BitAnd(id, count - 1) == id % count
  {
    PassesIsPowerOfTwo(count);
    var k: nat :| count == Pow2(k);
    MaskIsRemainder(id, k);
  }

  // ----------------------------------------------------------------- tablets

  datatype TabletState = NotReady | Running | Tombstoned | Stopped | Shutdown

  /** What a primary-key tablet's update state reports. */
  datatype PrimaryKeyState = PrimaryKeyState(maxVersion: int, maxRowsetCreationTime: int, filesExist: bool)

  /** The newest rowset of a tablet that is not primary-key. */
  datatype RowsetSummary = RowsetSummary(endVersion: int, creationTime: int)

  datatype Tablet = Tablet(
    id: nat,
    uid: int,
    partitionId: int,
    schemaHash: int,
    schemaHashPath: string,
    dataDir: int,
    state: TabletState,
    used: bool,
    updates: Option<PrimaryKeyState>,
    newestRowset: Option<RowsetSummary>)

  /** A partition index entry. */
  datatype TabletInfo = TabletInfo(tabletId: nat, schemaHash: int, uid: int)

  function InfoOf(t: Tablet): TabletInfo {
    TabletInfo(t.id, t.schemaHash, t.uid)
  }

  datatype DropFlag = KeepMetaAndFiles | MoveFilesToTrash | OtherFlag(value: int)

  datatype DroppedTabletInfo = DroppedTabletInfo(tablet: Tablet, flag: DropFlag)

  // ------------------------------------------------- duplicate-tablet choice

  /** What the duplicate check compares: file existence, then version, then creation time. */
  datatype Standing = Standing(filesExist: bool, version: int, time: int)

  /**
   * A tablet's standing as seen when the new tablet is primary-key (`pk`) or
   * not. Outside primary-key tables files count as present, and a tablet
   * without rowsets has version and time -1.
   */
  function StandingOf(t: Tablet, pk: bool): Standing
    requires pk ==> t.updates.Some?
  {
    if pk then Standing(t.updates.value.filesExist, t.updates.value.maxVersion, t.updates.value.maxRowsetCreationTime)
    else match t.newestRowset
      case None => Standing(true, -1, -1)
      case Some(r) => Standing(true, r.endVersion, r.creationTime)
  }

  /** Lexicographic order on standings, with existing files ranked above missing ones. */
  predicate Outranks(a: Standing, b: Standing) {
    (a.filesExist && !b.filesExist)
    || (a.filesExist == b.filesExist
        && (a.version > b.version || (a.version == b.version && a.time > b.time)))
  }

  /**
   * Whether a new copy of a tablet replaces the registered one. Without the
   * primary-key migration exception this is exactly "the new copy outranks
   * the old one".
   */
  function ReplacesOld(oldT: Tablet, newT: Tablet): (r: bool)
    requires newT.updates.Some? ==> oldT.updates.Some?
    ensures var pk := newT.updates.Some?;
      var o := StandingOf(oldT, pk);
      var n := StandingOf(newT, pk);
      r <==> Outranks(n, o)
             || (pk && o.filesExist == n.filesExist && o.version == 1 && n.version == 1)
  {
    var pk := newT.updates.Some?;
    var o := StandingOf(oldT, pk);
    var n := StandingOf(newT, pk);
    if o.filesExist && !n.filesExist then false
    else if !o.filesExist && n.filesExist then true
    else n.version > o.version || (n.version == o.version && n.time > o.time)
         || (pk && o.version == 1 && n.version == 1)
  }

  /**
   * Outside the primary-key migration case the rule is asymmetric: of two
   * copies, at most one would replace the other, and when their standings
   * differ exactly one does.
   */
  lemma ReplacementIsAsymmetric(a: Tablet, b: Tablet)
    requires a.updates.None? && b.updates.None?
    ensures !(ReplacesOld(a, b) && ReplacesOld(b, a))
    ensures StandingOf(a, false) != StandingOf(b, false) ==> ReplacesOld(a, b) || ReplacesOld(b, a)
  {
  }

  /** Two empty primary-key copies with files present each replace the other. */
  lemma PrimaryKeyMigrationIsSymmetric(a: Tablet, b: Tablet)
    requires a.updates.Some? && b.updates.Some?
    requires a.updates.value.maxVersion == 1 && b.updates.value.maxVersion == 1
    requires a.updates.value.filesExist == b.updates.value.filesExist
    ensures ReplacesOld(a, b) && ReplacesOld(b, a)
  {
  }

  // --------------------------------------------------------- partition index

  function AddToPartition(parts: map<int, set<TabletInfo>>, t: Tablet): (r: map<int, set<TabletInfo>>)
    ensures r.Keys == parts.Keys + {t.partitionId}
    ensures r[t.partitionId] == (if t.partitionId in parts then parts[t.partitionId] else {}) + {InfoOf(t)}
    ensures forall q :: q in parts && q != t.partitionId ==> r[q] == parts[q]
  {
    parts[t.partitionId := (if t.partitionId in parts then parts[t.partitionId] else {}) + {InfoOf(t)}]
  }

  /** Removes a tablet's entry; a partition left without tablets disappears from the index. */
  function RemoveFromPartition(parts: map<int, set<TabletInfo>>, t: Tablet): (r: map<int, set<TabletInfo>>)
    ensures forall q :: q != t.partitionId ==> (q in r <==> q in parts)
    ensures forall q :: q in r && q != t.partitionId ==> r[q] == parts[q]
    ensures t.partitionId in r <==> t.partitionId in parts && parts[t.partitionId] - {InfoOf(t)} != {}
    ensures t.partitionId in r ==> r[t.partitionId] == parts[t.partitionId] - {InfoOf(t)}
  {
    var rest := (if t.partitionId in parts then parts[t.partitionId] else {}) - {InfoOf(t)};
    if rest == {} then parts - {t.partitionId} else parts[t.partitionId := rest]
  }

  ghost predicate NoEmptyPartitions(parts: map<int, set<TabletInfo>>) {
    forall p :: p in parts ==> parts[p] != {}
  }

  /** Removing a tablet that was just added gives back the index it was added to. */
  lemma AddThenRemovePartition(parts: map<int, set<TabletInfo>>, t: Tablet)
    requires NoEmptyPartitions(parts)
    requires t.partitionId in parts ==> InfoOf(t) !in parts[t.partitionId]
    ensures RemoveFromPartition(AddToPartition(parts, t), t) == parts
    ensures NoEmptyPartitions(AddToPartition(parts, t))
  {
    var r := RemoveFromPartition(AddToPartition(parts, t), t);
    if t.partitionId in parts {
      assert parts[t.partitionId] + {InfoOf(t)} - {InfoOf(t)} == parts[t.partitionId];
    }
    assert r.Keys == parts.Keys;
  }

  // ---------------------------------------------------- registry invariants

  /** The registered tablet with this id, looked up in its shard. */
  function Find(shards: seq<map<nat, Tablet>>, count: nat, id: nat): Option<Tablet>
    requires ValidShardCount(count) && |shards| == count
  {
    var s := ShardIndex(id, count);
    if id in shards[s] then Some(shards[s][id]) else None
  }

  /** The shards with `t` stored in shard `s` under its id. */
  function Inserted(shards: seq<map<nat, Tablet>>, s: nat, t: Tablet): (r: seq<map<nat, Tablet>>)
    requires s < |shards|
    ensures |r| == |shards| && r[s] == shards[s][t.id := t]
    ensures forall s' :: 0 <= s' < |shards| && s' != s ==> r[s'] == shards[s']
  {
    var m: map<nat, Tablet> := shards[s][t.id := t];
    shards[s := m]
  }

  /** Every tablet sits in its own shard under its own id. */
  ghost predicate Placed(shards: seq<map<nat, Tablet>>, count: nat)
    requires ValidShardCount(count)
  {
    |shards| == count
    && forall s: int, id: nat :: 0 <= s < |shards| && id in shards[s] ==> ShardIndex(id, count) == s && shards[s][id].id == id
  }

  lemma PlacedAt(shards: seq<map<nat, Tablet>>, count: nat, s: nat, id: nat)
    requires ValidShardCount(count) && Placed(shards, count) && s < |shards| && id in shards[s]
    ensures ShardIndex(id, count) == s && shards[s][id].id == id
  {
  }

  ghost predicate Backed(shards: seq<map<nat, Tablet>>, count: nat, p: int, info: TabletInfo)
    requires ValidShardCount(count) && |shards| == count
  {
    var t := Find(shards, count, info.tabletId);
    t.Some? && t.value.partitionId == p && InfoOf(t.value) == info
  }

  ghost predicate Listed(parts: map<int, set<TabletInfo>>, t: Tablet) {
    t.partitionId in parts && InfoOf(t) in parts[t.partitionId]
  }

  ghost predicate AllBacked(shards: seq<map<nat, Tablet>>, count: nat, parts: map<int, set<TabletInfo>>)
    requires ValidShardCount(count) && |shards| == count
  {
    forall p, info :: p in parts && info in parts[p] ==> Backed(shards, count, p, info)
  }

  ghost predicate AllListed(shards: seq<map<nat, Tablet>>, parts: map<int, set<TabletInfo>>) {
    forall s: int, id: nat :: 0 <= s < |shards| && id in shards[s] ==> Listed(parts, shards[s][id])
  }

  /**
   * Shard `s` keeps each of its tablets under the tablet's own id, every id
   * belongs in that shard, and every tablet is listed under its partition.
   */
  ghost predicate ShardIndexed(shards: seq<map<nat, Tablet>>, count: nat, parts: map<int, set<TabletInfo>>, s: nat)
    requires ValidShardCount(count) && s < |shards|
  {
    forall id :: id in shards[s] ==>
      ShardIndex(id, count) == s && shards[s][id].id == id && Listed(parts, shards[s][id])
  }

  /**
   * The first `n` shards satisfy `ShardIndexed`, no partition is empty and
   * every partition entry is backed by a registered tablet. Stating it shard
   * by shard keeps the quantifiers of the whole invariant out of reach until
   * `IndexedMeans` spells them out.
   */
  ghost predicate IndexedUpTo(shards: seq<map<nat, Tablet>>, count: nat, parts: map<int, set<TabletInfo>>, n: nat)
    requires ValidShardCount(count) && |shards| == count && n <= |shards|
    decreases n
  {
    if n == 0 then NoEmptyPartitions(parts) && AllBacked(shards, count, parts)
    else ShardIndexed(shards, count, parts, n - 1) && IndexedUpTo(shards, count, parts, n - 1)
  }

  /** The partition index lists exactly the registered tablets, and no partition is empty. */
  ghost predicate Indexed(shards: seq<map<nat, Tablet>>, count: nat, parts: map<int, set<TabletInfo>>)
    requires ValidShardCount(count)
  {
    |shards| == count && IndexedUpTo(shards, count, parts, count)
  }

  /** What `Indexed` says about one registered tablet. */
  lemma IndexedEntry(shards: seq<map<nat, Tablet>>, count: nat, parts: map<int, set<TabletInfo>>, s: nat, id: nat)
    requires ValidShardCount(count) && Indexed(shards, count, parts) && s < |shards| && id in shards[s]
    ensures ShardIndex(id, count) == s && shards[s][id].id == id && Listed(parts, shards[s][id])
  {
    IndexedMeans(shards, count, parts);
  }

  lemma {:induction false} IndexedUpToMeans(shards: seq<map<nat, Tablet>>, count: nat, parts: map<int, set<TabletInfo>>, n: nat)
    requires ValidShardCount(count) && |shards| == count && n <= |shards|
    ensures IndexedUpTo(shards, count, parts, n) <==>
      (forall s: nat :: s < n ==> ShardIndexed(shards, count, parts, s))
      && NoEmptyPartitions(parts) && AllBacked(shards, count, parts)
    decreases n
  {
    if n > 0 {
      IndexedUpToMeans(shards, count, parts, n - 1);
    }
  }

  lemma IndexedMeans(shards: seq<map<nat, Tablet>>, count: nat, parts: map<int, set<TabletInfo>>)
    requires ValidShardCount(count)
    ensures Indexed(shards, count, parts) <==>
      Placed(shards, count) && NoEmptyPartitions(parts) && AllBacked(shards, count, parts) && AllListed(shards, parts)
  {
    if |shards| == count {
      IndexedUpToMeans(shards, count, parts, count);
      if Placed(shards, count) && AllListed(shards, parts) {
        EveryShardIndexed(shards, count, parts);
      }
      if forall s: nat :: s < count ==> ShardIndexed(shards, count, parts, s) {
        IndexedShardsPlaced(shards, count, parts);
        IndexedShardsListed(shards, count, parts);
      }
    }
  }

  lemma EveryShardIndexed(shards: seq<map<nat, Tablet>>, count: nat, parts: map<int, set<TabletInfo>>)
    requires ValidShardCount(count) && |shards| == count
    requires Placed(shards, count) && AllListed(shards, parts)
    ensures forall s: nat :: s < count ==> ShardIndexed(shards, count, parts, s)
  {
    forall s: nat | s < count
      ensures ShardIndexed(shards, count, parts, s)
    {
    }
  }

  lemma IndexedShardsPlaced(shards: seq<map<nat, Tablet>>, count: nat, parts: map<int, set<TabletInfo>>)
    requires ValidShardCount(count) && |shards| == count
    requires forall s: nat :: s < count ==> ShardIndexed(shards, count, parts, s)
    ensures Placed(shards, count)
  {
    forall s: int, id: nat | 0 <= s < |shards| && id in shards[s]
      ensures ShardIndex(id, count) == s && shards[s][id].id == id
    {
      assert ShardIndexed(shards, count, parts, s);
    }
  }

  lemma IndexedShardsListed(shards: seq<map<nat, Tablet>>, count: nat, parts: map<int, set<TabletInfo>>)
    requires ValidShardCount(count) && |shards| == count
    requires forall s: nat :: s < count ==> ShardIndexed(shards, count, parts, s)
    ensures AllListed(shards, parts)
  {
    forall s: int, id: nat | 0 <= s < |shards| && id in shards[s]
      ensures Listed(parts, shards[s][id])
    {
      assert ShardIndexed(shards, count, parts, s);
    }
  }


  /** The shards with `id` taken out of its shard. */
  function Erased(shards: seq<map<nat, Tablet>>, count: nat, id: nat): (r: seq<map<nat, Tablet>>)
    requires ValidShardCount(count) && |shards| == count
    ensures |r| == |shards|
  {
    var s := ShardIndex(id, count);
    shards[s := shards[s] - {id}]
  }

  lemma FindInserted(shards: seq<map<nat, Tablet>>, count: nat, t: Tablet, x: nat)
    requires ValidShardCount(count) && |shards| == count
    ensures Find(Inserted(shards, ShardIndex(t.id, count), t), count, x)
            == if x == t.id then Some(t) else Find(shards, count, x)
  {
  }

  lemma FindErased(shards: seq<map<nat, Tablet>>, count: nat, id: nat, x: nat)
    requires ValidShardCount(count) && |shards| == count
    ensures Find(Erased(shards, count, id), count, x) == if x == id then None else Find(shards, count, x)
  {
  }

  lemma InsertPlaced(shards: seq<map<nat, Tablet>>, count: nat, t: Tablet)
    requires ValidShardCount(count) && Placed(shards, count)
    ensures Placed(Inserted(shards, ShardIndex(t.id, count), t), count)
  {
    var s := ShardIndex(t.id, count);
    var shards': seq<map<nat, Tablet>> := Inserted(shards, s, t);
    forall s2: nat, id: nat | s2 < |shards'| && id in shards'[s2]
      ensures ShardIndex(id, count) == s2 && shards'[s2][id].id == id
    {
      if s2 != s || id != t.id {
        assert id in shards[s2] && shards'[s2][id] == shards[s2][id];
      }
    }
  }

  lemma InsertBacked(shards: seq<map<nat, Tablet>>, count: nat, parts: map<int, set<TabletInfo>>, t: Tablet)
    requires ValidShardCount(count) && |shards| == count && AllBacked(shards, count, parts)
    requires Find(shards, count, t.id).None?
    ensures AllBacked(Inserted(shards, ShardIndex(t.id, count), t), count, AddToPartition(parts, t))
  {
    var shards': seq<map<nat, Tablet>> := Inserted(shards, ShardIndex(t.id, count), t);
    var parts' := AddToPartition(parts, t);
    forall p, info | p in parts' && info in parts'[p]
      ensures Backed(shards', count, p, info)
    {
      FindInserted(shards, count, t, info.tabletId);
      if info != InfoOf(t) || p != t.partitionId {
        assert p in parts && info in parts[p];
        assert Backed(shards, count, p, info);
      }
    }
  }

  lemma InsertListed(shards: seq<map<nat, Tablet>>, count: nat, parts: map<int, set<TabletInfo>>, t: Tablet)
    requires ValidShardCount(count) && |shards| == count && AllListed(shards, parts)
    ensures AllListed(Inserted(shards, ShardIndex(t.id, count), t), AddToPartition(parts, t))
  {
    var s := ShardIndex(t.id, count);
    var shards': seq<map<nat, Tablet>> := Inserted(shards, s, t);
    var parts' := AddToPartition(parts, t);
    forall s2: nat, id: nat | s2 < |shards'| && id in shards'[s2]
      ensures Listed(parts', shards'[s2][id])
    {
      if s2 != s || id != t.id {
        assert id in shards[s2] && shards'[s2][id] == shards[s2][id];
        assert Listed(parts, shards[s2][id]);
      }
    }
  }

  lemma InsertKeepsIndexed(shards: seq<map<nat, Tablet>>, count: nat, parts: map<int, set<TabletInfo>>, t: Tablet)
    requires ValidShardCount(count) && Indexed(shards, count, parts)
    requires Find(shards, count, t.id).None?
    ensures Indexed(Inserted(shards, ShardIndex(t.id, count), t), count, AddToPartition(parts, t))
  {
    IndexedMeans(shards, count, parts);
    IndexedMeans(Inserted(shards, ShardIndex(t.id, count), t), count, AddToPartition(parts, t));
    InsertPlaced(shards, count, t);
    InsertBacked(shards, count, parts, t);
    InsertListed(shards, count, parts, t);
  }

  lemma ErasePlaced(shards: seq<map<nat, Tablet>>, count: nat, id: nat)
    requires ValidShardCount(count) && Placed(shards, count)
    ensures Placed(Erased(shards, count, id), count)
  {
    var shards': seq<map<nat, Tablet>> := Erased(shards, count, id);
    forall s2: nat, id2: nat | s2 < |shards'| && id2 in shards'[s2]
      ensures ShardIndex(id2, count) == s2 && shards'[s2][id2].id == id2
    {
      assert id2 in shards[s2] && shards'[s2][id2] == shards[s2][id2];
    }
  }

  lemma EraseBacked(shards: seq<map<nat, Tablet>>, count: nat, parts: map<int, set<TabletInfo>>, id: nat)
    requires ValidShardCount(count) && |shards| == count && AllBacked(shards, count, parts)
    requires Find(shards, count, id).Some?
    ensures AllBacked(Erased(shards, count, id), count, RemoveFromPartition(parts, Find(shards, count, id).value))
  {
    var t := Find(shards, count, id).value;
    var shards': seq<map<nat, Tablet>> := Erased(shards, count, id);
    var parts' := RemoveFromPartition(parts, t);
    forall p, info | p in parts' && info in parts'[p]
      ensures Backed(shards', count, p, info)
    {
      assert p in parts && info in parts[p];
      assert Backed(shards, count, p, info);
      FindErased(shards, count, id, info.tabletId);
    }
  }

  lemma EraseListed(shards: seq<map<nat, Tablet>>, count: nat, parts: map<int, set<TabletInfo>>, id: nat)
    requires ValidShardCount(count) && Placed(shards, count) && AllListed(shards, parts)
    requires Find(shards, count, id).Some?
    ensures AllListed(Erased(shards, count, id), RemoveFromPartition(parts, Find(shards, count, id).value))
  {
    var s := ShardIndex(id, count);
    var t := shards[s][id];
    var shards': seq<map<nat, Tablet>> := Erased(shards, count, id);
    var parts' := RemoveFromPartition(parts, t);
    forall s2: nat, id2: nat | s2 < |shards'| && id2 in shards'[s2]
      ensures Listed(parts', shards'[s2][id2])
    {
      assert id2 in shards[s2] && shards'[s2][id2] == shards[s2][id2];
      var u := shards[s2][id2];
      assert Listed(parts, u);
      PlacedAt(shards, count, s2, id2);
      PlacedAt(shards, count, s, id);
      assert id2 != id by {
        if s2 == s {
          assert id2 in shards[s] - {id};
        }
      }
      assert InfoOf(u) != InfoOf(t);
      if u.partitionId == t.partitionId {
        assert InfoOf(u) in parts[t.partitionId] - {InfoOf(t)};
      }
      assert Listed(parts', u);
    }
  }

  lemma EraseKeepsIndexed(shards: seq<map<nat, Tablet>>, count: nat, parts: map<int, set<TabletInfo>>, id: nat)
    requires ValidShardCount(count) && Indexed(shards, count, parts)
    requires Find(shards, count, id).Some?
    ensures Indexed(Erased(shards, count, id), count, RemoveFromPartition(parts, Find(shards, count, id).value))
  {
    IndexedMeans(shards, count, parts);
    IndexedMeans(Erased(shards, count, id), count, RemoveFromPartition(parts, Find(shards, count, id).value));
    ErasePlaced(shards, count, id);
    EraseBacked(shards, count, parts, id);
    EraseListed(shards, count, parts, id);
  }

  // ------------------------------------------------------------ path parsing

  /** Length of the run of digits starting at `i`. */
  function DigitRun(s: string, i: nat): (n: nat)
    requires i <= |s|
    ensures i + n <= |s|
    decreases |s| - i
  {
    if i < |s| && Strings.IsDigit(s[i]) then 1 + DigitRun(s, i + 1) else 0
  }

  /** The run is all digits and stops at a non-digit or the end. */
  lemma {:induction false} DigitRunFacts(s: string, i: nat)
    requires i <= |s|
    ensures forall k :: i <= k < i + DigitRun(s, i) ==> Strings.IsDigit(s[k])
    ensures i + DigitRun(s, i) == |s| || !Strings.IsDigit(s[i + DigitRun(s, i)])
    decreases |s| - i
  {
    if i < |s| && Strings.IsDigit(s[i]) {
      DigitRunFacts(s, i + 1);
    }
  }

  /**
   * The two patterns: `/data/\d+/(\d+)/(\d+)($|/)` for a tablet's schema-hash
   * directory, and `/data/\d+/(\d+)($|/$)` for an empty tablet directory.
   */
  datatype PathPattern = SchemaHashPath | EmptyTabletPath

  const DataPrefix: string := "/data/"

  /** `/data/` starts at `i`. */
  /** `DataPrefix` starts at position `i`, stated character by character. */
  predicate PrefixAt(s: string, i: nat) {
    i + 6 <= |s| && s[i] == '/' && s[i + 1] == 'd' && s[i + 2] == 'a' && s[i + 3] == 't' && s[i + 4] == 'a'
    && s[i + 5] == '/'
  }

  predicate AllDigits(d: string) {
    forall k :: 0 <= k < |d| ==> Strings.IsDigit(d[k])
  }

  /** A non-empty run of digits in `s[lo..hi]`. */
  predicate DigitSpan(s: string, lo: nat, hi: nat) {
    lo < hi <= |s| && forall k :: lo <= k < hi ==> Strings.IsDigit(s[k])
  }

  /**
   * Where the captured groups lie: the tablet id in `[idStart, idEnd)`, the
   * schema hash in `[hashStart, hashEnd)`, which is empty for an empty
   * tablet directory.
   */
  datatype Groups = Groups(idStart: nat, idEnd: nat, hashStart: nat, hashEnd: nat)

  /**
   * The groups `pattern` captures when a match starts at `i`. Every `\d+`
   * is followed by a non-digit or the end, so a match from `i`, if any, is
   * unique and takes whole digit runs.
   */
  function MatchAt(s: string, i: nat, pattern: PathPattern): (r: Option<Groups>)
    requires i <= |s|
    ensures r.Some? ==> PrefixAt(s, i) && DigitSpan(s, r.value.idStart, r.value.idEnd)
    ensures r.Some? && pattern == SchemaHashPath ==> DigitSpan(s, r.value.hashStart, r.value.hashEnd)
  {
    assert forall x :: i <= x <= |s| ==> DigitSpan(s, x, x + DigitRun(s, x)) || DigitRun(s, x) == 0 by {
      forall x | i <= x <= |s|
        ensures DigitSpan(s, x, x + DigitRun(s, x)) || DigitRun(s, x) == 0
      {
        DigitRunFacts(s, x);
      }
    }
    if !PrefixAt(s, i) then None
    else
      var a := DigitRun(s, i + 6);
      var j := i + 6 + a;
      if a == 0 || j >= |s| || s[j] != '/' then None
      else
        var b := DigitRun(s, j + 1);
        var k := j + 1 + b;
        if b == 0 then None
        else match pattern
          case EmptyTabletPath =>
            if k == |s| || (k + 1 == |s| && s[k] == '/') then Some(Groups(j + 1, k, k, k)) else None
          case SchemaHashPath =>
            if k >= |s| || s[k] != '/' then None
            else
              var c := DigitRun(s, k + 1);
              var m := k + 1 + c;
              if c == 0 || !(m == |s| || s[m] == '/') then None
              else Some(Groups(j + 1, k, k + 1, m))
  }

  /** The leftmost match of `pattern` at or after `from`, as a partial match finds it. */
  function Search(s: string, from: nat, pattern: PathPattern): (r: Option<Groups>)
    requires from <= |s|
    ensures r.Some? ==> DigitSpan(s, r.value.idStart, r.value.idEnd)
    ensures r.Some? && pattern == SchemaHashPath ==> DigitSpan(s, r.value.hashStart, r.value.hashEnd)
    decreases |s| - from
  {
    var here := MatchAt(s, from, pattern);
    if here.Some? then here
    else if from == |s| then None
    else Search(s, from + 1, pattern)
  }

  /** The search fails exactly when no position at or after `from` matches. */
  lemma {:induction false} SearchFailsIff(s: string, from: nat, pattern: PathPattern)
    requires from <= |s|
    ensures Search(s, from, pattern).None? <==> forall i :: from <= i <= |s| ==> MatchAt(s, i, pattern).None?
    decreases |s| - from
  {
    if MatchAt(s, from, pattern).None? && from < |s| {
      SearchFailsIff(s, from + 1, pattern);
    }
  }

  /** A successful search returns the match at the leftmost matching position. */
  lemma {:induction false} SearchIsLeftmost(s: string, from: nat, pattern: PathPattern)
    requires from <= |s| && Search(s, from, pattern).Some?
    ensures exists i :: from <= i <= |s| && MatchAt(s, i, pattern) == Search(s, from, pattern)
                        && forall i' :: from <= i' < i ==> MatchAt(s, i', pattern).None?
    decreases |s| - from
  {
    var r := Search(s, from, pattern);
    if MatchAt(s, from, pattern).Some? {
      assert MatchAt(s, from, pattern) == r;
    } else {
      SearchIsLeftmost(s, from + 1, pattern);
      var i :| from + 1 <= i <= |s| && MatchAt(s, i, pattern) == Search(s, from + 1, pattern)
               && forall i' :: from + 1 <= i' < i ==> MatchAt(s, i', pattern).None?;
      assert r == Search(s, from + 1, pattern);
      assert from <= i <= |s| && MatchAt(s, i, pattern) == r
             && forall i' :: from <= i' < i ==> MatchAt(s, i', pattern).None?;
    }
  }


  /** The value of a run of digits. */
  function SpanValue(s: string, lo: nat, hi: nat): nat
    requires DigitSpan(s, lo, hi)
  {
    assert AllDigits(s[lo..hi]);
    Strings.DigitsValue(s[lo..hi])
  }

  const MaxInt64: nat := 0x7FFF_FFFF_FFFF_FFFF
  const MaxInt32: nat := 0x7FFF_FFFF

  /**
   * A data path's tablet id and schema hash. A captured group that does not
   * fit its integer type fails the match.
   */
  function ParseTabletPath(path: string): (r: Option<(nat, nat)>)
    ensures r.Some? ==> r.value.0 <= MaxInt64 && r.value.1 <= MaxInt32
  {
    var normal := Search(path, 0, SchemaHashPath);
    if normal.Some? && SpanValue(path, normal.value.idStart, normal.value.idEnd) <= MaxInt64
       && SpanValue(path, normal.value.hashStart, normal.value.hashEnd) <= MaxInt32
    then Some((SpanValue(path, normal.value.idStart, normal.value.idEnd),
               SpanValue(path, normal.value.hashStart, normal.value.hashEnd)))
    else
      var empty := Search(path, 0, EmptyTabletPath);
      if empty.Some? && SpanValue(path, empty.value.idStart, empty.value.idEnd) <= MaxInt64
      then Some((SpanValue(path, empty.value.idStart, empty.value.idEnd), 0))
      else None
  }

  /** A path in which neither pattern matches anywhere is rejected. */
  lemma ParseTabletPathRejects(path: string)
    requires forall i :: 0 <= i <= |path| ==> MatchAt(path, i, SchemaHashPath).None? && MatchAt(path, i, EmptyTabletPath).None?
    ensures ParseTabletPath(path).None?
  {
    SearchFailsIff(path, 0, SchemaHashPath);
    SearchFailsIff(path, 0, EmptyTabletPath);
  }

  /** A run of digits that ends at `hi` is what `DigitRun` measures from `lo`. */
  lemma {:induction false} DigitRunOfSpan(s: string, lo: nat, hi: nat)
    requires lo <= hi <= |s| && forall k :: lo <= k < hi ==> Strings.IsDigit(s[k])
    requires hi == |s| || !Strings.IsDigit(s[hi])
    ensures DigitRun(s, lo) == hi - lo
    decreases hi - lo
  {
    if lo < hi {
      DigitRunOfSpan(s, lo + 1, hi);
    }
  }

  function Digits(n: nat): (d: string)
    ensures |d| > 0 && AllDigits(d)
  {
    Strings.NatToString(n)
  }

  /** `/data/` at 0, digit runs 6..j, j+1..k and k+1..m, slashes at j and k, then an end or a slash at m. */
  predicate SchemaHashLayout(s: string, j: nat, k: nat, m: nat) {
    PrefixAt(s, 0) && 6 < j && j + 1 < k && k + 1 < m <= |s|
    && DigitSpan(s, 6, j) && s[j] == '/' && DigitSpan(s, j + 1, k) && s[k] == '/' && DigitSpan(s, k + 1, m)
    && (m == |s| || s[m] == '/')
  }

  /** `/data/` at 0, digit runs 6..j and j+1..k, a slash at j, then the end, or one slash and the end. */
  predicate EmptyTabletLayout(s: string, j: nat, k: nat) {
    PrefixAt(s, 0) && 6 < j && j + 1 < k <= |s|
    && DigitSpan(s, 6, j) && s[j] == '/' && DigitSpan(s, j + 1, k)
    && (k == |s| || (k + 1 == |s| && s[k] == '/'))
  }

  lemma SchemaHashMatch(s: string, j: nat, k: nat, m: nat)
    requires SchemaHashLayout(s, j, k, m)
    ensures MatchAt(s, 0, SchemaHashPath) == Some(Groups(j + 1, k, k + 1, m))
  {
    DigitRunOfSpan(s, 6, j);
    DigitRunOfSpan(s, j + 1, k);
    DigitRunOfSpan(s, k + 1, m);
  }

  lemma EmptyTabletMatch(s: string, j: nat, k: nat)
    requires EmptyTabletLayout(s, j, k)
    ensures MatchAt(s, 0, EmptyTabletPath) == Some(Groups(j + 1, k, k, k))
    ensures MatchAt(s, 0, SchemaHashPath).None?
  {
    DigitRunOfSpan(s, 6, j);
    DigitRunOfSpan(s, j + 1, k);
    if k < |s| {
      DigitRunOfSpan(s, k + 1, k + 1);
    }
  }

  /** A match at the start position is the one a search returns. */
  lemma SearchFromMatch(s: string, from: nat, pattern: PathPattern)
    requires from <= |s| && MatchAt(s, from, pattern).Some?
    ensures Search(s, from, pattern) == MatchAt(s, from, pattern)
  {
  }

  /** A path laid out as a schema-hash directory parses to the values of its two id runs. */
  lemma ParsesSchemaHashLayout(s: string, j: nat, k: nat, m: nat)
    requires SchemaHashLayout(s, j, k, m)
    requires SpanValue(s, j + 1, k) <= MaxInt64 && SpanValue(s, k + 1, m) <= MaxInt32
    ensures ParseTabletPath(s) == Some((SpanValue(s, j + 1, k), SpanValue(s, k + 1, m)))
  {
    SchemaHashMatch(s, j, k, m);
    SearchFromMatch(s, 0, SchemaHashPath);
  }

  /** After the leading `/data/`, a path made of digits and slashes has no second `/data/`. */
  lemma OnlyLeadingPrefix(s: string)
    requires PrefixAt(s, 0)
    requires forall p :: 6 <= p < |s| ==> Strings.IsDigit(s[p]) || s[p] == '/'
    ensures forall i :: 0 < i <= |s| ==> !PrefixAt(s, i)
  {
    forall i | 0 < i <= |s|
      ensures !PrefixAt(s, i)
    {
      if i + 6 <= |s| && i >= 5 {
        assert Strings.IsDigit(s[i + 1]) || s[i + 1] == '/';
      }
    }
  }

  /** A path laid out as an empty tablet directory, digits and slashes only, parses to its id and hash 0. */
  lemma ParsesEmptyTabletLayout(s: string, j: nat, k: nat)
    requires EmptyTabletLayout(s, j, k)
    requires forall p :: 6 <= p < |s| ==> Strings.IsDigit(s[p]) || s[p] == '/'
    requires SpanValue(s, j + 1, k) <= MaxInt64
    ensures ParseTabletPath(s) == Some((SpanValue(s, j + 1, k), 0))
  {
    EmptyTabletMatch(s, j, k);
    OnlyLeadingPrefix(s);
    SearchFailsIff(s, 0, SchemaHashPath);
    SearchFromMatch(s, 0, EmptyTabletPath);
  }

  lemma SpanValueOf(s: string, lo: nat, hi: nat, d: string)
    requires DigitSpan(s, lo, hi) && s[lo..hi] == d
    ensures SpanValue(s, lo, hi) == Strings.DigitsValue(d)
  {
  }

  function SchemaHashPathOf(a: string, b: string, c: string, rest: string): string {
    DataPrefix + a + "/" + b + "/" + c + rest
  }

  function EmptyTabletPathOf(a: string, b: string, trailingSlash: bool): string {
    DataPrefix + a + "/" + b + (if trailingSlash then "/" else "")
  }

  /** Where each piece of a schema-hash path sits. */
  lemma SchemaHashPathPieces(a: string, b: string, c: string, rest: string)
    requires |a| > 0 && |b| > 0 && |c| > 0 && AllDigits(a) && AllDigits(b) && AllDigits(c)
    requires rest == [] || rest[0] == '/'
    ensures var s := SchemaHashPathOf(a, b, c, rest);
      var j := 6 + |a|;
      var k := j + 1 + |b|;
      var m := k + 1 + |c|;
      SchemaHashLayout(s, j, k, m) && s[j + 1..k] == b && s[k + 1..m] == c
  {
    var s := SchemaHashPathOf(a, b, c, rest);
    var j := 6 + |a|;
    var k := j + 1 + |b|;
    var m := k + 1 + |c|;
    assert s[j] == '/' && s[k] == '/';
    assert m == |s| || s[m] == rest[0];
    forall p | 0 <= p < |a| ensures s[6 + p] == a[p] { }
    forall p | 0 <= p < |b| ensures s[j + 1 + p] == b[p] { }
    forall p | 0 <= p < |c| ensures s[k + 1 + p] == c[p] { }
    assert DigitSpan(s, 6, j) by {
      forall p | 6 <= p < j ensures Strings.IsDigit(s[p]) { assert s[p] == a[p - 6]; }
    }
    assert DigitSpan(s, j + 1, k) by {
      forall p | j + 1 <= p < k ensures Strings.IsDigit(s[p]) { assert s[p] == b[p - j - 1]; }
    }
    assert DigitSpan(s, k + 1, m) by {
      forall p | k + 1 <= p < m ensures Strings.IsDigit(s[p]) { assert s[p] == c[p - k - 1]; }
    }
    assert s[j + 1..k] == b;
    assert s[k + 1..m] == c;
  }

  /** Where each piece of an empty tablet path sits. */
  lemma EmptyTabletPathPieces(a: string, b: string, trailingSlash: bool)
    requires |a| > 0 && |b| > 0 && AllDigits(a) && AllDigits(b)
    ensures var s := EmptyTabletPathOf(a, b, trailingSlash);
      var j := 6 + |a|;
      var k := j + 1 + |b|;
      EmptyTabletLayout(s, j, k) && s[j + 1..k] == b
      && forall p :: 6 <= p < |s| ==> Strings.IsDigit(s[p]) || s[p] == '/'
  {
    var s := EmptyTabletPathOf(a, b, trailingSlash);
    var j := 6 + |a|;
    var k := j + 1 + |b|;
    assert s[j] == '/';
    assert k == |s| || (k + 1 == |s| && s[k] == '/');
    forall p | 0 <= p < |a| ensures s[6 + p] == a[p] { }
    forall p | 0 <= p < |b| ensures s[j + 1 + p] == b[p] { }
    assert DigitSpan(s, 6, j) by {
      forall p | 6 <= p < j ensures Strings.IsDigit(s[p]) { assert s[p] == a[p - 6]; }
    }
    assert DigitSpan(s, j + 1, k) by {
      forall p | j + 1 <= p < k ensures Strings.IsDigit(s[p]) { assert s[p] == b[p - j - 1]; }
    }
    assert s[j + 1..k] == b;
  }

  /** A schema-hash directory path of digit strings, optionally followed by more segments, parses to its ids. */
  lemma SchemaHashPathParses(a: string, b: string, c: string, rest: string)
    requires |a| > 0 && |b| > 0 && |c| > 0 && AllDigits(a) && AllDigits(b) && AllDigits(c)
    requires Strings.DigitsValue(b) <= MaxInt64 && Strings.DigitsValue(c) <= MaxInt32
    requires rest == [] || rest[0] == '/'
    ensures ParseTabletPath(SchemaHashPathOf(a, b, c, rest)) == Some((Strings.DigitsValue(b), Strings.DigitsValue(c)))
  {
    var s := SchemaHashPathOf(a, b, c, rest);
    var j := 6 + |a|;
    var k := j + 1 + |b|;
    var m := k + 1 + |c|;
    SchemaHashPathPieces(a, b, c, rest);
    SpanValueOf(s, j + 1, k, b);
    SpanValueOf(s, k + 1, m, c);
    ParsesSchemaHashLayout(s, j, k, m);
  }

  /** A schema-hash directory path built from numbers parses back to the tablet id and schema hash. */
  lemma SchemaHashPathRoundTrip(shard: nat, tablet: nat, hash: nat, rest: string)
    requires tablet <= MaxInt64 && hash <= MaxInt32
    requires rest == [] || rest[0] == '/'
    ensures ParseTabletPath(SchemaHashPathOf(Digits(shard), Digits(tablet), Digits(hash), rest)) == Some((tablet, hash))
  {
    Strings.DigitsValueOfNat(tablet);
    Strings.DigitsValueOfNat(hash);
    SchemaHashPathParses(Digits(shard), Digits(tablet), Digits(hash), rest);
  }

  /** An empty tablet directory of digit strings parses to its id and hash 0. */
  lemma EmptyTabletPathParses(a: string, b: string, trailingSlash: bool)
    requires |a| > 0 && |b| > 0 && AllDigits(a) && AllDigits(b)
    requires Strings.DigitsValue(b) <= MaxInt64
    ensures ParseTabletPath(EmptyTabletPathOf(a, b, trailingSlash)) == Some((Strings.DigitsValue(b), 0))
  {
    var s := EmptyTabletPathOf(a, b, trailingSlash);
    var j := 6 + |a|;
    var k := j + 1 + |b|;
    EmptyTabletPathPieces(a, b, trailingSlash);
    SpanValueOf(s, j + 1, k, b);
    ParsesEmptyTabletLayout(s, j, k);
  }

  /** An empty tablet directory built from numbers, with or without a trailing slash, parses to its id and hash 0. */
  lemma EmptyTabletPathRoundTrip(shard: nat, tablet: nat, trailingSlash: bool)
    requires tablet <= MaxInt64
    ensures ParseTabletPath(EmptyTabletPathOf(Digits(shard), Digits(tablet), trailingSlash)) == Some((tablet, 0))
  {
    Strings.DigitsValueOfNat(tablet);
    EmptyTabletPathParses(Digits(shard), Digits(tablet), trailingSlash);
  }

  // ----------------------------------------------------- column unique ids

  datatype BaseColumn = BaseColumn(name: string, uniqueId: nat)

  /** The schema of the base tablet of a schema change. */
  datatype BaseSchema = BaseSchema(tabletId: nat, columns: seq<BaseColumn>, nextColumnUniqueId: nat, schemaVersion: int)

  /** A column of the create request; `colUniqueId` is the frontend's id, positive when set. */
  datatype RequestColumn = RequestColumn(name: string, colUniqueId: int)

  /**
   * The request's columns after normalisation: a row-store table gets the
   * full-row column appended, with no frontend unique id.
   */
  function NormalRequestColumns(columns: seq<RequestColumn>, columnWithRow: bool, fullRowName: string): (r: seq<RequestColumn>)
    ensures columnWithRow ==> r == columns + [RequestColumn(fullRowName, -1)]
    ensures !columnWithRow ==> r == columns
  {
    if columnWithRow then columns + [RequestColumn(fullRowName, -1)] else columns
  }

  predicate EndsWithFullRow(base: BaseSchema, fullRowName: string) {
    |base.columns| > 0 && base.columns[|base.columns| - 1].name == fullRowName
  }

  /** The base columns that keep their ids: all but a trailing full-row column. */
  function NormalOldCount(base: BaseSchema, fullRowName: string): (n: nat)
    ensures n <= |base.columns|
  {
    if EndsWithFullRow(base, fullRowName) then |base.columns| - 1 else |base.columns|
  }

  /** The first id handed to a new column: the base's next id, less the full-row column's. */
  function FirstNewId(base: BaseSchema, fullRowName: string): nat
    requires EndsWithFullRow(base, fullRowName) ==> base.nextColumnUniqueId >= 1
  {
    if EndsWithFullRow(base, fullRowName) then base.nextColumnUniqueId - 1 else base.nextColumnUniqueId
  }

  /** The base column a name maps to among the first `n`; on repeated names the last one wins. */
  function OldIndex(cols: seq<BaseColumn>, n: nat, name: string): (r: Option<nat>)
    requires n <= |cols|
    ensures r.Some? ==> r.value < n && cols[r.value].name == name
    ensures r.Some? ==> forall j :: r.value < j < n ==> cols[j].name != name
    ensures r.None? ==> forall j :: 0 <= j < n ==> cols[j].name != name
  {
    if n == 0 then None
    else if cols[n - 1].name == name then Some(n - 1)
    else OldIndex(cols, n - 1, name)
  }

  function OldColumn(base: BaseSchema, fullRowName: string, name: string): Option<nat> {
    OldIndex(base.columns, NormalOldCount(base, fullRowName), name)
  }

  /** How many of the first `i` request columns are new to the base schema. */
  function NewBefore(columns: seq<RequestColumn>, base: BaseSchema, fullRowName: string, i: nat): (n: nat)
    requires i <= |columns|
    ensures n <= i
  {
    if i == 0 then 0
    else NewBefore(columns, base, fullRowName, i - 1)
         + (if OldColumn(base, fullRowName, columns[i - 1].name).None? then 1 else 0)
  }

  /** The id a request column receives in a schema change. */
  function ExpectedId(columns: seq<RequestColumn>, base: BaseSchema, fullRowName: string, i: nat): nat
    requires i < |columns|
    requires EndsWithFullRow(base, fullRowName) ==> base.nextColumnUniqueId >= 1
  {
    match OldColumn(base, fullRowName, columns[i].name)
    case Some(j) => base.columns[j].uniqueId
    case None => FirstNewId(base, fullRowName) + NewBefore(columns, base, fullRowName, i)
  }

  /** A kept column whose frontend id disagrees with the base's, which fails the creation. */
  predicate Conflicts(columns: seq<RequestColumn>, schemaVersion: int, base: BaseSchema, fullRowName: string, i: nat)
    requires i < |columns|
  {
    match OldColumn(base, fullRowName, columns[i].name)
    case Some(j) =>
      schemaVersion <= base.schemaVersion + 1
      && columns[i].colUniqueId > 0 && columns[i].colUniqueId != base.columns[j].uniqueId
    case None => false
  }

  function ConflictMessage(base: BaseSchema, oldIndex: nat, feId: int, beId: nat): string {
    "Tablet[" + Strings.NatToString(base.tabletId) + "] column[" + Strings.NatToString(oldIndex)
    + "] has different column unique id during schema change. " + Strings.IntToString(feId)
    + "(FE) vs " + Strings.NatToString(beId) + "(BE)"
  }

  /**
   * Assigns every request column a unique id. Without a base tablet the id
   * is the column's position. In a schema change a column the base already
   * has keeps its id, and new columns take consecutive ids from the base's
   * next id. Returns the ids and the new next id.
   */
  method AssignColumnUniqueIds(columns: seq<RequestColumn>, schemaVersion: int, base: Option<BaseSchema>, fullRowName: string)
    returns (r: Result<(seq<nat>, nat), Status>)
    requires base.Some? && EndsWithFullRow(base.value, fullRowName) ==> base.value.nextColumnUniqueId >= 1
    ensures base.None? ==> r == Ok((seq(|columns|, k => k), |columns|))
    ensures base.Some? ==>
      (r.Err? <==> exists i :: 0 <= i < |columns| && Conflicts(columns, schemaVersion, base.value, fullRowName, i))
    ensures r.Err? ==> r.error.Error? && r.error.code == InternalError
    ensures base.Some? && r.Ok? ==>
      |r.value.0| == |columns|
      && (forall i :: 0 <= i < |columns| ==> r.value.0[i] == ExpectedId(columns, base.value, fullRowName, i))
      && r.value.1 == FirstNewId(base.value, fullRowName) + NewBefore(columns, base.value, fullRowName, |columns|)
  {
    if base.None? {
      var ids: seq<nat> := [];
      var i := 0;
      while i < |columns|
        invariant 0 <= i <= |columns|
        invariant ids == seq(i, k => k)
      {
        ids := ids + [i];
        i := i + 1;
      }
      return Ok((ids, |columns|));
    }
    var b := base.value;
    var next := FirstNewId(b, fullRowName);
    var ids: seq<nat> := [];
    var i := 0;
    while i < |columns|
      invariant 0 <= i <= |columns|
      invariant |ids| == i
      invariant forall k :: 0 <= k < i ==> ids[k] == ExpectedId(columns, b, fullRowName, k)
      invariant forall k :: 0 <= k < i ==> !Conflicts(columns, schemaVersion, b, fullRowName, k)
      invariant next == FirstNewId(b, fullRowName) + NewBefore(columns, b, fullRowName, i)
    {
      var found := OldColumn(b, fullRowName, columns[i].name);
      if found.Some? {
        var oldId := b.columns[found.value].uniqueId;
        if schemaVersion <= b.schemaVersion + 1 && columns[i].colUniqueId > 0 && columns[i].colUniqueId != oldId {
          assert Conflicts(columns, schemaVersion, b, fullRowName, i);
          return Err(Error(InternalError, ConflictMessage(b, found.value, columns[i].colUniqueId, oldId)));
        }
        ids := ids + [oldId];
      } else {
        ids := ids + [next];
        next := next + 1;
      }
      i := i + 1;
    }
    return Ok((ids, next));
  }

  lemma {:induction false} NewBeforeGrows(columns: seq<RequestColumn>, base: BaseSchema, fullRowName: string, i: nat, i': nat)
    requires i < i' <= |columns|
    requires OldColumn(base, fullRowName, columns[i].name).None?
    ensures NewBefore(columns, base, fullRowName, i') >= NewBefore(columns, base, fullRowName, i) + 1
    decreases i'
  {
    if i' > i + 1 {
      NewBeforeGrows(columns, base, fullRowName, i, i' - 1);
    }
  }

  /**
   * When the base's kept ids are distinct and below its next id, and the
   * request names its columns distinctly, no two columns share an id.
   */
  lemma AssignedIdsAreDistinct(columns: seq<RequestColumn>, base: BaseSchema, fullRowName: string)
    requires EndsWithFullRow(base, fullRowName) ==> base.nextColumnUniqueId >= 1
    requires forall j :: 0 <= j < NormalOldCount(base, fullRowName) ==> base.columns[j].uniqueId < FirstNewId(base, fullRowName)
    requires forall j, j' :: 0 <= j < j' < NormalOldCount(base, fullRowName) ==> base.columns[j].uniqueId != base.columns[j'].uniqueId
    requires forall i, i' :: 0 <= i < i' < |columns| ==> columns[i].name != columns[i'].name
    ensures forall i, i' :: 0 <= i < i' < |columns| ==>
      ExpectedId(columns, base, fullRowName, i) != ExpectedId(columns, base, fullRowName, i')
  {
    forall i, i' | 0 <= i < i' < |columns|
      ensures ExpectedId(columns, base, fullRowName, i) != ExpectedId(columns, base, fullRowName, i')
    {
      var o, o' := OldColumn(base, fullRowName, columns[i].name), OldColumn(base, fullRowName, columns[i'].name);
      if o.None? && o'.None? {
        NewBeforeGrows(columns, base, fullRowName, i, i');
      } else if o.Some? && o'.Some? {
        assert o.value != o'.value;
      }
    }
  }

  // ------------------------------------------------------- initial rowset

  /** The version range of a new tablet's initial rowset: `[0, version]`, for a version of at least 1. */
  function InitialRowsetVersion(requestVersion: int): (r: Result<(int, int), Status>)
    ensures r.Ok? <==> requestVersion >= 1
    ensures r.Ok? ==> r.value.0 == 0 && r.value.1 == requestVersion
    ensures r.Err? ==> r.error == Error(InvalidArgument, "invalid version")
  {
    if requestVersion < 1 then Err(Error(InvalidArgument, "invalid version")) else Ok((0, requestVersion))
  }

  // --------------------------------------------------------------- registry

  /** What `create_tablet` does before it builds anything. */
  datatype CreateStep = Finished(status: Status) | CreateNew(base: Option<Tablet>)

  function IdMessage(prefix: string, id: nat, suffix: string): string {
    prefix + Strings.NatToString(id) + suffix
  }

  /** The ids of a batch of tablets. */
  function IdsOf(tablets: seq<Tablet>): set<nat> {
    set k | 0 <= k < |tablets| :: tablets[k].id
  }

  /** The ids among the first `n` of `order`. */
  function Seen(order: seq<nat>, n: nat): set<nat>
    requires n <= |order|
  {
    set k | 0 <= k < n :: order[k]
  }

  lemma SeenStep(order: seq<nat>, n: nat)
    requires n < |order|
    ensures Seen(order, n + 1) == Seen(order, n) + {order[n]}
  {
  }

  /**
   * After the first `i` ids of `order`, `tablets` holds, once each and in
   * order, the tablets of `shard` among them that were not visited before.
   */
  ghost predicate BatchSoFar(shard: map<nat, Tablet>, visited: set<nat>, order: seq<nat>, i: nat, tablets: seq<Tablet>)
    requires i <= |order|
  {
    (forall k :: 0 <= k < |tablets| ==> tablets[k].id in shard && tablets[k] == shard[tablets[k].id] && tablets[k].id !in visited)
    && (forall j, k :: 0 <= j < k < |tablets| ==> tablets[j].id != tablets[k].id)
    && IdsOf(tablets) == Seen(order, i) - visited
  }

  lemma BatchTakes(shard: map<nat, Tablet>, visited: set<nat>, order: seq<nat>, i: nat, tablets: seq<Tablet>)
    requires i < |order| && BatchSoFar(shard, visited, order, i, tablets)
    requires order[i] in shard && shard[order[i]].id == order[i] && order[i] !in visited + IdsOf(tablets)
    ensures BatchSoFar(shard, visited, order, i + 1, tablets + [shard[order[i]]])
    ensures IdsOf(tablets + [shard[order[i]]]) == IdsOf(tablets) + {order[i]}
  {
    SeenStep(order, i);
    IdsOfAppend(tablets, shard[order[i]]);
  }

  lemma BatchSkips(shard: map<nat, Tablet>, visited: set<nat>, order: seq<nat>, i: nat, tablets: seq<Tablet>)
    requires i < |order| && BatchSoFar(shard, visited, order, i, tablets)
    requires order[i] in visited + IdsOf(tablets)
    ensures BatchSoFar(shard, visited, order, i + 1, tablets)
  {
    SeenStep(order, i);
  }

  lemma IdsOfAppend(tablets: seq<Tablet>, t: Tablet)
    ensures IdsOf(tablets + [t]) == IdsOf(tablets) + {t.id}
  {
    var ts := tablets + [t];
    assert ts[|tablets|].id == t.id;
    forall x | x in IdsOf(tablets)
      ensures x in IdsOf(ts)
    {
      var k :| 0 <= k < |tablets| && tablets[k].id == x;
      assert ts[k].id == x;
    }
  }

  /**
   * The redundant map after the shutdown entry for `id` is replaced: an earlier entry
   * moves there under its tablet uid, unless that uid is already present.
   */
  function Shelved(shutdown: map<nat, DroppedTabletInfo>, redundant: map<int, DroppedTabletInfo>, id: nat)
    : (r: map<int, DroppedTabletInfo>)
    ensures redundant.Keys <= r.Keys && forall u :: u in redundant ==> r[u] == redundant[u]
    ensures id !in shutdown ==> r == redundant
    ensures id in shutdown ==> shutdown[id].tablet.uid in r && r.Keys == redundant.Keys + {shutdown[id].tablet.uid}
  {
    if id in shutdown && shutdown[id].tablet.uid !in redundant then redundant[shutdown[id].tablet.uid := shutdown[id]]
    else redundant
  }

  class TabletManager {
    const shardCount: nat
    var shards: seq<map<nat, Tablet>>
    var partitions: map<int, set<TabletInfo>>
    var shutdownTablets: map<nat, DroppedTabletInfo>
    /** Shut-down entries displaced by a newer drop of the same id, keyed by tablet uid. */
    var shutdownRedundant: map<int, DroppedTabletInfo>
    var curShard: nat
    var shardVisited: set<nat>

    ghost predicate Valid()
      reads this
    {
      ValidShardCount(shardCount)
      && |shards| == shardCount
      && curShard < shardCount
      && Indexed(shards, shardCount, partitions)
      && (forall id :: id in shutdownTablets ==> shutdownTablets[id].tablet.id == id)
    }

    constructor(count: nat)
      requires ValidShardCount(count)
      ensures Valid()
      ensures shardCount == count && shards == seq(count, _ => map[])
      ensures partitions == map[] && shutdownTablets == map[] && shutdownRedundant == map[]
      ensures curShard == 0 && shardVisited == {}
    {
      shardCount := count;
      shards := seq(count, _ => map[]);
      partitions := map[];
      shutdownTablets := map[];
      shutdownRedundant := map[];
      curShard := 0;
      shardVisited := {};
      new;
      IndexedMeans(shards, shardCount, partitions);
    }

    /** The registered tablet with this id (the shard map only). */
    function Lookup(id: nat): (r: Option<Tablet>)
      reads this
      requires Valid()
      ensures r.Some? ==> r.value.id == id && Listed(partitions, r.value)
    {
      IndexedMeans(shards, shardCount, partitions);
      Find(shards, shardCount, id)
    }

    /**
     * A tablet by id, optionally also from the shutdown queue; a tablet
     * marked unusable is not returned.
     */
    function GetTabletUnlocked(id: nat, includeDeleted: bool): (r: Option<Tablet>)
      reads this
      requires Valid()
      ensures r.Some? ==> r.value.id == id && r.value.used
      ensures r.Some? && Lookup(id).Some? ==> r == Lookup(id)
      ensures r.Some? && Lookup(id).None? ==> id in shutdownTablets && r.value == shutdownTablets[id].tablet
      ensures r.None? <==>
        (Lookup(id).Some? && !Lookup(id).value.used)
        || (Lookup(id).None? && (!includeDeleted || id !in shutdownTablets || !shutdownTablets[id].tablet.used))
    {
      var t := if Lookup(id).Some? then Lookup(id)
               else if includeDeleted && id in shutdownTablets then Some(shutdownTablets[id].tablet)
               else None;
      if t.Some? && t.value.used then t else None
    }

    /**
     * `create_tablet`'s checks: an existing usable tablet makes the call a
     * success without creating; one still in the shutdown queue fails it; a
     * schema change needs its base tablet registered.
     */
    function CreateTabletCheck(tabletId: nat, baseTabletId: Option<int>): (r: CreateStep)
      reads this
      requires Valid()
      ensures r == Finished(OK) <==>
        GetTabletUnlocked(tabletId, true).Some? && GetTabletUnlocked(tabletId, true).value.state != Shutdown
      ensures r == Finished(Error(InternalError, "tablet still resident in shutdown queue")) <==>
        GetTabletUnlocked(tabletId, true).Some? && GetTabletUnlocked(tabletId, true).value.state == Shutdown
      ensures r.CreateNew? ==> GetTabletUnlocked(tabletId, true).None?
      ensures r.CreateNew? ==> (r.base.Some? <==> baseTabletId.Some? && baseTabletId.value > 0)
      ensures r.CreateNew? && r.base.Some? ==> r.base == Lookup(baseTabletId.value)
      ensures r == Finished(Error(InternalError, "base tablet not exist")) <==>
        GetTabletUnlocked(tabletId, true).None? && baseTabletId.Some? && baseTabletId.value > 0
        && Lookup(baseTabletId.value).None?
    {
      var existing := GetTabletUnlocked(tabletId, true);
      if existing.Some? && existing.value.state != Shutdown then Finished(OK)
      else if existing.Some? then Finished(Error(InternalError, "tablet still resident in shutdown queue"))
      else if baseTabletId.Some? && baseTabletId.value > 0 then
        var b := Lookup(baseTabletId.value);
        if b.None? then Finished(Error(InternalError, "base tablet not exist")) else CreateNew(b)
      else CreateNew(None)
    }

    /** Registers a tablet whose id is free and lists it under its partition. */
    method UpdateTabletMapAndPartitionInfo(t: Tablet) returns (st: Status)
      requires Valid()
      modifies this`shards, this`partitions
      ensures Valid()
      ensures old(Lookup(t.id)).Some? ==>
        st == Error(InternalError, IdMessage("tablet ", t.id, " already exist in map"))
        && shards == old(shards) && partitions == old(partitions)
      ensures old(Lookup(t.id)).None? ==>
        st == OK
        && shards == Inserted(old(shards), ShardIndex(t.id, shardCount), t)
        && partitions == AddToPartition(old(partitions), t)
      ensures old(Lookup(t.id)).None? ==>
        Lookup(t.id) == Some(t) && forall id :: id != t.id ==> Lookup(id) == old(Lookup(id))
    {
      var s := ShardIndex(t.id, shardCount);
      if t.id in shards[s] {
        return Error(InternalError, IdMessage("tablet ", t.id, " already exist in map"));
      }
      ghost var shards0 := shards;
      InsertKeepsIndexed(shards, shardCount, partitions, t);
      shards := Inserted(shards, s, t);
      partitions := AddToPartition(partitions, t);
      forall id
        ensures Find(shards, shardCount, id) == if id == t.id then Some(t) else Find(shards0, shardCount, id)
      {
        FindInserted(shards0, shardCount, t, id);
      }
      return OK;
    }

    /**
     * Queues a dropped tablet for shutdown. An earlier entry for the same id
     * moves to the redundant map under its tablet uid, unless that uid is
     * already there.
     */
    method AddShutdownTabletUnlocked(id: nat, info: DroppedTabletInfo)
      requires info.tablet.id == id
      requires forall k :: k in shutdownTablets ==> shutdownTablets[k].tablet.id == k
      modifies this`shutdownTablets, this`shutdownRedundant
      ensures shutdownTablets == old(shutdownTablets)[id := info]
      ensures shutdownRedundant == Shelved(old(shutdownTablets), old(shutdownRedundant), id)
      ensures forall k :: k in shutdownTablets ==> shutdownTablets[k].tablet.id == k
      ensures forall u :: u in old(shutdownRedundant) ==> u in shutdownRedundant && shutdownRedundant[u] == old(shutdownRedundant[u])
    {
      if id in shutdownTablets {
        var previous := shutdownTablets[id];
        shutdownTablets := shutdownTablets - {id};
        if previous.tablet.uid !in shutdownRedundant {
          shutdownRedundant := shutdownRedundant[previous.tablet.uid := previous];
        }
      }
      shutdownTablets := shutdownTablets[id := info];
    }

    /**
     * Drops a registered tablet. Moving its files to trash marks it shut
     * down and queues it; keeping meta and files just forgets it.
     */
    method DropTabletUnlocked(id: nat, flag: DropFlag) returns (st: Status)
      requires Valid()
      modifies this`shards, this`partitions, this`shutdownTablets, this`shutdownRedundant
      ensures Valid()
      ensures flag.OtherFlag? ==> st.Error? && st.code == InvalidArgument && unchanged(this)
      ensures !flag.OtherFlag? && old(Lookup(id)).None? ==> st.Error? && st.code == NotFound && unchanged(this)
      ensures !flag.OtherFlag? && old(Lookup(id)).Some? ==>
        var t := old(Lookup(id)).value;
        var s := ShardIndex(id, shardCount);
        st == OK
        && shards == Erased(old(shards), shardCount, id)
        && partitions == RemoveFromPartition(old(partitions), t)
        && (flag == MoveFilesToTrash ==>
              shutdownTablets == old(shutdownTablets)[id := DroppedTabletInfo(t.(state := Shutdown), flag)]
              && shutdownRedundant == Shelved(old(shutdownTablets), old(shutdownRedundant), id))
        && (flag == KeepMetaAndFiles ==> shutdownTablets == old(shutdownTablets) && shutdownRedundant == old(shutdownRedundant))
      ensures st.OK? ==> Lookup(id).None? && forall x :: x != id ==> Lookup(x) == old(Lookup(x))
    {
      if flag.OtherFlag? {
        return Error(InvalidArgument, "invalid TabletDropFlag " + Strings.IntToString(flag.value));
      }
      var s := ShardIndex(id, shardCount);
      if id !in shards[s] {
        return Error(NotFound, IdMessage("tablet ", id, " not fount"));
      }
      var dropped := shards[s][id];
      IndexedEntry(shards, shardCount, partitions, s, id);
      EraseKeepsIndexed(shards, shardCount, partitions, id);
      var shards', partitions' := Erased(shards, shardCount, id), RemoveFromPartition(partitions, dropped);
      forall x
        ensures Find(shards', shardCount, x) == if x == id then None else Find(shards, shardCount, x)
      {
        FindErased(shards, shardCount, id, x);
      }
      shards, partitions := shards', partitions';
      if flag == MoveFilesToTrash {
        AddShutdownTabletUnlocked(id, DroppedTabletInfo(dropped.(state := Shutdown), flag));
      }
      return OK;
    }

    /**
     * Registers a tablet. A tablet with the same id is dropped first when
     * `force` is set. Otherwise the same path or data dir is an error, and
     * the new copy replaces the old one only when `ReplacesOld` says so.
     */
    method AddTabletUnlocked(newTablet: Tablet, force: bool) returns (st: Status)
      requires Valid()
      requires newTablet.updates.Some? && Lookup(newTablet.id).Some? ==> Lookup(newTablet.id).value.updates.Some?
      modifies this`shards, this`partitions, this`shutdownTablets, this`shutdownRedundant
      ensures Valid()
      ensures old(Lookup(newTablet.id)).None? ==>
        st == OK && Lookup(newTablet.id) == Some(newTablet)
        && shards == Inserted(old(shards), ShardIndex(newTablet.id, shardCount), newTablet)
        && partitions == AddToPartition(old(partitions), newTablet)
        && shutdownTablets == old(shutdownTablets) && shutdownRedundant == old(shutdownRedundant)
      ensures old(Lookup(newTablet.id)).Some? ==>
        var oldT := old(Lookup(newTablet.id)).value;
        var message := IdMessage("tablet already exists, tablet_id: ", oldT.id, "");
        if force then
          st == OK && Lookup(newTablet.id) == Some(newTablet)
          && shutdownTablets == old(shutdownTablets) && shutdownRedundant == old(shutdownRedundant)
        else if oldT.schemaHashPath == newTablet.schemaHashPath || oldT.dataDir == newTablet.dataDir then
          st == Error(InternalError, message) && unchanged(this)
        else if ReplacesOld(oldT, newTablet) then
          st == OK && Lookup(newTablet.id) == Some(newTablet)
          && shutdownTablets == old(shutdownTablets)[oldT.id := DroppedTabletInfo(oldT.(state := Shutdown), MoveFilesToTrash)]
          && shutdownRedundant == Shelved(old(shutdownTablets), old(shutdownRedundant), oldT.id)
        else
          st == Error(AlreadyExist, message) && unchanged(this)
      ensures st.OK? ==> forall id :: id != newTablet.id ==> Lookup(id) == old(Lookup(id))
    {
      var s := ShardIndex(newTablet.id, shardCount);
      if newTablet.id !in shards[s] {
        st := UpdateTabletMapAndPartitionInfo(newTablet);
        return;
      }
      var oldT := shards[s][newTablet.id];
      var message := IdMessage("tablet already exists, tablet_id: ", oldT.id, "");
      if force {
        st := DropTabletUnlocked(oldT.id, KeepMetaAndFiles);
        st := UpdateTabletMapAndPartitionInfo(newTablet);
        return;
      }
      if oldT.schemaHashPath == newTablet.schemaHashPath || oldT.dataDir == newTablet.dataDir {
        return Error(InternalError, message);
      }
      if ReplacesOld(oldT, newTablet) {
        st := DropTabletUnlocked(oldT.id, MoveFilesToTrash);
        st := UpdateTabletMapAndPartitionInfo(newTablet);
      } else {
        st := Error(AlreadyExist, message);
      }
    }

    /**
     * Hands out the next batch of tablets from the current shard, skipping
     * those already handed out during this visit of the shard. `order` is the
     * shard map's iteration order. When the shard runs out before the batch
     * is full, the visited set is cleared and the cursor advances; the result
     * says whether it wrapped to the first shard.
     */
    method GetNextBatchTablets(batchSize: nat, order: seq<nat>) returns (allVisited: bool, tablets: seq<Tablet>)
      requires Valid()
      requires Distinct(order) && forall id :: id in order <==> id in shards[curShard]
      modifies this`curShard, this`shardVisited
      ensures Valid()
      ensures |tablets| <= batchSize
      ensures forall k :: 0 <= k < |tablets| ==>
        tablets[k].id in old(shards[curShard]) && tablets[k] == old(shards[curShard][tablets[k].id])
        && tablets[k].id !in old(shardVisited)
      ensures forall j, k :: 0 <= j < k < |tablets| ==> tablets[j].id != tablets[k].id
      ensures batchSize == 0 ==> !allVisited && curShard == old(curShard) && shardVisited == old(shardVisited)
      ensures 0 < batchSize == |tablets| ==>
        !allVisited && curShard == old(curShard) && shardVisited == old(shardVisited) + IdsOf(tablets)
      ensures 0 < batchSize && |tablets| < batchSize ==>
        IdsOf(tablets) == old(shards[curShard]).Keys - old(shardVisited)
        && shardVisited == {} && curShard == (old(curShard) + 1) % shardCount
        && (allVisited <==> curShard == 0)
    {
      if batchSize == 0 {
        return false, [];
      }
      var shard := shards[curShard];
      ghost var visited0 := shardVisited;
      tablets := [];
      var i := 0;
      while i < |order|
        invariant 0 <= i <= |order|
        invariant curShard == old(curShard) && shard == shards[curShard]
        invariant |tablets| < batchSize
        invariant BatchSoFar(shard, visited0, order, i, tablets)
        invariant shardVisited == visited0 + IdsOf(tablets)
      {
        var id := order[i];
        if id !in shardVisited {
          IndexedEntry(shards, shardCount, partitions, curShard, id);
          BatchTakes(shard, visited0, order, i, tablets);
          tablets := tablets + [shard[id]];
          shardVisited := shardVisited + {id};
          if |tablets| >= batchSize {
            return false, tablets;
          }
        } else {
          BatchSkips(shard, visited0, order, i, tablets);
        }
        i := i + 1;
      }
      assert Seen(order, |order|) == shard.Keys;
      shardVisited := {};
      curShard := (curShard + 1) % shardCount;
      allVisited := curShard == 0;
    }
  }
}
