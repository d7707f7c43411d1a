/**
 * The backend's registry of exchange receivers. Receivers are kept in a fixed number of
 * buckets chosen by a hash of the fragment instance id; inside a bucket each fragment instance
 * maps its destination plan nodes to their receivers. Two counters, exported as gauges, track
 * the registered fragment instances and the receivers created.
 */
module DataStreamManagers {
  import opened Wrappers
  import opened BeStatus

  type UInt32 = x: int | 0 <= x < 0x1_0000_0000

  datatype FragmentInstanceId = FragmentInstanceId(hi: int, lo: int)

  /** A receiver, by identity: every `create_recvr` makes a new one. */
  datatype Receiver = Receiver(handle: nat)

  type ReceiverMap = map<int, Receiver>
  type Bucket = map<FragmentInstanceId, ReceiverMap>

  /** The fields of a chunk-transmission request that the registry looks at. */
  datatype TransmitRequest = TransmitRequest(
    nodeId: int, senderId: int, beNumber: int, eos: bool, chunksSize: nat,
    hasUsePassThrough: bool, usePassThrough: bool, hasQueryStatistics: bool)

  /** A call `transmit_chunk` makes on the receiver it found, in the order made. */
  datatype ReceiverCall =
    | AddSubPlanStatistics(senderId: int)
    | AddChunks(passesDone: bool)
    | RemoveSender(senderId: int, beNumber: int)

  /** The request is handed to the receiver: it has chunks, or asks for pass-through. */
  predicate CarriesChunks(req: TransmitRequest) {
    req.chunksSize > 0 || (req.hasUsePassThrough && req.usePassThrough)
  }

  /** The receivers registered in one bucket. */
  function BucketReceivers(bucket: Bucket): set<Receiver> {
    set id, node | id in bucket && node in bucket[id] :: bucket[id][node]
  }

  lemma InBucketReceivers(bucket: Bucket, id: FragmentInstanceId, node: int)
    requires id in bucket && node in bucket[id]
    ensures bucket[id][node] in BucketReceivers(bucket)
  {
  }

  /** The receivers registered in the first `n` buckets. */
  function Collected(buckets: seq<Bucket>, n: nat): set<Receiver>
    requires n <= |buckets|
  {
    if n == 0 then {} else Collected(buckets, n - 1) + BucketReceivers(buckets[n - 1])
  }

  /** A receiver is collected from the first `n` buckets exactly when one of them holds it. */
  lemma {:induction false} CollectedMeans(buckets: seq<Bucket>, n: nat, r: Receiver)
    requires n <= |buckets|
    ensures r in Collected(buckets, n) <==> exists b :: 0 <= b < n && r in BucketReceivers(buckets[b])
  {
    if n > 0 {
      CollectedMeans(buckets, n - 1, r);
    }
  }

  /** `get_bucket`: the hash of the low word, then of the high word, modulo the bucket count. */
  function BucketIndex(hashWord: (int, UInt32) -> UInt32, bucketNum: nat, id: FragmentInstanceId): (b: nat)
    requires bucketNum > 0
    ensures b < bucketNum
  {
    var value := hashWord(id.lo, 0);
    var value2 := hashWord(id.hi, value);
    value2 % bucketNum
  }

  /** The receivers registered for a fragment instance, looked up in the bucket of its hash. */
  function Lookup(buckets: seq<Bucket>, hashWord: (int, UInt32) -> UInt32, id: FragmentInstanceId): ReceiverMap
    requires |buckets| > 0
  {
    var b := BucketIndex(hashWord, |buckets|, id);
    if id in buckets[b] then buckets[b][id] else map[]
  }

  /** Every fragment instance sits in the bucket of its hash, with at least one receiver. */
  ghost predicate Placed(buckets: seq<Bucket>, hashWord: (int, UInt32) -> UInt32) {
    forall b, id :: 0 <= b < |buckets| && id in buckets[b] ==>
      BucketIndex(hashWord, |buckets|, id) == b && buckets[b][id] != map[]
  }

  /** `fragments` and `pairs` are the registered fragment instances and (fragment, node) pairs. */
  ghost predicate Indexed(buckets: seq<Bucket>, hashWord: (int, UInt32) -> UInt32,
                          fragments: set<FragmentInstanceId>, pairs: set<(FragmentInstanceId, int)>)
    requires |buckets| > 0
  {
    && (forall id :: id in fragments <==> Lookup(buckets, hashWord, id) != map[])
    && (forall id, node :: (id, node) in pairs <==> node in Lookup(buckets, hashWord, id))
  }

  /** The registry after `create_recvr` put `r` under (id, node): an existing entry stays. */
  function Inserted(buckets: seq<Bucket>, hashWord: (int, UInt32) -> UInt32, id: FragmentInstanceId,
                    node: int, r: Receiver): seq<Bucket>
    requires |buckets| > 0
  {
    var b := BucketIndex(hashWord, |buckets|, id);
    var inner := if id in buckets[b] then buckets[b][id] else map[];
    buckets[b := buckets[b][id := if node in inner then inner else inner[node := r]]]
  }

  /** The registry after `deregister_recvr` took (id, node) out, dropping an emptied fragment. */
  function Erased(buckets: seq<Bucket>, hashWord: (int, UInt32) -> UInt32, id: FragmentInstanceId,
                  node: int): seq<Bucket>
    requires |buckets| > 0
  {
    var b := BucketIndex(hashWord, |buckets|, id);
    if id in buckets[b] && node in buckets[b][id] then
      var inner := buckets[b][id] - {node};
      if inner == map[] then buckets[b := buckets[b] - {id}] else buckets[b := buckets[b][id := inner]]
    else buckets
  }

  lemma LookupInserted(buckets: seq<Bucket>, hashWord: (int, UInt32) -> UInt32, id: FragmentInstanceId,
                       node: int, r: Receiver, other: FragmentInstanceId)
    requires |buckets| > 0
    ensures var before := Lookup(buckets, hashWord, id);
      Lookup(Inserted(buckets, hashWord, id, node, r), hashWord, other) ==
        if other != id then Lookup(buckets, hashWord, other)
        else if node in before then before else before[node := r]
  {
  }

  lemma LookupErased(buckets: seq<Bucket>, hashWord: (int, UInt32) -> UInt32, id: FragmentInstanceId,
                     node: int, other: FragmentInstanceId)
    requires |buckets| > 0
    ensures Lookup(Erased(buckets, hashWord, id, node), hashWord, other) ==
      if other != id then Lookup(buckets, hashWord, other) else Lookup(buckets, hashWord, id) - {node}
  {
  }

  /** What insertion does to every fragment instance's receivers. */
  lemma InsertedLookups(buckets: seq<Bucket>, hashWord: (int, UInt32) -> UInt32, id: FragmentInstanceId,
                        node: int, r: Receiver)
    requires |buckets| > 0
    ensures forall other :: (
      Lookup(Inserted(buckets, hashWord, id, node, r), hashWord, other) ==
        if other != id then Lookup(buckets, hashWord, other)
        else if node in Lookup(buckets, hashWord, id) then Lookup(buckets, hashWord, id)
        else Lookup(buckets, hashWord, id)[node := r])
  {
    forall other {
      LookupInserted(buckets, hashWord, id, node, r, other);
    }
  }

  /** What erasure does to every fragment instance's receivers. */
  lemma ErasedLookups(buckets: seq<Bucket>, hashWord: (int, UInt32) -> UInt32, id: FragmentInstanceId,
                      node: int)
    requires |buckets| > 0
    ensures forall other :: (
      Lookup(Erased(buckets, hashWord, id, node), hashWord, other) ==
        if other != id then Lookup(buckets, hashWord, other) else Lookup(buckets, hashWord, id) - {node})
  {
    forall other {
      LookupErased(buckets, hashWord, id, node, other);
    }
  }

  /** Every registered receiver has a handle below `next`. */
  ghost predicate HandlesBelow(buckets: seq<Bucket>, hashWord: (int, UInt32) -> UInt32, next: nat)
    requires |buckets| > 0
  {
    forall id, node :: node in Lookup(buckets, hashWord, id) ==> Lookup(buckets, hashWord, id)[node].handle < next
  }

  /**
   * Inserting a receiver with the next handle keeps every fragment in its bucket, registers
   * exactly the pair (if new) and keeps the handles below the next one.
   */
  lemma {:induction false} InsertedKeepsIndex(buckets: seq<Bucket>, hashWord: (int, UInt32) -> UInt32,
      fragments: set<FragmentInstanceId>, pairs: set<(FragmentInstanceId, int)>, next: nat,
      id: FragmentInstanceId, node: int)
    requires |buckets| > 0 && Placed(buckets, hashWord) && Indexed(buckets, hashWord, fragments, pairs)
    requires HandlesBelow(buckets, hashWord, next)
    ensures var after := Inserted(buckets, hashWord, id, node, Receiver(next));
      && Placed(after, hashWord)
      && Indexed(after, hashWord, fragments + {id}, pairs + {(id, node)})
      && HandlesBelow(after, hashWord, next + 1)
  {
    InsertedLookups(buckets, hashWord, id, node, Receiver(next));
  }

  /** Erasing a registered pair keeps every fragment in its bucket and unregisters exactly it. */
  lemma {:induction false} ErasedKeepsIndex(buckets: seq<Bucket>, hashWord: (int, UInt32) -> UInt32,
      fragments: set<FragmentInstanceId>, pairs: set<(FragmentInstanceId, int)>, next: nat,
      id: FragmentInstanceId, node: int)
    requires |buckets| > 0 && Placed(buckets, hashWord) && Indexed(buckets, hashWord, fragments, pairs)
    requires HandlesBelow(buckets, hashWord, next)
    requires node in Lookup(buckets, hashWord, id)
    ensures var after := Erased(buckets, hashWord, id, node);
      && Placed(after, hashWord)
      && Indexed(after, hashWord,
           if Lookup(buckets, hashWord, id) - {node} == map[] then fragments - {id} else fragments,
           pairs - {(id, node)})
      && HandlesBelow(after, hashWord, next)
  {
    ErasedLookups(buckets, hashWord, id, node);
  }

  /**
   * The registry's invariant: fragments in the buckets of their hashes, `fragments` and `pairs`
   * the registered fragment instances and pairs, the fragment counter their number, and the
   * receiver counter the number of pairs plus the creations whose node id was taken.
   */
  ghost predicate Registry(buckets: seq<Bucket>, hashWord: (int, UInt32) -> UInt32,
      fragments: set<FragmentInstanceId>, pairs: set<(FragmentInstanceId, int)>,
      fragmentCount: int, receiverCount: int, duplicates: nat, next: nat)
  {
    && |buckets| > 0
    && Placed(buckets, hashWord)
    && Indexed(buckets, hashWord, fragments, pairs)
    && fragmentCount == |fragments|
    && receiverCount == |pairs| + duplicates
    && HandlesBelow(buckets, hashWord, next)
  }

  /**
   * `create_recvr` keeps the invariant: the fragment counter grows exactly when the fragment is
   * new, and a creation that finds its node id taken is one more duplicate.
   */
  lemma {:induction false} CreateKeepsRegistry(buckets: seq<Bucket>, hashWord: (int, UInt32) -> UInt32,
      fragments: set<FragmentInstanceId>, pairs: set<(FragmentInstanceId, int)>,
      fragmentCount: int, receiverCount: int, duplicates: nat, next: nat, id: FragmentInstanceId, node: int,
      fragmentCount2: int, duplicates2: nat)
    requires Registry(buckets, hashWord, fragments, pairs, fragmentCount, receiverCount, duplicates, next)
    requires fragmentCount2 == fragmentCount + if Lookup(buckets, hashWord, id) == map[] then 1 else 0
    requires duplicates2 == duplicates + if node in Lookup(buckets, hashWord, id) then 1 else 0
    ensures Registry(Inserted(buckets, hashWord, id, node, Receiver(next)), hashWord,
      fragments + {id}, pairs + {(id, node)}, fragmentCount2, receiverCount + 1, duplicates2, next + 1)
  {
    InsertedKeepsIndex(buckets, hashWord, fragments, pairs, next, id, node);
    if Lookup(buckets, hashWord, id) == map[] {
      assert id !in fragments;
      assert |fragments + {id}| == |fragments| + 1;
    } else {
      assert id in fragments;
      assert fragments + {id} == fragments;
    }
    if node in Lookup(buckets, hashWord, id) {
      assert (id, node) in pairs;
      assert pairs + {(id, node)} == pairs;
    } else {
      assert (id, node) !in pairs;
      assert |pairs + {(id, node)}| == |pairs| + 1;
    }
  }

  /** `deregister_recvr` of a registered pair keeps the invariant. */
  lemma {:induction false} EraseKeepsRegistry(buckets: seq<Bucket>, hashWord: (int, UInt32) -> UInt32,
      fragments: set<FragmentInstanceId>, pairs: set<(FragmentInstanceId, int)>,
      fragmentCount: int, receiverCount: int, duplicates: nat, next: nat, id: FragmentInstanceId, node: int,
      fragments2: set<FragmentInstanceId>, fragmentCount2: int)
    requires Registry(buckets, hashWord, fragments, pairs, fragmentCount, receiverCount, duplicates, next)
    requires node in Lookup(buckets, hashWord, id)
    requires var emptied := Lookup(buckets, hashWord, id) - {node} == map[];
      && fragments2 == (if emptied then fragments - {id} else fragments)
      && fragmentCount2 == fragmentCount - (if emptied then 1 else 0)
    ensures Registry(Erased(buckets, hashWord, id, node), hashWord,
      fragments2, pairs - {(id, node)}, fragmentCount2, receiverCount - 1, duplicates, next)
  {
    assert id in fragments && (id, node) in pairs;
    ErasedKeepsIndex(buckets, hashWord, fragments, pairs, next, id, node);
  }

  /** The receivers of the registered pairs. */
  ghost function RegisteredReceivers(buckets: seq<Bucket>, hashWord: (int, UInt32) -> UInt32,
                                     pairs: set<(FragmentInstanceId, int)>): set<Receiver>
    requires |buckets| > 0
  {
    set p | p in pairs && p.1 in Lookup(buckets, hashWord, p.0) :: Lookup(buckets, hashWord, p.0)[p.1]
  }

  /** Gathering the receivers bucket by bucket finds exactly the registered ones. */
  lemma CollectedAreRegistered(buckets: seq<Bucket>, hashWord: (int, UInt32) -> UInt32,
                               fragments: set<FragmentInstanceId>, pairs: set<(FragmentInstanceId, int)>)
    requires |buckets| > 0 && Placed(buckets, hashWord) && Indexed(buckets, hashWord, fragments, pairs)
    ensures Collected(buckets, |buckets|) == RegisteredReceivers(buckets, hashWord, pairs)
  {
    forall r | r in Collected(buckets, |buckets|)
      ensures r in RegisteredReceivers(buckets, hashWord, pairs)
    {
      CollectedMeans(buckets, |buckets|, r);
      var b :| 0 <= b < |buckets| && r in BucketReceivers(buckets[b]);
      var id, node :| id in buckets[b] && node in buckets[b][id] && buckets[b][id][node] == r;
      assert Lookup(buckets, hashWord, id) == buckets[b][id];
      assert (id, node) in pairs;
    }
    forall r | r in RegisteredReceivers(buckets, hashWord, pairs)
      ensures r in Collected(buckets, |buckets|)
    {
      var p :| p in pairs && p.1 in Lookup(buckets, hashWord, p.0) && Lookup(buckets, hashWord, p.0)[p.1] == r;
      var b := BucketIndex(hashWord, |buckets|, p.0);
      assert p.0 in buckets[b] && p.1 in buckets[b][p.0] && buckets[b][p.0][p.1] == r;
      InBucketReceivers(buckets[b], p.0, p.1);
      CollectedMeans(buckets, |buckets|, r);
    }
  }

  class DataStreamMgr {
    /** The number of buckets; its value is fixed in the header, which is not part of this model. */
    const bucketNum: nat
    /** `HashUtil::hash` of one 8-byte word with a seed. */
    const hashWord: (int, UInt32) -> UInt32

    var receiverMap: seq<Bucket>
    var fragmentCount: int
    var receiverCount: int
    /** The handle the next receiver created gets. */
    var nextHandle: nat
    /** The receivers whose stream has been cancelled. */
    var cancelledStreams: set<Receiver>

    ghost var fragments: set<FragmentInstanceId>
    ghost var pairs: set<(FragmentInstanceId, int)>
    /** Creations whose node id was already registered: the map keeps the earlier receiver. */
    ghost var duplicateInserts: nat

    function GetBucket(id: FragmentInstanceId): (b: nat)
      requires bucketNum > 0
      ensures b < bucketNum
    {
      BucketIndex(hashWord, bucketNum, id)
    }

    /** The receivers registered for a fragment instance, by destination node. */
    function Receivers(id: FragmentInstanceId): ReceiverMap
      reads this`receiverMap
      requires bucketNum > 0 && |receiverMap| == bucketNum
    {
      Lookup(receiverMap, hashWord, id)
    }

    /**
     * Every fragment instance sits in the bucket of its hash with at least one receiver; the
     * fragment counter counts them, and the receiver counter counts the registered pairs plus
     * the creations that found their node id taken.
     */
    ghost predicate Valid()
      reads this`receiverMap, this`fragmentCount, this`receiverCount, this`nextHandle,
        this`fragments, this`pairs, this`duplicateInserts
    {
      && bucketNum > 0 && |receiverMap| == bucketNum
      && Registry(receiverMap, hashWord, fragments, pairs, fragmentCount, receiverCount, duplicateInserts, nextHandle)
    }

    constructor(bucketNum: nat, hashWord: (int, UInt32) -> UInt32)
      requires bucketNum > 0
      ensures Valid()
      ensures forall id :: Receivers(id) == map[]
      ensures fragmentCount == 0 && receiverCount == 0 && cancelledStreams == {}
    {
      this.bucketNum := bucketNum;
      this.hashWord := hashWord;
      receiverMap := seq(bucketNum, _ => map[]);
      fragmentCount := 0;
      receiverCount := 0;
      nextHandle := 0;
      cancelledStreams := {};
      fragments := {};
      pairs := {};
      duplicateInserts := 0;
    }

    /**
     * `create_recvr`: a new receiver, inserted under (fragment, node) unless that node already
     * has one, in which case the registered receiver stays and the new one is not registered.
     * The fragment counter grows only for a new fragment; the receiver counter on every call.
     */
    method CreateRecvr(id: FragmentInstanceId, node: int) returns (r: Receiver)
      requires Valid()
      modifies this`receiverMap, this`fragmentCount, this`receiverCount, this`nextHandle,
        this`fragments, this`pairs, this`duplicateInserts
      ensures Valid()
      ensures forall i, n :: n in old(Receivers(i)) ==> old(Receivers(i))[n] != r
      ensures Receivers(id) ==
        if node in old(Receivers(id)) then old(Receivers(id)) else old(Receivers(id))[node := r]
      ensures forall other :: other != id ==> Receivers(other) == old(Receivers(other))
      ensures fragmentCount == old(fragmentCount) + if old(Receivers(id)) == map[] then 1 else 0
      ensures receiverCount == old(receiverCount) + 1
    {
      ghost var before, fragments0, pairs0, fragmentCount0, receiverCount0, duplicates0, next0 :=
        receiverMap, fragments, pairs, fragmentCount, receiverCount, duplicateInserts, nextHandle;
      InsertedLookups(receiverMap, hashWord, id, node, Receiver(nextHandle));
      r := Receiver(nextHandle);
      var b := GetBucket(id);
      assert Receivers(id) == if id in receiverMap[b] then receiverMap[b][id] else map[];
      if id !in receiverMap[b] {
        fragmentCount := fragmentCount + 1;
      }
      if id in receiverMap[b] && node in receiverMap[b][id] {
        duplicateInserts := duplicateInserts + 1;
      }
      receiverMap := Inserted(receiverMap, hashWord, id, node, r);
      receiverCount := receiverCount + 1;
      pairs := pairs + {(id, node)};
      fragments := fragments + {id};
      nextHandle := nextHandle + 1;
      CreateKeepsRegistry(before, hashWord, fragments0, pairs0, fragmentCount0, receiverCount0,
        duplicates0, next0, id, node, fragmentCount, duplicateInserts);
    }

    /** `find_recvr`: the receiver registered under (fragment, node), if any. */
    method FindRecvr(id: FragmentInstanceId, node: int) returns (r: Option<Receiver>)
      requires Valid()
      ensures r.Some? <==> (id, node) in pairs
      ensures r.Some? ==> node in Receivers(id) && r.value == Receivers(id)[node]
    {
      var b := GetBucket(id);
      if id in receiverMap[b] && node in receiverMap[b][id] {
        r := Some(receiverMap[b][id][node]);
      } else {
        r := None;
      }
    }

    /**
     * `transmit_chunk`: a request for a receiver that is gone is accepted with no effect.
     * Otherwise statistics are handed over when present, the chunks when there are any or
     * pass-through is asked for (with the done closure only when this is not the sender's
     * last request), and on end of stream the sender is removed last, whatever `add_chunks`
     * returned. `addChunksStatus` is what the receiver's `add_chunks` returns.
     */
    method TransmitChunk(id: FragmentInstanceId, req: TransmitRequest, addChunksStatus: Status)
      returns (status: Status, receiver: Option<Receiver>, calls: seq<ReceiverCall>)
      requires Valid()
      ensures receiver.Some? <==> (id, req.nodeId) in pairs
      ensures receiver.Some? ==> receiver.value == Receivers(id)[req.nodeId]
      ensures receiver.None? ==> status == OK && calls == []
      ensures status == if receiver.Some? && CarriesChunks(req) then addChunksStatus else OK
      ensures receiver.Some? ==>
        && (AddSubPlanStatistics(req.senderId) in calls <==> req.hasQueryStatistics)
        && (AddChunks(!req.eos) in calls <==> CarriesChunks(req))
        && (RemoveSender(req.senderId, req.beNumber) in calls <==> req.eos)
      ensures forall c :: c in calls && c.AddChunks? ==> c.passesDone == !req.eos
      ensures req.eos && receiver.Some? ==> calls[|calls| - 1] == RemoveSender(req.senderId, req.beNumber)
    {
      receiver := FindRecvr(id, req.nodeId);
      status := OK;
      calls := [];
      if receiver.None? {
        return;
      }
      if req.hasQueryStatistics {
        calls := calls + [AddSubPlanStatistics(req.senderId)];
      }
      if CarriesChunks(req) {
        calls := calls + [AddChunks(!req.eos)];
        status := addChunksStatus;
      }
      // The deferred removal runs on the error return as well as on success.
      if req.eos {
        calls := calls + [RemoveSender(req.senderId, req.beNumber)];
      }
    }

    /** The locked part of `deregister_recvr`: takes the pair out, if registered. */
    method TakeOut(id: FragmentInstanceId, node: int) returns (target: Option<Receiver>)
      requires Valid()
      modifies this`receiverMap, this`fragmentCount, this`receiverCount, this`fragments, this`pairs
      ensures Valid()
      ensures target == if node in old(Receivers(id)) then Some(old(Receivers(id))[node]) else None
      ensures forall other :: other != id ==> Receivers(other) == old(Receivers(other))
      ensures target.Some? ==>
        && Receivers(id) == old(Receivers(id)) - {node}
        && receiverCount == old(receiverCount) - 1
        && fragmentCount == old(fragmentCount) - (if Receivers(id) == map[] then 1 else 0)
      ensures target.None? ==>
        receiverMap == old(receiverMap) && receiverCount == old(receiverCount) && fragmentCount == old(fragmentCount)
    {
      target := None;
      var b := GetBucket(id);
      assert Receivers(id) == if id in receiverMap[b] then receiverMap[b][id] else map[];
      if id in receiverMap[b] && node in receiverMap[b][id] {
        ghost var before, fragments0, pairs0, fragmentCount0, receiverCount0 :=
          receiverMap, fragments, pairs, fragmentCount, receiverCount;
        ErasedLookups(receiverMap, hashWord, id, node);
        target := Some(receiverMap[b][id][node]);
        receiverCount := receiverCount - 1;
        pairs := pairs - {(id, node)};
        if receiverMap[b][id] - {node} == map[] {
          fragmentCount := fragmentCount - 1;
          fragments := fragments - {id};
        }
        receiverMap := Erased(receiverMap, hashWord, id, node);
        EraseKeepsRegistry(before, hashWord, fragments0, pairs0, fragmentCount0, receiverCount0,
          duplicateInserts, nextHandle, id, node, fragments, fragmentCount);
      }
    }

    /**
     * `deregister_recvr`: takes the pair out and cancels its receiver's stream, dropping the
     * fragment when it was its last node; an unknown pair changes nothing.
     */
    method DeregisterRecvr(id: FragmentInstanceId, node: int) returns (target: Option<Receiver>)
      requires Valid()
      modifies this`receiverMap, this`fragmentCount, this`receiverCount, this`cancelledStreams,
        this`fragments, this`pairs
      ensures Valid()
      ensures target == if node in old(Receivers(id)) then Some(old(Receivers(id))[node]) else None
      ensures forall other :: other != id ==> Receivers(other) == old(Receivers(other))
      ensures target.Some? ==>
        && Receivers(id) == old(Receivers(id)) - {node}
        && receiverCount == old(receiverCount) - 1
        && fragmentCount == old(fragmentCount) - (if Receivers(id) == map[] then 1 else 0)
        && cancelledStreams == old(cancelledStreams) + {target.value}
      ensures target.None? ==>
        && receiverMap == old(receiverMap)
        && receiverCount == old(receiverCount) && fragmentCount == old(fragmentCount)
        && cancelledStreams == old(cancelledStreams)
    {
      target := TakeOut(id, node);
      // The stream is cancelled outside the bucket's lock.
      if target.Some? {
        cancelledStreams := cancelledStreams + {target.value};
      }
    }

    /** `cancel`: cancels the stream of every receiver of the fragment instance, and no other. */
    method Cancel(id: FragmentInstanceId)
      requires Valid()
      modifies this`cancelledStreams
      ensures cancelledStreams == old(cancelledStreams) + Receivers(id).Values
    {
      var recvrs := Receivers(id).Values;
      var todo := recvrs;
      while exists r :: r in todo
        invariant todo <= recvrs
        invariant cancelledStreams == old(cancelledStreams) + (recvrs - todo)
        decreases |todo|
      {
        var r :| r in todo;
        cancelledStreams := cancelledStreams + {r};
        todo := todo - {r};
      }
    }

    /** `close`: cancels the stream of every registered receiver. */
    method Close()
      requires Valid()
      modifies this`cancelledStreams
      ensures cancelledStreams == old(cancelledStreams) + RegisteredReceivers(receiverMap, hashWord, pairs)
    {
      CollectedAreRegistered(receiverMap, hashWord, fragments, pairs);
      var buckets := receiverMap;
      ghost var cancelled0 := cancelledStreams;
      assert |buckets| == bucketNum;
      var i := 0;
      while i < bucketNum
        invariant 0 <= i <= bucketNum
        invariant cancelledStreams == cancelled0 + Collected(buckets, i)
      {
        cancelledStreams := cancelledStreams + BucketReceivers(buckets[i]);
        i := i + 1;
      }
    }
  }
}
