/**
 * The pipeline sender queue of a stream receiver: one ready queue per consumer driver, a
 * per-driver count of chunks holding a sender's closure, a per-driver unplug flag that lets a
 * consumer batch its reads, and per-driver short-circuiting that discards what a finished
 * consumer no longer needs. Chunks may be deserialized lazily when taken.
 */
module PipelineSenderQueues {
  import opened Wrappers
  import opened BeStatus
  import opened SenderQueues

  /** The number of chunks in all the queues. */
  function QueuedCount(qs: seq<seq<ChunkItem>>): nat {
    if qs == [] then 0 else QueuedCount(qs[..|qs| - 1]) + |qs[|qs| - 1]|
  }

  /** The bytes of the chunks in all the queues. */
  function QueuedBytes(qs: seq<seq<ChunkItem>>): nat {
    if qs == [] then 0 else QueuedBytes(qs[..|qs| - 1]) + ItemBytes(qs[|qs| - 1])
  }

  /** Replacing one queue changes the totals by the difference of that queue alone. */
  lemma {:induction false} QueuedUpdate(qs: seq<seq<ChunkItem>>, i: nat, q: seq<ChunkItem>)
    requires i < |qs|
    ensures QueuedCount(qs[i := q]) == QueuedCount(qs) - |qs[i]| + |q|
    ensures QueuedBytes(qs[i := q]) == QueuedBytes(qs) - ItemBytes(qs[i]) + ItemBytes(q)
    decreases |qs|
  {
    var n := |qs| - 1;
    var r := qs[i := q];
    assert r[..n] == if i < n then qs[..n][i := q] else qs[..n];
    if i < n {
      QueuedUpdate(qs[..n], i, q);
    }
  }

  /** No chunk is counted exactly when every queue is empty. */
  lemma {:induction false} QueuedNone(qs: seq<seq<ChunkItem>>)
    ensures QueuedCount(qs) == 0 <==> forall i :: 0 <= i < |qs| ==> qs[i] == []
    decreases |qs|
  {
    if qs != [] {
      var n := |qs| - 1;
      QueuedNone(qs[..n]);
      assert forall i :: 0 <= i < n ==> qs[..n][i] == qs[i];
    }
  }

  /** Each driver's count of closure-holding chunks matches its queue. */
  ghost predicate ClosuresCounted(blocked: seq<int>, qs: seq<seq<ChunkItem>>) {
    |blocked| == |qs| && forall i :: 0 <= i < |qs| ==> blocked[i] == ClosureCount(qs[i])
  }

  lemma ClosuresCountedUpdate(blocked: seq<int>, qs: seq<seq<ChunkItem>>, i: nat, q: seq<ChunkItem>)
    requires ClosuresCounted(blocked, qs) && i < |qs|
    ensures ClosuresCounted(blocked[i := ClosureCount(q)], qs[i := q])
  {
  }

  /**
   * The queue's counters agree with its queues: per-driver closure counts, the chunk count and
   * the buffered bytes (both still including the chunks whose deserialization failed when
   * taken), and the buffer-memory counter, which follows the buffered bytes.
   */
  ghost predicate Accounted(qs: seq<seq<ChunkItem>>, blocked: seq<int>, total: int, bytes: int, peak: int,
                            lostChunks: nat, lostBytes: nat) {
    ClosuresCounted(blocked, qs) && total == QueuedCount(qs) + lostChunks && bytes == QueuedBytes(qs) + lostBytes
    && peak == bytes
  }

  /** Enqueuing a chunk and counting it keeps the counters in agreement. */
  lemma AccountedPush(qs: seq<seq<ChunkItem>>, blocked: seq<int>, total: int, bytes: int, peak: int,
                      lostChunks: nat, lostBytes: nat, i: nat, x: ChunkItem)
    requires Accounted(qs, blocked, total, bytes, peak, lostChunks, lostBytes) && i < |qs|
    ensures Accounted(qs[i := qs[i] + [x]], blocked[i := blocked[i] + if x.closure then 1 else 0],
                      total + 1, bytes + x.bytes, peak + x.bytes, lostChunks, lostBytes)
  {
    ClosureCountAppend(qs[i], [x]);
    ItemBytesAppend(qs[i], [x]);
    assert [x][..0] == [];
    QueuedUpdate(qs, i, qs[i] + [x]);
    ClosuresCountedUpdate(blocked, qs, i, qs[i] + [x]);
  }

  /**
   * Taking the front chunk of a queue and uncounting it, or moving it to the lost counts when
   * `keepCounted`, keeps the counters in agreement.
   */
  lemma AccountedPop(qs: seq<seq<ChunkItem>>, blocked: seq<int>, total: int, bytes: int, peak: int,
                     lostChunks: nat, lostBytes: nat, i: nat, keepCounted: bool)
    requires Accounted(qs, blocked, total, bytes, peak, lostChunks, lostBytes) && i < |qs| && qs[i] != []
    ensures var x := qs[i][0];
            var b := blocked[i := blocked[i] - if x.closure then 1 else 0];
            if keepCounted then Accounted(qs[i := qs[i][1..]], b, total, bytes, peak, lostChunks + 1, lostBytes + x.bytes)
            else Accounted(qs[i := qs[i][1..]], b, total - 1, bytes - x.bytes, peak - x.bytes, lostChunks, lostBytes)
  {
    var q := qs[i];
    assert [q[0]] + q[1..] == q;
    ClosureCountAppend([q[0]], q[1..]);
    ItemBytesAppend([q[0]], q[1..]);
    assert [q[0]][..0] == [];
    QueuedUpdate(qs, i, q[1..]);
    ClosuresCountedUpdate(blocked, qs, i, q[1..]);
  }

  /** The queue a chunk for driver `driverSequence` goes to. */
  function QueueIndex(pipelineLevelShuffle: bool, driverSequence: int): int {
    if pipelineLevelShuffle then driverSequence else 0
  }

  /** Every chunk is addressed to one of the `n` drivers. */
  ghost predicate DriversBelow(items: seq<ChunkItem>, n: nat) {
    forall i :: 0 <= i < |items| ==> 0 <= items[i].driverSequence < n
  }

  /** The chunks of `items` that go to queue `i`, in order. */
  function Routed(items: seq<ChunkItem>, i: int, shuffle: bool): seq<ChunkItem> {
    if items == [] then []
    else
      var last := items[|items| - 1];
      Routed(items[..|items| - 1], i, shuffle) + (if QueueIndex(shuffle, last.driverSequence) == i then [last] else [])
  }

  /** The queues after `items` are enqueued: each queue gains, in order, the chunks routed to it. */
  function Spread(qs: seq<seq<ChunkItem>>, items: seq<ChunkItem>, shuffle: bool): (r: seq<seq<ChunkItem>>)
    ensures |r| == |qs|
  {
    seq(|qs|, i requires 0 <= i < |qs| => qs[i] + Routed(items, i, shuffle))
  }

  lemma SpreadNone(qs: seq<seq<ChunkItem>>, shuffle: bool)
    ensures Spread(qs, [], shuffle) == qs
  {
    forall i | 0 <= i < |qs|
      ensures Spread(qs, [], shuffle)[i] == qs[i]
    {
      assert Routed([], i, shuffle) == [];
      assert qs[i] + [] == qs[i];
    }
  }

  /** Without shuffle the first queue gains every chunk and the others nothing. */
  lemma SpreadWithoutShuffle(qs: seq<seq<ChunkItem>>, items: seq<ChunkItem>)
    requires |qs| >= 1
    ensures Spread(qs, items, false) == qs[0 := qs[0] + items]
  {
    forall i | 0 <= i < |qs|
      ensures Spread(qs, items, false)[i] == qs[0 := qs[0] + items][i]
    {
      RoutedWithoutShuffle(items, i);
    }
  }

  /** Without shuffle every chunk goes to the first queue. */
  lemma {:induction false} RoutedWithoutShuffle(items: seq<ChunkItem>, i: int)
    ensures Routed(items, i, false) == if i == 0 then items else []
    decreases |items|
  {
    if items != [] {
      var n := |items| - 1;
      RoutedWithoutShuffle(items[..n], i);
      assert items[..n] + [items[n]] == items;
    }
  }

  /** Enqueuing one more chunk appends it to its own queue and to no other. */
  lemma SpreadSnoc(qs: seq<seq<ChunkItem>>, items: seq<ChunkItem>, x: ChunkItem, shuffle: bool)
    requires 0 <= QueueIndex(shuffle, x.driverSequence) < |qs|
    ensures Spread(qs, items + [x], shuffle)
            == Spread(qs, items, shuffle)[QueueIndex(shuffle, x.driverSequence) :=
                 Spread(qs, items, shuffle)[QueueIndex(shuffle, x.driverSequence)] + [x]]
  {
    assert (items + [x])[..|items|] == items;
    var a := Spread(qs, items + [x], shuffle);
    var b := Spread(qs, items, shuffle)[QueueIndex(shuffle, x.driverSequence) :=
               Spread(qs, items, shuffle)[QueueIndex(shuffle, x.driverSequence)] + [x]];
    forall i | 0 <= i < |qs|
      ensures a[i] == b[i]
    {
      assert Routed(items + [x], i, shuffle) == Routed(items, i, shuffle) + (if QueueIndex(shuffle, x.driverSequence) == i then [x] else []);
    }
  }

  /** One step of enqueuing `items` in order: the prefix grows by `items[k]`. */
  lemma SpreadPrefixStep(qs: seq<seq<ChunkItem>>, items: seq<ChunkItem>, k: nat, shuffle: bool)
    requires k < |items| && 0 <= QueueIndex(shuffle, items[k].driverSequence) < |qs|
    ensures var index := QueueIndex(shuffle, items[k].driverSequence);
            Spread(qs, items[..k + 1], shuffle)
            == Spread(qs, items[..k], shuffle)[index := Spread(qs, items[..k], shuffle)[index] + [items[k]]]
    ensures ItemBytes(items[..k + 1]) == ItemBytes(items[..k]) + items[k].bytes
  {
    assert items[..k + 1] == items[..k] + [items[k]];
    assert (items[..k] + [items[k]])[..k] == items[..k];
    SpreadSnoc(qs, items[..k], items[k], shuffle);
  }

  /** One step of draining `items` from the front: `items[k]` moves from the rest to the prefix. */
  lemma DrainPrefixStep(items: seq<ChunkItem>, k: nat)
    requires k < |items|
    ensures items[k..][0] == items[k] && items[k..][1..] == items[k + 1..]
    ensures ItemBytes(items[..k + 1]) == ItemBytes(items[..k]) + items[k].bytes
    ensures ClosureCount(items[k..]) == ClosureCount(items[k + 1..]) + if items[k].closure then 1 else 0
  {
    assert items[..k + 1] == items[..k] + [items[k]];
    ItemBytesAppend(items[..k], [items[k]]);
    assert [items[k]][..0] == [];
    assert items[k..] == [items[k]] + items[k + 1..];
    ClosureCountAppend([items[k]], items[k + 1..]);
    assert [items[k]][..0] == [];
  }

  /** The chunks handed over in memory by a local sender. */
  function PassThroughItems(pts: seq<PassThroughChunk>): (r: seq<ChunkItem>)
    ensures |r| == |pts|
    ensures forall i :: 0 <= i < |pts| ==>
              r[i] == ChunkItem(pts[i].bytes, pts[i].driverSequence, PassedThrough(pts[i].chunkId), false)
  {
    seq(|pts|, i requires 0 <= i < |pts| => ChunkItem(pts[i].bytes, pts[i].driverSequence, PassedThrough(pts[i].chunkId), false))
  }

  /** The chunks of a request kept serialized, to be deserialized by the consumer that takes them. */
  function LazyItems(req: Request): (r: seq<ChunkItem>)
    requires req.pipelineLevelShuffle ==> |req.driverSequences| >= |req.chunks|
    ensures |r| == |req.chunks|
    ensures forall i :: 0 <= i < |r| ==>
              r[i] == ChunkItem(req.chunks[i].dataSize, if req.pipelineLevelShuffle then req.driverSequences[i] else -1,
                                Serialized(req.chunks[i]), false)
  {
    seq(|req.chunks|, i requires 0 <= i < |req.chunks| =>
      ChunkItem(req.chunks[i].dataSize, if req.pipelineLevelShuffle then req.driverSequences[i] else -1,
                Serialized(req.chunks[i]), false))
  }

  /** Drops the chunks addressed to a short-circuited driver; without shuffle nothing is dropped. */
  function Unshorted(items: seq<ChunkItem>, shortCircuited: seq<bool>, shuffle: bool): (r: seq<ChunkItem>)
    requires shuffle ==> DriversBelow(items, |shortCircuited|)
    ensures forall x :: x in r <==> x in items && !(shuffle && shortCircuited[x.driverSequence])
    ensures !shuffle ==> r == items
  {
    if items == [] then []
    else
      var n := |items| - 1;
      var front := Unshorted(items[..n], shortCircuited, shuffle);
      assert forall x :: x in items <==> x in items[..n] || x == items[n] by {
        assert items == items[..n] + [items[n]];
      }
      if shuffle && shortCircuited[items[n].driverSequence] then front else front + [items[n]]
  }

  /** Whether taking `item` fails: a lazily kept chunk whose deserialization fails. */
  predicate DecodeFails(item: ChunkItem) {
    item.payload.Serialized? && item.payload.pb.decoded.Error?
  }

  /** The sequence number of a keep-order packet as the pipeline queue reads it: a signed 32-bit value. */
  function Int32(x: int): (r: int)
    ensures -0x8000_0000 <= r < 0x8000_0000 && (r - x) % 0x1_0000_0000 == 0
  {
    var m := x % 0x1_0000_0000;
    if m >= 0x8000_0000 then m - 0x1_0000_0000 else m
  }

  /** The buffer-memory counter as `short_circuit` updates it: the drained bytes are added. */
  function ShortCircuitCounterAsWritten(counter: int, drained: seq<ChunkItem>): int {
    counter + ItemBytes(drained)
  }

  /**
   * As written, short-circuiting a driver with buffered chunks leaves the buffer-memory counter
   * above the buffered bytes, although it tracked them exactly before.
   */
  lemma ShortCircuitCounterDrifts(counter: int, bytes: int, drained: seq<ChunkItem>)
    requires counter == bytes && drained != [] && drained[0].bytes > 0
    ensures ShortCircuitCounterAsWritten(counter, drained) != bytes - ItemBytes(drained)
  {
    ItemBytesAppend([drained[0]], drained[1..]);
    assert [drained[0]] + drained[1..] == drained;
    assert ItemBytes([drained[0]]) == drained[0].bytes by {
      assert [drained[0]][..0] == [];
    }
  }

  class PipelineSenderQueue {
    var isCancelled: bool
    var numRemainingSenders: int
    var senderEosSet: set<int>
    /** One ready queue per consumer driver. */
    var chunkQueues: seq<seq<ChunkItem>>
    var unpluging: seq<bool>
    /** Per driver, how many queued chunks hold a sender's closure. */
    var blockedClosureNum: seq<int>
    var shortCircuited: seq<bool>
    var totalChunks: int
    /** This queue's share of the receiver's buffered-byte count. */
    var numBufferedBytes: int
    /** The sum of the receiver's per-driver buffer-memory counters. */
    var peakBufferMemBytes: int
    var isChunkMetaBuilt: bool
    var isPipelineLevelShuffle: bool
    var maxProcessedSequences: map<int, int>
    var bufferedChunkQueues: map<int, map<int, seq<ChunkItem>>>
    var chunkMeta: ChunkMeta
    const rowDesc: seq<seq<SlotDesc>>
    /** The degree of parallelism: the number of consumer drivers. */
    const dop: nat
    ghost const numSenders: int
    /** Chunks taken whose deserialization failed, and their bytes: they stay counted. */
    ghost var lostChunks: nat
    ghost var lostBytes: nat

    ghost predicate Valid()
      reads this`chunkQueues, this`unpluging, this`blockedClosureNum, this`shortCircuited, this`numRemainingSenders,
            this`senderEosSet, this`totalChunks, this`numBufferedBytes, this`peakBufferMemBytes, this`lostChunks,
            this`lostBytes, this`maxProcessedSequences, this`bufferedChunkQueues
    {
      dop >= 1 && |chunkQueues| == dop && |unpluging| == dop && |blockedClosureNum| == dop && |shortCircuited| == dop
      && numRemainingSenders == numSenders - |senderEosSet|
      && Accounted(chunkQueues, blockedClosureNum, totalChunks, numBufferedBytes, peakBufferMemBytes, lostChunks, lostBytes)
      && ReorderSettled(maxProcessedSequences, bufferedChunkQueues)
    }

    constructor(numSenders: int, dop: nat, rowDesc: seq<seq<SlotDesc>>)
      requires dop >= 1
      ensures Valid()
      ensures this.numSenders == numSenders && this.dop == dop && this.rowDesc == rowDesc
      ensures !isCancelled && numRemainingSenders == numSenders && senderEosSet == {}
      ensures chunkQueues == seq(dop, _ => []) && totalChunks == 0 && numBufferedBytes == 0
      ensures !isChunkMetaBuilt && !isPipelineLevelShuffle
    {
      this.numSenders := numSenders;
      this.dop := dop;
      this.rowDesc := rowDesc;
      isCancelled := false;
      numRemainingSenders := numSenders;
      senderEosSet := {};
      chunkQueues := seq(dop, _ => []);
      unpluging := seq(dop, _ => false);
      blockedClosureNum := seq(dop, _ => 0);
      shortCircuited := seq(dop, _ => false);
      totalChunks := 0;
      numBufferedBytes := 0;
      peakBufferMemBytes := 0;
      isChunkMetaBuilt := false;
      isPipelineLevelShuffle := false;
      maxProcessedSequences := map[];
      bufferedChunkQueues := map[];
      chunkMeta := EmptyMeta;
      lostChunks := 0;
      lostBytes := 0;
      new;
      assert QueuedCount(chunkQueues) == 0 && QueuedBytes(chunkQueues) == 0 by {
        QueuedNone(chunkQueues);
        EmptyQueuesHoldNoBytes(chunkQueues);
      }
    }

    /** The stream is finished when cancelled, or when every sender is done and no chunk is left. */
    predicate IsFinished(): (r: bool)
      reads this
      ensures r <==> isCancelled || (numRemainingSenders == 0 && totalChunks == 0)
    {
      isCancelled || (numRemainingSenders == 0 && totalChunks == 0)
    }

    /** A finished, uncancelled queue holds no chunk in any driver's queue. */
    lemma FinishedIsDrained()
      requires Valid() && IsFinished() && !isCancelled
      ensures forall i :: 0 <= i < dop ==> chunkQueues[i] == []
    {
      QueuedNone(chunkQueues);
    }

    /** The merging consumer of the first queue may read when this holds. */
    predicate HasChunk(): (r: bool)
      requires Valid()
      reads this
      ensures !r <==> !isCancelled && chunkQueues[0] == [] && numRemainingSenders > 0
    {
      if isCancelled then true
      else if chunkQueues[0] == [] && numRemainingSenders > 0 then false
      else true
    }

    /**
     * Takes the front chunk of queue `index`: its closure, if any, is run, and it leaves the
     * chunk and byte counts unless `keepCounted` (its deserialization failed).
     */
    method PopFront(index: nat, keepCounted: bool) returns (item: ChunkItem)
      requires Valid() && index < dop && chunkQueues[index] != []
      modifies this`chunkQueues, this`blockedClosureNum, this`totalChunks, this`numBufferedBytes,
               this`peakBufferMemBytes, this`lostChunks, this`lostBytes
      ensures Valid()
      ensures item == old(chunkQueues[index][0]) && chunkQueues == old(chunkQueues)[index := old(chunkQueues[index][1..])]
      ensures blockedClosureNum == old(blockedClosureNum)[index := old(blockedClosureNum[index]) - if item.closure then 1 else 0]
      ensures keepCounted ==> totalChunks == old(totalChunks) && numBufferedBytes == old(numBufferedBytes)
                              && peakBufferMemBytes == old(peakBufferMemBytes)
      ensures !keepCounted ==> totalChunks == old(totalChunks) - 1 && numBufferedBytes == old(numBufferedBytes) - item.bytes
                               && peakBufferMemBytes == old(peakBufferMemBytes) - item.bytes
                               && lostChunks == old(lostChunks) && lostBytes == old(lostBytes)
    {
      var q := chunkQueues[index];
      item := q[0];
      AccountedPop(chunkQueues, blockedClosureNum, totalChunks, numBufferedBytes, peakBufferMemBytes,
                   lostChunks, lostBytes, index, keepCounted);
      chunkQueues := chunkQueues[index := q[1..]];
      blockedClosureNum := blockedClosureNum[index := blockedClosureNum[index] - if item.closure then 1 else 0];
      if keepCounted {
        lostChunks := lostChunks + 1;
        lostBytes := lostBytes + item.bytes;
      } else {
        totalChunks := totalChunks - 1;
        numBufferedBytes := numBufferedBytes - item.bytes;
        peakBufferMemBytes := peakBufferMemBytes - item.bytes;
      }
    }

    /**
     * Takes a chunk for driver `driverSequence`: an error when cancelled; nothing, and the end of
     * the driver's unplugged run, when its queue is empty; otherwise the front chunk, whose
     * closure is run. A lazily kept chunk is deserialized here; when that fails the error is
     * returned and the chunk, though gone from the queue, stays in the chunk and byte counts.
     */
    method GetChunk(driverSequence: int) returns (status: Status, chunk: Option<ChunkItem>, released: bool)
      requires Valid() && 0 <= driverSequence < dop
      modifies this`chunkQueues, this`unpluging, this`blockedClosureNum, this`totalChunks, this`numBufferedBytes,
               this`peakBufferMemBytes, this`lostChunks, this`lostBytes
      ensures Valid()
      ensures old(isCancelled) ==>
                status == Error(Cancelled, "Cancelled SenderQueueForPipeline::get_chunk") && chunk == None && !released
                && unchanged(this)
      ensures var index := QueueIndex(isPipelineLevelShuffle, driverSequence);
              !old(isCancelled) && old(chunkQueues[index]) == [] ==>
                status == OK && chunk == None && !released && unpluging == old(unpluging)[index := false]
                && chunkQueues == old(chunkQueues) && totalChunks == old(totalChunks)
                && numBufferedBytes == old(numBufferedBytes)
      ensures var index := QueueIndex(isPipelineLevelShuffle, driverSequence);
              !old(isCancelled) && old(chunkQueues[index]) != [] ==>
                var front := old(chunkQueues[index])[0];
                unpluging == old(unpluging) && released == front.closure
                && chunkQueues == old(chunkQueues)[index := old(chunkQueues[index])[1..]]
                && (DecodeFails(front) ==> status == front.payload.pb.decoded && chunk == None
                                           && totalChunks == old(totalChunks) && numBufferedBytes == old(numBufferedBytes))
                && (!DecodeFails(front) ==> status == OK && chunk == Some(front)
                                            && totalChunks == old(totalChunks) - 1
                                            && numBufferedBytes == old(numBufferedBytes) - front.bytes)
    {
      if isCancelled {
        return Error(Cancelled, "Cancelled SenderQueueForPipeline::get_chunk"), None, false;
      }
      var index := QueueIndex(isPipelineLevelShuffle, driverSequence);
      if chunkQueues[index] == [] {
        unpluging := unpluging[index := false];
        return OK, None, false;
      }
      var front := chunkQueues[index][0];
      var item := PopFront(index, DecodeFails(front));
      released := item.closure;
      if DecodeFails(item) {
        return item.payload.pb.decoded, None, released;
      }
      return OK, Some(item), released;
    }

    /** The non-blocking take of a merging receiver, from the first queue. */
    method TryGetChunk() returns (got: bool, chunk: Option<ChunkItem>, released: bool)
      requires Valid()
      modifies this`chunkQueues, this`blockedClosureNum, this`totalChunks, this`numBufferedBytes,
               this`peakBufferMemBytes, this`lostChunks, this`lostBytes
      ensures Valid()
      ensures got <==> !old(isCancelled) && old(chunkQueues[0]) != []
      ensures !got ==> chunk == None && !released && unchanged(this)
      ensures got ==> chunk == Some(old(chunkQueues[0])[0]) && released == old(chunkQueues[0])[0].closure
                      && chunkQueues == old(chunkQueues)[0 := old(chunkQueues[0])[1..]]
                      && totalChunks == old(totalChunks) - 1
                      && numBufferedBytes == old(numBufferedBytes) - old(chunkQueues[0])[0].bytes
    {
      if isCancelled || chunkQueues[0] == [] {
        return false, None, false;
      }
      var item := PopFront(0, false);
      return true, Some(item), item.closure;
    }

    /** A sender's end of stream: the countdown drops once per distinct sender. */
    method DecrementSenders(be: int)
      requires Valid()
      modifies this`senderEosSet, this`numRemainingSenders
      ensures Valid()
      ensures (senderEosSet, numRemainingSenders) == Decrement(old(senderEosSet), old(numRemainingSenders), be)
    {
      if be in senderEosSet {
        return;
      }
      senderEosSet := senderEosSet + {be};
      numRemainingSenders := numRemainingSenders - 1;
    }

    /** Empties queue `index` front to back, running closures and uncounting each chunk. */
    method DrainQueue(index: nat) returns (drained: seq<ChunkItem>)
      requires Valid() && index < dop
      modifies this`chunkQueues, this`blockedClosureNum, this`totalChunks, this`numBufferedBytes,
               this`peakBufferMemBytes, this`lostChunks, this`lostBytes
      ensures Valid()
      ensures drained == old(chunkQueues[index])
      ensures chunkQueues == old(chunkQueues)[index := []] && blockedClosureNum == old(blockedClosureNum)[index := 0]
      ensures totalChunks == old(totalChunks) - |drained| && numBufferedBytes == old(numBufferedBytes) - ItemBytes(drained)
      ensures peakBufferMemBytes == old(peakBufferMemBytes) - ItemBytes(drained)
      ensures lostChunks == old(lostChunks) && lostBytes == old(lostBytes)
    {
      drained := chunkQueues[index];
      var k := 0;
      ghost var queues0, closures0, total0 := chunkQueues, blockedClosureNum, totalChunks;
      ghost var bytes0, peak0, lost0, lostBytes0 := numBufferedBytes, peakBufferMemBytes, lostChunks, lostBytes;
      while chunkQueues[index] != []
        invariant Valid() && k <= |drained|
        invariant chunkQueues == queues0[index := drained[k..]]
        invariant blockedClosureNum == closures0[index := ClosureCount(drained[k..])]
        invariant totalChunks == total0 - k
        invariant numBufferedBytes == bytes0 - ItemBytes(drained[..k])
        invariant peakBufferMemBytes == peak0 - ItemBytes(drained[..k])
        invariant lostChunks == lost0 && lostBytes == lostBytes0
        decreases |chunkQueues[index]|
      {
        DrainPrefixStep(drained, k);
        var item := PopFront(index, false);
        k := k + 1;
      }
      assert drained[..k] == drained;
    }

    /**
     * Short-circuits driver `driverSequence`: later chunks for it are dropped on arrival, and
     * with shuffle its queue is emptied now.
     */
    method ShortCircuit(driverSequence: nat)
      requires Valid() && driverSequence < dop
      modifies this`shortCircuited, this`chunkQueues, this`blockedClosureNum, this`totalChunks,
               this`numBufferedBytes, this`peakBufferMemBytes, this`lostChunks, this`lostBytes
      ensures Valid()
      ensures shortCircuited == old(shortCircuited)[driverSequence := true]
      ensures isPipelineLevelShuffle ==> chunkQueues == old(chunkQueues)[driverSequence := []]
                                         && totalChunks == old(totalChunks) - |old(chunkQueues[driverSequence])|
      ensures !isPipelineLevelShuffle ==> chunkQueues == old(chunkQueues) && totalChunks == old(totalChunks)
      ensures var dropped := if isPipelineLevelShuffle then old(chunkQueues[driverSequence]) else [];
              blockedClosureNum == old(blockedClosureNum)[driverSequence := old(blockedClosureNum[driverSequence]) - ClosureCount(dropped)]
              && numBufferedBytes == old(numBufferedBytes) - ItemBytes(dropped)
              && peakBufferMemBytes == old(peakBufferMemBytes) - ItemBytes(dropped)
      ensures lostChunks == old(lostChunks) && lostBytes == old(lostBytes)
    {
      shortCircuited := shortCircuited[driverSequence := true];
      if isPipelineLevelShuffle {
        var drained := DrainQueue(driverSequence);
      }
    }

    /**
     * `ShortCircuit` with the buffer-memory counter updated as the source does: the drained
     * bytes are added to it instead of subtracted.
     */
    method ShortCircuitAsWritten(driverSequence: nat)
      requires Valid() && driverSequence < dop
      modifies this`shortCircuited, this`chunkQueues, this`blockedClosureNum, this`totalChunks,
               this`numBufferedBytes, this`peakBufferMemBytes, this`lostChunks, this`lostBytes
      ensures isPipelineLevelShuffle ==>
                peakBufferMemBytes == ShortCircuitCounterAsWritten(old(peakBufferMemBytes), old(chunkQueues[driverSequence]))
                && numBufferedBytes == old(numBufferedBytes) - ItemBytes(old(chunkQueues[driverSequence]))
      ensures isPipelineLevelShuffle && old(chunkQueues[driverSequence]) != [] && old(chunkQueues[driverSequence])[0].bytes > 0
              ==> !Valid()
    {
      shortCircuited := shortCircuited[driverSequence := true];
      if isPipelineLevelShuffle {
        ghost var counter := peakBufferMemBytes;
        var drained := DrainQueue(driverSequence);
        peakBufferMemBytes := peakBufferMemBytes + 2 * ItemBytes(drained);
        if drained != [] && drained[0].bytes > 0 {
          ShortCircuitCounterDrifts(counter, counter, drained);
        }
      }
    }

    /** Empties every driver's queue and the contents of every parked packet, running closures. */
    method CleanBufferQueues()
      requires Valid()
      modifies this`chunkQueues, this`blockedClosureNum, this`totalChunks, this`numBufferedBytes,
               this`peakBufferMemBytes, this`lostChunks, this`lostBytes, this`bufferedChunkQueues
      ensures Valid()
      ensures forall i :: 0 <= i < dop ==> chunkQueues[i] == []
      ensures totalChunks == old(totalChunks) - old(QueuedCount(chunkQueues))
      ensures numBufferedBytes == old(numBufferedBytes) - old(QueuedBytes(chunkQueues))
      ensures bufferedChunkQueues == Emptied(old(bufferedChunkQueues))
    {
      var i := 0;
      while i < dop
        invariant Valid() && i <= dop
        invariant forall j :: 0 <= j < i ==> chunkQueues[j] == []
        invariant forall j :: i <= j < dop ==> chunkQueues[j] == old(chunkQueues[j])
        invariant totalChunks - QueuedCount(chunkQueues) == old(totalChunks) - old(QueuedCount(chunkQueues))
        invariant numBufferedBytes - QueuedBytes(chunkQueues) == old(numBufferedBytes) - old(QueuedBytes(chunkQueues))
        invariant lostChunks == old(lostChunks) && lostBytes == old(lostBytes)
        invariant bufferedChunkQueues == old(bufferedChunkQueues)
      {
        var drained := DrainQueue(i);
        i := i + 1;
      }
      QueuedNone(chunkQueues);
      EmptyQueuesHoldNoBytes(chunkQueues);
      EmptiedSettled(maxProcessedSequences, bufferedChunkQueues);
      bufferedChunkQueues := Emptied(bufferedChunkQueues);
    }

    /** Cancels the queue and empties it. */
    method Cancel()
      requires Valid()
      modifies this`isCancelled, this`chunkQueues, this`blockedClosureNum, this`totalChunks, this`numBufferedBytes,
               this`peakBufferMemBytes, this`lostChunks, this`lostBytes, this`bufferedChunkQueues
      ensures Valid() && isCancelled && IsFinished()
      ensures forall i :: 0 <= i < dop ==> chunkQueues[i] == []
    {
      isCancelled := true;
      CleanBufferQueues();
    }

    /** Closes the queue: it is emptied but not marked cancelled. */
    method Close()
      requires Valid()
      modifies this`chunkQueues, this`blockedClosureNum, this`totalChunks, this`numBufferedBytes,
               this`peakBufferMemBytes, this`lostChunks, this`lostBytes, this`bufferedChunkQueues
      ensures Valid()
      ensures forall i :: 0 <= i < dop ==> chunkQueues[i] == []
      ensures totalChunks == lostChunks
    {
      CleanBufferQueues();
      QueuedNone(chunkQueues);
    }

    /**
     * Builds the chunk meta from the first chunk once per stream; a pass-through packet needs
     * none. The meta counts as built only when the build succeeds.
     */
    method TryToBuildChunkMeta(req: Request) returns (status: Status)
      requires req.usePassThrough || req.chunks != []
      requires !req.usePassThrough && !isChunkMetaBuilt ==> MetaBuildable(chunkMeta, req.chunks[0])
      modifies this`chunkMeta, this`isChunkMetaBuilt
      ensures req.usePassThrough || old(isChunkMetaBuilt) ==> status == OK && unchanged(this)
      ensures isChunkMetaBuilt <==> old(isChunkMetaBuilt) || (!req.usePassThrough && status.OK?)
      ensures status.Error? ==> status.code == InternalError
      ensures !req.usePassThrough && !old(isChunkMetaBuilt) && status.OK? ==>
                req.chunks[0].isNulls != [] && chunkMeta.isNulls == req.chunks[0].isNulls
                && MatchedCount(rowDesc, chunkMeta.slotIdToIndex.Keys) == |req.chunks[0].isNulls|
    {
      if req.usePassThrough || isChunkMetaBuilt {
        return OK;
      }
      var meta;
      status, meta := BuildChunkMeta(chunkMeta, req.chunks[0], rowDesc);
      chunkMeta := meta;
      if status.Error? {
        return;
      }
      isChunkMetaBuilt := true;
    }

    /** Appends one chunk to the queue of its driver and counts it. */
    method EnqueueOne(x: ChunkItem, shuffle: bool)
      requires Valid() && 0 <= QueueIndex(shuffle, x.driverSequence) < dop
      modifies this`chunkQueues, this`blockedClosureNum, this`totalChunks, this`numBufferedBytes,
               this`peakBufferMemBytes
      ensures Valid()
      ensures var index := QueueIndex(shuffle, x.driverSequence);
              chunkQueues == old(chunkQueues)[index := old(chunkQueues[index]) + [x]]
      ensures totalChunks == old(totalChunks) + 1 && numBufferedBytes == old(numBufferedBytes) + x.bytes
    {
      var index := QueueIndex(shuffle, x.driverSequence);
      AccountedPush(chunkQueues, blockedClosureNum, totalChunks, numBufferedBytes, peakBufferMemBytes,
                    lostChunks, lostBytes, index, x);
      chunkQueues := chunkQueues[index := chunkQueues[index] + [x]];
      blockedClosureNum := blockedClosureNum[index := blockedClosureNum[index] + if x.closure then 1 else 0];
      totalChunks := totalChunks + 1;
      numBufferedBytes := numBufferedBytes + x.bytes;
      peakBufferMemBytes := peakBufferMemBytes + x.bytes;
    }

    /** Enqueues `items` in order, each to the queue of its driver. */
    method EnqueueAll(items: seq<ChunkItem>, shuffle: bool)
      requires Valid() && (shuffle ==> DriversBelow(items, dop))
      modifies this`chunkQueues, this`blockedClosureNum, this`totalChunks, this`numBufferedBytes,
               this`peakBufferMemBytes
      ensures Valid()
      ensures chunkQueues == Spread(old(chunkQueues), items, shuffle)
      ensures totalChunks == old(totalChunks) + |items| && numBufferedBytes == old(numBufferedBytes) + ItemBytes(items)
    {
      var k := 0;
      ghost var queues0, total0, bytes0 := chunkQueues, totalChunks, numBufferedBytes;
      SpreadNone(chunkQueues, shuffle);
      while k < |items|
        invariant Valid() && k <= |items|
        invariant chunkQueues == Spread(queues0, items[..k], shuffle)
        invariant totalChunks == total0 + k && numBufferedBytes == bytes0 + ItemBytes(items[..k])
      {
        assert 0 <= QueueIndex(shuffle, items[k].driverSequence) < dop by {
          if shuffle { assert 0 <= items[k].driverSequence < dop; }
        }
        SpreadPrefixStep(queues0, items, k, shuffle);
        EnqueueOne(items[k], shuffle);
        k := k + 1;
      }
      assert items[..k] == items;
    }

    /**
     * Adds a packet without keep-order. A cancelled queue, or one whose senders are all done,
     * takes nothing. After the chunk meta is built (unless passed through), the packet's
     * chunks, handed over in memory or kept serialized, are enqueued by `EnqueueArrivals`.
     */
    method AddChunks(req: Request, passThrough: seq<PassThroughChunk>, hasDone: bool, exceedsLimit: bool)
      returns (status: Status, doneTaken: bool)
      requires Valid() && (req.usePassThrough || req.chunks != [])
      requires !req.usePassThrough && !isChunkMetaBuilt ==> MetaBuildable(chunkMeta, req.chunks[0])
      requires req.pipelineLevelShuffle ==>
                 if req.usePassThrough then forall i :: 0 <= i < |passThrough| ==> 0 <= passThrough[i].driverSequence < dop
                 else |req.driverSequences| >= |req.chunks|
                      && forall i :: 0 <= i < |req.chunks| ==> 0 <= req.driverSequences[i] < dop
      modifies this`chunkMeta, this`isChunkMetaBuilt, this`isPipelineLevelShuffle, this`chunkQueues,
               this`blockedClosureNum, this`totalChunks, this`numBufferedBytes, this`peakBufferMemBytes
      ensures Valid()
      ensures old(isCancelled) || numRemainingSenders <= 0 ==> status == OK && !doneTaken && unchanged(this)
      ensures status.Error? ==> status.code == InternalError && !doneTaken && chunkQueues == old(chunkQueues)
                                && totalChunks == old(totalChunks)
      ensures !old(isCancelled) && numRemainingSenders > 0 && status.OK? ==>
                var items := if req.usePassThrough then PassThroughItems(passThrough) else LazyItems(req);
                var kept := AttachDone(Unshorted(items, shortCircuited, req.pipelineLevelShuffle), hasDone, exceedsLimit);
                isPipelineLevelShuffle == req.pipelineLevelShuffle && doneTaken == kept.1
                && chunkQueues == Spread(old(chunkQueues), kept.0, req.pipelineLevelShuffle)
                && totalChunks == old(totalChunks) + |kept.0|
                && numBufferedBytes == old(numBufferedBytes) + ItemBytes(kept.0)
    {
      if isCancelled || numRemainingSenders <= 0 {
        return OK, false;
      }
      status := TryToBuildChunkMeta(req);
      if status.Error? {
        return status, false;
      }
      isPipelineLevelShuffle := req.pipelineLevelShuffle;
      var items := if req.usePassThrough then PassThroughItems(passThrough) else LazyItems(req);
      doneTaken := EnqueueArrivals(items, hasDone, exceedsLimit);
    }

    /**
     * Drops the chunks addressed to a short-circuited driver, gives the sender's closure to the
     * last one left when the receiver is over its limit, and enqueues each to its driver's queue.
     */
    method EnqueueArrivals(items: seq<ChunkItem>, hasDone: bool, exceedsLimit: bool) returns (doneTaken: bool)
      requires Valid() && (isPipelineLevelShuffle ==> DriversBelow(items, dop))
      modifies this`chunkQueues, this`blockedClosureNum, this`totalChunks, this`numBufferedBytes,
               this`peakBufferMemBytes
      ensures Valid()
      ensures var kept := AttachDone(Unshorted(items, shortCircuited, isPipelineLevelShuffle), hasDone, exceedsLimit);
              doneTaken == kept.1 && chunkQueues == Spread(old(chunkQueues), kept.0, isPipelineLevelShuffle)
              && totalChunks == old(totalChunks) + |kept.0| && numBufferedBytes == old(numBufferedBytes) + ItemBytes(kept.0)
    {
      var kept := Unshorted(items, shortCircuited, isPipelineLevelShuffle);
      var attached := AttachDone(kept, hasDone, exceedsLimit);
      assert isPipelineLevelShuffle ==> DriversBelow(attached.0, dop) by {
        if isPipelineLevelShuffle {
          forall i | 0 <= i < |attached.0|
            ensures 0 <= attached.0[i].driverSequence < dop
          {
            assert kept[i] in items;
          }
        }
      }
      doneTaken := attached.1;
      EnqueueAll(attached.0, isPipelineLevelShuffle);
    }

    /**
     * Adds a packet keeping each sender's sequence order. A cancelled queue, or one whose senders
     * are all done, takes nothing. The chunk meta is built and the chunks are deserialized before
     * `ParkAndEnqueue` parks and flushes them; the sequence is read as a signed 32-bit value.
     */
    method AddChunksAndKeepOrder(req: Request, hasDone: bool, exceedsLimit: bool) returns (status: Status, doneTaken: bool)
      requires Valid() && req.chunks != [] && !req.usePassThrough && !req.pipelineLevelShuffle
      requires !isChunkMetaBuilt ==> MetaBuildable(chunkMeta, req.chunks[0])
      modifies this`chunkMeta, this`isChunkMetaBuilt, this`isPipelineLevelShuffle, this`chunkQueues,
               this`blockedClosureNum, this`totalChunks, this`numBufferedBytes, this`peakBufferMemBytes,
               this`maxProcessedSequences, this`bufferedChunkQueues
      ensures Valid()
      ensures old(isCancelled) || numRemainingSenders <= 0 ==> status == OK && !doneTaken && unchanged(this)
      ensures status.Error? ==> !doneTaken && chunkQueues == old(chunkQueues) && totalChunks == old(totalChunks)
                                && bufferedChunkQueues == old(bufferedChunkQueues)
      ensures !old(isCancelled) && numRemainingSenders > 0 && status.OK? ==>
                var parked := AttachDone(DecodedItems(req.chunks), hasDone, exceedsLimit);
                DecodeStatus(req.chunks).OK? && doneTaken == parked.1
                && ParkedAndFlushed(old(chunkQueues), old(bufferedChunkQueues), old(maxProcessedSequences),
                                    old(totalChunks), old(numBufferedBytes), chunkQueues, bufferedChunkQueues,
                                    maxProcessedSequences, totalChunks, numBufferedBytes,
                                    req.beNumber, Int32(req.sequence), parked.0)
    {
      if isCancelled || numRemainingSenders <= 0 {
        return OK, false;
      }
      status, doneTaken := AddOrdered(req, hasDone, exceedsLimit);
    }

    /** A keep-order packet that the queue takes: see `AddChunksAndKeepOrder`. */
    method AddOrdered(req: Request, hasDone: bool, exceedsLimit: bool) returns (status: Status, doneTaken: bool)
      requires Valid() && req.chunks != [] && !req.usePassThrough
      requires !isChunkMetaBuilt ==> MetaBuildable(chunkMeta, req.chunks[0])
      modifies this`chunkMeta, this`isChunkMetaBuilt, this`isPipelineLevelShuffle, this`chunkQueues,
               this`blockedClosureNum, this`totalChunks, this`numBufferedBytes, this`peakBufferMemBytes,
               this`maxProcessedSequences, this`bufferedChunkQueues
      ensures Valid()
      ensures status.Error? ==> !doneTaken && chunkQueues == old(chunkQueues) && totalChunks == old(totalChunks)
                                && bufferedChunkQueues == old(bufferedChunkQueues)
      ensures status.OK? ==>
                var parked := AttachDone(DecodedItems(req.chunks), hasDone, exceedsLimit);
                DecodeStatus(req.chunks).OK? && doneTaken == parked.1
                && ParkedAndFlushed(old(chunkQueues), old(bufferedChunkQueues), old(maxProcessedSequences),
                                    old(totalChunks), old(numBufferedBytes), chunkQueues, bufferedChunkQueues,
                                    maxProcessedSequences, totalChunks, numBufferedBytes,
                                    req.beNumber, Int32(req.sequence), parked.0)
    {
      var items;
      status, items := BuildMetaAndDeserialize(req);
      if status.Error? {
        return status, false;
      }
      doneTaken := ParkAndEnqueue(req.beNumber, Int32(req.sequence), items, hasDone, exceedsLimit);
    }

    /**
     * The steps of a keep-order packet before it is parked: the chunk meta is built, the
     * shuffle mode recorded and every chunk deserialized; the first failure is returned.
     */
    method BuildMetaAndDeserialize(req: Request) returns (status: Status, items: seq<ChunkItem>)
      requires req.chunks != [] && !req.usePassThrough
      requires !isChunkMetaBuilt ==> MetaBuildable(chunkMeta, req.chunks[0])
      modifies this`chunkMeta, this`isChunkMetaBuilt, this`isPipelineLevelShuffle
      ensures old(isChunkMetaBuilt) ==> status == DecodeStatus(req.chunks) && isPipelineLevelShuffle == req.pipelineLevelShuffle
      ensures status.OK? ==> isChunkMetaBuilt && DecodeStatus(req.chunks).OK? && items == DecodedItems(req.chunks)
    {
      status := TryToBuildChunkMeta(req);
      if status.Error? {
        return status, [];
      }
      isPipelineLevelShuffle := req.pipelineLevelShuffle;
      var total;
      status, items, total := DeserializeChunks(req.chunks);
    }

    /**
     * Parks the chunks of packet `sequence` from sender `be`, with the sender's closure on the
     * last one when the receiver is over its limit, and moves every packet that is next in the
     * sender's order to the first queue, counting only what moves.
     */
    method ParkAndEnqueue(be: int, sequence: int, items: seq<ChunkItem>, hasDone: bool, exceedsLimit: bool)
      returns (doneTaken: bool)
      requires Valid()
      modifies this`chunkQueues, this`blockedClosureNum, this`totalChunks, this`numBufferedBytes,
               this`peakBufferMemBytes, this`maxProcessedSequences, this`bufferedChunkQueues
      ensures Valid()
      ensures var parked := AttachDone(items, hasDone, exceedsLimit);
              doneTaken == parked.1
              && ParkedAndFlushed(old(chunkQueues), old(bufferedChunkQueues), old(maxProcessedSequences),
                                  old(totalChunks), old(numBufferedBytes), chunkQueues, bufferedChunkQueues,
                                  maxProcessedSequences, totalChunks, numBufferedBytes, be, sequence, parked.0)
    {
      var attached := AttachDone(items, hasDone, exceedsLimit);
      doneTaken := attached.1;
      var buf := BufferOf(bufferedChunkQueues, be)[sequence := attached.0];
      var ready, rest, mark := FlushBuffer(buf, MarkOf(maxProcessedSequences, be));
      FlushSettles(maxProcessedSequences, bufferedChunkQueues, be, buf, MarkOf(maxProcessedSequences, be));
      SpreadWithoutShuffle(chunkQueues, ready);
      EnqueueAll(ready, false);
      bufferedChunkQueues := bufferedChunkQueues[be := rest];
      maxProcessedSequences := maxProcessedSequences[be := mark];
    }

    /**
     * Whether driver `driverSequence` should be scheduled to read. A driver in an unplugged run
     * reads while its queue has chunks and leaves the run when it is empty. Otherwise it starts a
     * run once `unplugThreshold` chunks are queued, reads when the receiver's buffer is over
     * `totalBufferLimit` and it has chunks, reads what is left once every sender is done, and
     * otherwise reads only to release a sender blocked on one of its chunks.
     */
    method HasOutput(driverSequence: int, unplugThreshold: nat, totalBufferLimit: int) returns (r: bool)
      requires Valid() && 0 <= driverSequence < dop
      modifies this`unpluging
      ensures Valid()
      ensures var index := QueueIndex(isPipelineLevelShuffle, driverSequence);
              var n := |chunkQueues[index]|;
              && (old(isCancelled) ==> !r && unpluging == old(unpluging))
              && (!isCancelled && old(unpluging[index]) ==>
                    r == (n > 0) && unpluging == old(unpluging)[index := n > 0])
              && (!isCancelled && !old(unpluging[index]) ==>
                    unpluging == old(unpluging)[index := n >= unplugThreshold]
                    && (r <==> n >= unplugThreshold
                               || (numBufferedBytes > totalBufferLimit && n > 0)
                               || (numRemainingSenders == 0 && n > 0)
                               || (numRemainingSenders != 0 && blockedClosureNum[index] > 0)))
      ensures r ==> !isCancelled
      ensures r && !unpluging[QueueIndex(isPipelineLevelShuffle, driverSequence)] && numRemainingSenders == 0 ==>
                chunkQueues[QueueIndex(isPipelineLevelShuffle, driverSequence)] != []
    {
      if isCancelled {
        return false;
      }
      var index := QueueIndex(isPipelineLevelShuffle, driverSequence);
      var n := |chunkQueues[index]|;
      if unpluging[index] {
        if n > 0 {
          return true;
        }
        unpluging := unpluging[index := false];
        return false;
      }
      if n >= unplugThreshold {
        unpluging := unpluging[index := true];
        return true;
      }
      if numBufferedBytes > totalBufferLimit && n > 0 {
        return true;
      }
      if numRemainingSenders == 0 {
        return n > 0;
      }
      return blockedClosureNum[index] > 0;
    }
  }

  /**
   * The effect of parking `parked` as packet `sequence` of sender `be` and flushing that
   * sender's buffer: the packets that are next in its order join the first queue, in order, and
   * are counted; the rest stay parked and the sender's last flushed sequence advances.
   */
  ghost predicate ParkedAndFlushed(qs0: seq<seq<ChunkItem>>, buffers0: map<int, map<int, seq<ChunkItem>>>,
                                   marks0: map<int, int>, total0: int, bytes0: int,
                                   qs: seq<seq<ChunkItem>>, buffers: map<int, map<int, seq<ChunkItem>>>,
                                   marks: map<int, int>, total: int, bytes: int,
                                   be: int, sequence: int, parked: seq<ChunkItem>) {
    var f := ParkAndFlush(buffers0, marks0, be, sequence, parked);
    |qs0| >= 1 && qs == qs0[0 := qs0[0] + f.ready] && buffers == buffers0[be := f.rest]
    && marks == marks0[be := f.maxProcessed] && total == total0 + |f.ready| && bytes == bytes0 + ItemBytes(f.ready)
  }

  /** Every parked packet emptied, every sender's buffer and sequence kept. */
  function Emptied(buffers: map<int, map<int, seq<ChunkItem>>>): (r: map<int, map<int, seq<ChunkItem>>>)
    ensures r.Keys == buffers.Keys
    ensures forall be :: be in r ==> r[be].Keys == buffers[be].Keys && forall s :: s in r[be] ==> r[be][s] == []
  {
    map be | be in buffers :: map s | s in buffers[be] :: []
  }

  lemma EmptiedSettled(marks: map<int, int>, buffers: map<int, map<int, seq<ChunkItem>>>)
    requires ReorderSettled(marks, buffers)
    ensures ReorderSettled(marks, Emptied(buffers))
  {
  }

  lemma {:induction false} EmptyQueuesHoldNoBytes(qs: seq<seq<ChunkItem>>)
    requires forall i :: 0 <= i < |qs| ==> qs[i] == []
    ensures QueuedBytes(qs) == 0
    decreases |qs|
  {
    if qs != [] {
      EmptyQueuesHoldNoBytes(qs[..|qs| - 1]);
    }
  }
}
