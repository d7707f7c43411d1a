/**
 * The classic (non-pipeline) sender queue of a stream receiver: one ready queue guarded by a
 * lock, a per-sender sequence filter, per-sender reorder buffers for keep-order streams and
 * the countdown of senders that have not yet sent their end of stream.
 */
module NonPipelineSenderQueues {
  import opened Wrappers
  import opened BeStatus
  import opened SenderQueues

  class NonPipelineSenderQueue {
    var isCancelled: bool
    var numRemainingSenders: int
    var senderEosSet: set<int>
    /** The chunks ready for the consumer, in delivery order. */
    var chunkQueue: seq<ChunkItem>
    /** This queue's share of the receiver's buffered-byte count. */
    var numBufferedBytes: int
    /** The last sequence accepted from each sender (without keep-order). */
    var packetSeqMap: map<int, int>
    /** The last sequence flushed for each sender (with keep-order). */
    var maxProcessedSequences: map<int, int>
    /** The packets of each sender waiting for an earlier sequence (with keep-order). */
    var bufferedChunkQueues: map<int, map<int, seq<ChunkItem>>>
    var chunkMeta: ChunkMeta
    /** The receiver's row layout: the slots of each tuple descriptor. */
    const rowDesc: seq<seq<SlotDesc>>
    ghost const numSenders: int

    ghost predicate Valid()
      reads this
    {
      numRemainingSenders == numSenders - |senderEosSet|
      && ReorderSettled(maxProcessedSequences, bufferedChunkQueues)
    }

    constructor(numSenders: int, rowDesc: seq<seq<SlotDesc>>)
      ensures Valid()
      ensures this.numSenders == numSenders && this.rowDesc == rowDesc
      ensures !isCancelled && numRemainingSenders == numSenders && senderEosSet == {}
      ensures chunkQueue == [] && numBufferedBytes == 0 && packetSeqMap == map[]
      ensures maxProcessedSequences == map[] && bufferedChunkQueues == map[] && chunkMeta == EmptyMeta
    {
      this.numSenders := numSenders;
      this.rowDesc := rowDesc;
      isCancelled := false;
      numRemainingSenders := numSenders;
      senderEosSet := {};
      chunkQueue := [];
      numBufferedBytes := 0;
      packetSeqMap := map[];
      maxProcessedSequences := map[];
      bufferedChunkQueues := map[];
      chunkMeta := EmptyMeta;
    }

    /** A consumer waiting for a chunk wakes when this holds. */
    predicate HasChunk(): (r: bool)
      reads this
      ensures !r <==> !isCancelled && chunkQueue == [] && numRemainingSenders > 0
    {
      if isCancelled then true
      else if chunkQueue == [] && numRemainingSenders > 0 then false
      else true
    }

    /** Everything but the ready queue and the byte count is as before. */
    twostate predicate SendersAndBuffersKept()
      reads this
    {
      isCancelled == old(isCancelled) && numRemainingSenders == old(numRemainingSenders)
      && senderEosSet == old(senderEosSet) && packetSeqMap == old(packetSeqMap)
      && maxProcessedSequences == old(maxProcessedSequences)
      && bufferedChunkQueues == old(bufferedChunkQueues) && chunkMeta == old(chunkMeta)
    }

    /**
     * Takes the front chunk once the consumer has woken (`HasChunk`): an error when cancelled,
     * nothing when the queue is empty (every sender is done), otherwise the front chunk, whose
     * bytes leave the buffered count and whose closure, if it holds one, is run.
     */
    method GetChunk() returns (status: Status, chunk: Option<ChunkItem>, released: bool)
      requires Valid() && HasChunk()
      modifies this
      ensures Valid() && SendersAndBuffersKept()
      ensures old(isCancelled) ==> status == Error(Cancelled, "Cancelled SenderQueue::get_chunk")
                                   && chunk == None && !released && unchanged(this)
      ensures !old(isCancelled) && old(chunkQueue) == [] ==>
                status == OK && chunk == None && !released && unchanged(this) && numRemainingSenders <= 0
      ensures !old(isCancelled) && old(chunkQueue) != [] ==>
                status == OK && chunk == Some(old(chunkQueue)[0]) && released == old(chunkQueue)[0].closure
                && chunkQueue == old(chunkQueue)[1..]
                && numBufferedBytes == old(numBufferedBytes) - old(chunkQueue)[0].bytes
    {
      if isCancelled {
        return Error(Cancelled, "Cancelled SenderQueue::get_chunk"), None, false;
      }
      if chunkQueue == [] {
        return OK, None, false;
      }
      var item := chunkQueue[0];
      numBufferedBytes := numBufferedBytes - item.bytes;
      chunkQueue := chunkQueue[1..];
      return OK, Some(item), item.closure;
    }

    /** The non-blocking take of a merging receiver: false when cancelled or empty. */
    method TryGetChunk() returns (got: bool, chunk: Option<ChunkItem>, released: bool)
      requires Valid()
      modifies this
      ensures Valid() && SendersAndBuffersKept()
      ensures got <==> !old(isCancelled) && old(chunkQueue) != []
      ensures !got ==> chunk == None && !released && unchanged(this)
      ensures got ==> chunk == Some(old(chunkQueue)[0]) && released == old(chunkQueue)[0].closure
                      && chunkQueue == old(chunkQueue)[1..]
                      && numBufferedBytes == old(numBufferedBytes) - old(chunkQueue)[0].bytes
    {
      if isCancelled || chunkQueue == [] {
        return false, None, false;
      }
      var item := chunkQueue[0];
      numBufferedBytes := numBufferedBytes - item.bytes;
      chunkQueue := chunkQueue[1..];
      return true, Some(item), item.closure;
    }

    /**
     * The first locked phase of adding a packet: a cancelled queue takes nothing; without
     * keep-order a packet whose sequence is not above the sender's last one is dropped and
     * otherwise becomes the last one; with keep-order the sender's mark and buffer are created
     * on first use. A packet arriving after every sender has finished is dropped too.
     */
    method Admit(be: int, sequence: int, keepOrder: bool) returns (admitted: bool)
      requires Valid()
      modifies this`packetSeqMap, this`maxProcessedSequences, this`bufferedChunkQueues
      ensures Valid()
      ensures admitted <==> !old(isCancelled) && (keepOrder || Dedup(old(packetSeqMap), be, sequence).Some?)
                            && numRemainingSenders > 0
      ensures old(isCancelled) || (!keepOrder && Dedup(old(packetSeqMap), be, sequence).None?) ==> unchanged(this)
      ensures !old(isCancelled) && !keepOrder && Dedup(old(packetSeqMap), be, sequence).Some? ==>
                packetSeqMap == Dedup(old(packetSeqMap), be, sequence).value
                && maxProcessedSequences == old(maxProcessedSequences)
                && bufferedChunkQueues == old(bufferedChunkQueues)
      ensures !old(isCancelled) && keepOrder ==>
                packetSeqMap == old(packetSeqMap)
                && maxProcessedSequences == old(maxProcessedSequences)[be := MarkOf(old(maxProcessedSequences), be)]
                && bufferedChunkQueues == old(bufferedChunkQueues)[be := BufferOf(old(bufferedChunkQueues), be)]
    {
      if isCancelled {
        return false;
      }
      if !keepOrder {
        var next := Dedup(packetSeqMap, be, sequence);
        if next.None? {
          return false;
        }
        packetSeqMap := next.value;
      } else {
        maxProcessedSequences := maxProcessedSequences[be := MarkOf(maxProcessedSequences, be)];
        bufferedChunkQueues := bufferedChunkQueues[be := BufferOf(bufferedChunkQueues, be)];
      }
      admitted := numRemainingSenders > 0;
    }

    /** A packet from sender `be` passes the first locked phase of adding it. */
    twostate predicate Admitted(be: int, sequence: int, keepOrder: bool)
      reads this
    {
      !old(isCancelled) && numRemainingSenders > 0 && (keepOrder || Dedup(old(packetSeqMap), be, sequence).Some?)
    }

    /**
     * Adds a packet of chunks from sender `req.beNumber`, without keep-order. A cancelled queue
     * takes nothing, a packet whose sequence is not above the sender's last one is dropped, and
     * a packet arriving after every sender has finished is dropped too. Otherwise the chunk meta
     * is built from the first chunk if no column types are known yet, every chunk is
     * deserialized (`AddAdmitted`) and the chunks join the ready queue; the sender's closure goes to the last
     * of them when the receiver is over its limit (`exceedsLimit`), and the packet's bytes join
     * the buffered count.
     */
    method AddChunks(req: Request, hasDone: bool, exceedsLimit: bool) returns (status: Status, doneTaken: bool)
      requires Valid() && req.chunks != []
      requires chunkMeta.types == [] ==> MetaBuildable(chunkMeta, req.chunks[0])
      modifies this`packetSeqMap, this`maxProcessedSequences, this`bufferedChunkQueues, this`chunkMeta,
               this`chunkQueue, this`numBufferedBytes
      ensures Valid()
      ensures !Admitted(req.beNumber, req.sequence, false) ==> status == OK && !doneTaken
      ensures !Admitted(req.beNumber, req.sequence, false) ==>
                chunkQueue == old(chunkQueue) && chunkMeta == old(chunkMeta) && numBufferedBytes == old(numBufferedBytes)
      ensures old(isCancelled) || Dedup(old(packetSeqMap), req.beNumber, req.sequence).None? ==> unchanged(this)
      ensures !old(isCancelled) && Dedup(old(packetSeqMap), req.beNumber, req.sequence).Some? ==>
                packetSeqMap == Dedup(old(packetSeqMap), req.beNumber, req.sequence).value
      ensures maxProcessedSequences == old(maxProcessedSequences) && bufferedChunkQueues == old(bufferedChunkQueues)
      ensures status.Error? ==> !doneTaken && chunkQueue == old(chunkQueue) && numBufferedBytes == old(numBufferedBytes)
      ensures Admitted(req.beNumber, req.sequence, false) && status.OK? ==>
                DecodeStatus(req.chunks).OK?
                && chunkQueue == old(chunkQueue) + AttachDone(DecodedItems(req.chunks), hasDone, exceedsLimit).0
                && doneTaken == AttachDone(DecodedItems(req.chunks), hasDone, exceedsLimit).1
                && numBufferedBytes == old(numBufferedBytes) + ItemBytes(DecodedItems(req.chunks))
    {
      var admitted := Admit(req.beNumber, req.sequence, false);
      if !admitted {
        return OK, false;
      }
      status, doneTaken := AddAdmitted(req, false, hasDone, exceedsLimit);
    }

    /**
     * Adds a packet of chunks from sender `req.beNumber`, keeping each sender's sequence order.
     * A cancelled queue takes nothing; otherwise the sender's mark and buffer are created on
     * first use, and a packet arriving after every sender has finished is dropped. The chunk
     * meta is built as for `AddChunks` and the chunks are deserialized; they are parked under
     * their sequence and the sender's buffer is flushed into the ready queue. The packet's bytes
     * join the buffered count on arrival, flushed or not.
     */
    method AddChunksAndKeepOrder(req: Request, hasDone: bool, exceedsLimit: bool) returns (status: Status, doneTaken: bool)
      requires Valid() && req.chunks != []
      requires chunkMeta.types == [] ==> MetaBuildable(chunkMeta, req.chunks[0])
      modifies this`packetSeqMap, this`maxProcessedSequences, this`bufferedChunkQueues, this`chunkMeta,
               this`chunkQueue, this`numBufferedBytes
      ensures Valid()
      ensures packetSeqMap == old(packetSeqMap)
      ensures !Admitted(req.beNumber, req.sequence, true) ==> status == OK && !doneTaken
      ensures !Admitted(req.beNumber, req.sequence, true) ==>
                chunkQueue == old(chunkQueue) && chunkMeta == old(chunkMeta) && numBufferedBytes == old(numBufferedBytes)
      ensures old(isCancelled) ==> unchanged(this)
      ensures status.Error? ==> !doneTaken && chunkQueue == old(chunkQueue) && numBufferedBytes == old(numBufferedBytes)
      ensures Admitted(req.beNumber, req.sequence, true) && status.OK? ==>
                var parked := AttachDone(DecodedItems(req.chunks), hasDone, exceedsLimit);
                var f := ParkAndFlush(old(bufferedChunkQueues), old(maxProcessedSequences), req.beNumber, req.sequence, parked.0);
                DecodeStatus(req.chunks).OK? && doneTaken == parked.1
                && chunkQueue == old(chunkQueue) + f.ready
                && bufferedChunkQueues == old(bufferedChunkQueues)[req.beNumber := f.rest]
                && maxProcessedSequences == old(maxProcessedSequences)[req.beNumber := f.maxProcessed]
                && numBufferedBytes == old(numBufferedBytes) + ItemBytes(DecodedItems(req.chunks))
    {
      if isCancelled {
        return OK, false;
      }
      var be := req.beNumber;
      var marks, buffers := maxProcessedSequences, bufferedChunkQueues;
      maxProcessedSequences := marks[be := MarkOf(marks, be)];
      bufferedChunkQueues := buffers[be := BufferOf(buffers, be)];
      if numRemainingSenders <= 0 {
        return OK, false;
      }
      status, doneTaken := AddAdmitted(req, true, hasDone, exceedsLimit);
      if status.OK? {
        var f := ParkAndFlush(buffers, marks, be, req.sequence, AttachDone(DecodedItems(req.chunks), hasDone, exceedsLimit).0);
        UpdateTwice(marks, be, MarkOf(marks, be), f.maxProcessed);
        UpdateTwice(buffers, be, BufferOf(buffers, be), f.rest);
      }
    }

    /**
     * The rest of adding an admitted packet: the chunk meta, deserialization and the queueing
     * or parking of the chunks. A failure leaves the queues and the byte count alone.
     */
    method AddAdmitted(req: Request, keepOrder: bool, hasDone: bool, exceedsLimit: bool)
      returns (status: Status, doneTaken: bool)
      requires Valid() && req.chunks != []
      requires chunkMeta.types == [] ==> MetaBuildable(chunkMeta, req.chunks[0])
      requires keepOrder ==> req.beNumber in maxProcessedSequences && req.beNumber in bufferedChunkQueues
      modifies this`chunkMeta, this`chunkQueue, this`bufferedChunkQueues, this`maxProcessedSequences,
               this`numBufferedBytes
      ensures Valid()
      ensures status.Error? ==> !doneTaken && chunkQueue == old(chunkQueue) && numBufferedBytes == old(numBufferedBytes)
                                && bufferedChunkQueues == old(bufferedChunkQueues)
                                && maxProcessedSequences == old(maxProcessedSequences)
      ensures status.Error? && old(chunkMeta.types) != [] ==> status == DecodeStatus(req.chunks)
      ensures status.OK? && old(chunkMeta.types) == [] ==>
                req.chunks[0].isNulls != [] && chunkMeta.isNulls == req.chunks[0].isNulls
                && MatchedCount(rowDesc, chunkMeta.slotIdToIndex.Keys) == |req.chunks[0].isNulls|
      ensures status.OK? ==>
                DecodeStatus(req.chunks).OK?
                && doneTaken == AttachDone(DecodedItems(req.chunks), hasDone, exceedsLimit).1
                && numBufferedBytes == old(numBufferedBytes) + ItemBytes(DecodedItems(req.chunks))
      ensures !keepOrder ==> bufferedChunkQueues == old(bufferedChunkQueues)
                             && maxProcessedSequences == old(maxProcessedSequences)
      ensures status.OK? && !keepOrder ==>
                chunkQueue == old(chunkQueue) + AttachDone(DecodedItems(req.chunks), hasDone, exceedsLimit).0
      ensures status.OK? && keepOrder ==>
                var f := ParkAndFlush(old(bufferedChunkQueues), old(maxProcessedSequences), req.beNumber, req.sequence,
                                      AttachDone(DecodedItems(req.chunks), hasDone, exceedsLimit).0);
                chunkQueue == old(chunkQueue) + f.ready
                && bufferedChunkQueues == old(bufferedChunkQueues)[req.beNumber := f.rest]
                && maxProcessedSequences == old(maxProcessedSequences)[req.beNumber := f.maxProcessed]
    {
      status := EnsureChunkMeta(req.chunks[0]);
      if status.Error? {
        return status, false;
      }
      var items, total;
      status, items, total := DeserializeChunks(req.chunks);
      if status.Error? {
        return status, false;
      }
      doneTaken := Enqueue(req.beNumber, req.sequence, items, total, keepOrder, hasDone, exceedsLimit);
    }

    /** Builds the chunk meta from `pb` unless column types are already known. */
    method EnsureChunkMeta(pb: ChunkPB) returns (status: Status)
      requires chunkMeta.types == [] ==> MetaBuildable(chunkMeta, pb)
      modifies this`chunkMeta
      ensures old(chunkMeta.types) != [] ==> status == OK && chunkMeta == old(chunkMeta)
      ensures status.Error? ==> status.code == InternalError
      ensures old(chunkMeta.types) == [] && status.OK? ==>
                pb.isNulls != [] && chunkMeta.isNulls == pb.isNulls
                && MatchedCount(rowDesc, chunkMeta.slotIdToIndex.Keys) == |pb.isNulls|
    {
      status := OK;
      if chunkMeta.types == [] {
        var meta;
        status, meta := BuildChunkMeta(chunkMeta, pb, rowDesc);
        chunkMeta := meta;
      }
    }

    /** The last locked phase of adding a packet: the deserialized chunks are queued or parked. */
    method Enqueue(be: int, sequence: int, items: seq<ChunkItem>, total: nat, keepOrder: bool, hasDone: bool,
                   exceedsLimit: bool) returns (doneTaken: bool)
      requires Valid() && total == ItemBytes(items)
      requires keepOrder ==> be in maxProcessedSequences && be in bufferedChunkQueues
      modifies this`chunkQueue, this`bufferedChunkQueues, this`maxProcessedSequences, this`numBufferedBytes
      ensures Valid()
      ensures doneTaken == AttachDone(items, hasDone, exceedsLimit).1
      ensures numBufferedBytes == old(numBufferedBytes) + total
      ensures !keepOrder ==> chunkQueue == old(chunkQueue) + AttachDone(items, hasDone, exceedsLimit).0
                             && bufferedChunkQueues == old(bufferedChunkQueues)
                             && maxProcessedSequences == old(maxProcessedSequences)
      ensures keepOrder ==>
                var f := ParkAndFlush(old(bufferedChunkQueues), old(maxProcessedSequences), be, sequence,
                                      AttachDone(items, hasDone, exceedsLimit).0);
                chunkQueue == old(chunkQueue) + f.ready
                && bufferedChunkQueues == old(bufferedChunkQueues)[be := f.rest]
                && maxProcessedSequences == old(maxProcessedSequences)[be := f.maxProcessed]
    {
      var attached := AttachDone(items, hasDone, exceedsLimit);
      doneTaken := attached.1;
      if !keepOrder {
        chunkQueue := chunkQueue + attached.0;
      } else {
        var buf := bufferedChunkQueues[be][sequence := attached.0];
        var ready, rest, mark := FlushBuffer(buf, maxProcessedSequences[be]);
        FlushSettles(maxProcessedSequences, bufferedChunkQueues, be, buf, maxProcessedSequences[be]);
        chunkQueue := chunkQueue + ready;
        bufferedChunkQueues := bufferedChunkQueues[be := rest];
        maxProcessedSequences := maxProcessedSequences[be := mark];
      }
      numBufferedBytes := numBufferedBytes + total;
    }

    /** A sender's end of stream: the countdown drops once per distinct sender. */
    method DecrementSenders(be: int)
      requires Valid()
      modifies this
      ensures Valid()
      ensures (senderEosSet, numRemainingSenders) == Decrement(old(senderEosSet), old(numRemainingSenders), be)
      ensures isCancelled == old(isCancelled) && chunkQueue == old(chunkQueue)
      ensures numBufferedBytes == old(numBufferedBytes) && packetSeqMap == old(packetSeqMap)
      ensures maxProcessedSequences == old(maxProcessedSequences)
      ensures bufferedChunkQueues == old(bufferedChunkQueues) && chunkMeta == old(chunkMeta)
    {
      if be in senderEosSet {
        return;
      }
      senderEosSet := senderEosSet + {be};
      numRemainingSenders := numRemainingSenders - 1;
    }

    /** Drops the ready queue and every reorder buffer; their closures are run. */
    method CleanBufferQueues()
      requires Valid()
      modifies this
      ensures Valid()
      ensures chunkQueue == [] && bufferedChunkQueues == map[]
      ensures isCancelled == old(isCancelled) && numRemainingSenders == old(numRemainingSenders)
      ensures senderEosSet == old(senderEosSet) && numBufferedBytes == old(numBufferedBytes)
      ensures packetSeqMap == old(packetSeqMap) && maxProcessedSequences == old(maxProcessedSequences)
      ensures chunkMeta == old(chunkMeta)
    {
      chunkQueue := [];
      bufferedChunkQueues := map[];
    }

    /** Cancels the queue once; a second cancel does nothing. */
    method Cancel()
      requires Valid()
      modifies this
      ensures Valid()
      ensures old(isCancelled) ==> unchanged(this)
      ensures !old(isCancelled) ==> isCancelled && chunkQueue == [] && bufferedChunkQueues == map[]
                                    && numRemainingSenders == old(numRemainingSenders)
                                    && senderEosSet == old(senderEosSet)
                                    && numBufferedBytes == old(numBufferedBytes)
    {
      if isCancelled {
        return;
      }
      isCancelled := true;
      CleanBufferQueues();
    }

    /** Closes the queue: it is marked cancelled so that no later packet is kept, and emptied. */
    method Close()
      requires Valid()
      modifies this
      ensures Valid()
      ensures isCancelled && chunkQueue == [] && bufferedChunkQueues == map[]
      ensures numRemainingSenders == old(numRemainingSenders) && senderEosSet == old(senderEosSet)
      ensures numBufferedBytes == old(numBufferedBytes)
    {
      isCancelled := true;
      CleanBufferQueues();
    }
  }
}
