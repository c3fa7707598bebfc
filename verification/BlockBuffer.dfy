/** The buffer of blocks that arrived ahead of the chain: a queue without repetition per height. */
module BlockBuffers {
  import opened Actions
  import opened SyncIntervals

  datatype Block = Block(height: nat, hash: Hash)

  /** A block, and the peer that sent it. */
  datatype PeerBlock = PeerBlock(pid: string, block: Block)

  function HashesIn(blks: seq<PeerBlock>): set<Hash> {
    set b | b in blks :: b.block.hash
  }

  /** enque, on values */
  function Enqueued(blks: seq<PeerBlock>, blk: PeerBlock): seq<PeerBlock> {
    if blk.block.hash in HashesIn(blks) then blks else blks + [blk]
  }

  /** No hash occurs twice. */
  ghost predicate Distinct(blks: seq<PeerBlock>) {
    forall i, j :: 0 <= i < j < |blks| ==> blks[i].block.hash != blks[j].block.hash
  }

  lemma EnqueuedIsDistinct(blks: seq<PeerBlock>, blk: PeerBlock)
    requires Distinct(blks)
    ensures Distinct(Enqueued(blks, blk))
    ensures HashesIn(Enqueued(blks, blk)) == HashesIn(blks) + {blk.block.hash}
  {
    var r := Enqueued(blks, blk);
    if blk.block.hash !in HashesIn(blks) {
      assert forall i :: 0 <= i < |blks| ==> blks[i] in blks;
      assert blk in r && forall b :: b in r <==> b in blks || b == blk;
    }
  }

  ghost predicate HasHash(blks: seq<PeerBlock>, hash: Hash) {
    exists i :: 0 <= i < |blks| && blks[i].block.hash == hash
  }

  /** A block goes to the end of its queue, unless the queue has its hash already. */
  lemma EnqueuedMeans(blks: seq<PeerBlock>, blk: PeerBlock)
    ensures Enqueued(blks, blk) == if HasHash(blks, blk.block.hash) then blks else blks + [blk]
  {
    if HasHash(blks, blk.block.hash) {
      var i :| 0 <= i < |blks| && blks[i].block.hash == blk.block.hash;
      assert blks[i] in blks;
    }
  }

  class UniQueue {
    var blocks: seq<PeerBlock>
    var hashes: set<Hash>

    ghost predicate Valid()
      reads this
    {
      hashes == HashesIn(blocks) && Distinct(blocks)
    }

    constructor ()
      ensures Valid() && blocks == []
    {
      blocks, hashes := [], {};
    }

    /** enque */
    method Enque(blk: PeerBlock)
      requires Valid()
      modifies this
      ensures Valid() && blocks == Enqueued(old(blocks), blk)
      ensures blocks == if HasHash(old(blocks), blk.block.hash) then old(blocks) else old(blocks) + [blk]
    {
      EnqueuedMeans(blocks, blk);
      var h := blk.block.hash;
      if h in hashes {
        return;
      }
      EnqueuedIsDistinct(blocks, blk);
      hashes := hashes + {h};
      blocks := blocks + [blk];
    }

    /** dequeAll */
    method DequeAll() returns (blks: seq<PeerBlock>)
      requires Valid()
      modifies this
      ensures Valid() && blks == old(blocks) && blocks == []
    {
      blks := blocks;
      if |blocks| > 0 {
        blocks, hashes := [], {};
      }
    }
  }

  /** AddBlock, on values: what becomes of the buffered blocks, and the two answers. */
  function Buffered(queues: map<nat, seq<PeerBlock>>, bufferSize: nat, tip: nat, blk: PeerBlock)
    : map<nat, seq<PeerBlock>>
  {
    var h := blk.block.height;
    if h <= tip || h > tip + bufferSize then queues
    else queues[h := Enqueued(if h in queues then queues[h] else [], blk)]
  }

  /**
   Only a block above the tip, but no further than the buffer reaches, is taken: it goes to the end of
   the queue for its height, unless that has its hash already. No other height is touched.
   */
  lemma BufferedMeans(queues: map<nat, seq<PeerBlock>>, bufferSize: nat, tip: nat, blk: PeerBlock)
    ensures
      var r, h := Buffered(queues, bufferSize, tip, blk), blk.block.height;
      && (h <= tip || h > tip + bufferSize ==> r == queues)
      && (tip < h <= tip + bufferSize ==>
            && r.Keys == queues.Keys + {h} && (forall k | k in queues && k != h :: r[k] == queues[k])
            && (h !in queues ==> r[h] == [blk])
            && (h in queues && HasHash(queues[h], blk.block.hash) ==> r[h] == queues[h])
            && (h in queues && !HasHash(queues[h], blk.block.hash) ==> r[h] == queues[h] + [blk]))
  {
    var h := blk.block.height;
    EnqueuedMeans(if h in queues then queues[h] else [], blk);
  }

  class BlockBuffer {
    var blockQueues: map<nat, UniQueue>
    const bufferSize: nat
    const intervalSize: nat

    /** The buffered blocks by height, as a value. */
    ghost var queues: map<nat, seq<PeerBlock>>

    ghost predicate Valid()
      reads this, blockQueues.Values
    {
      && queues.Keys == blockQueues.Keys
      && (forall h {:trigger blockQueues[h]} | h in blockQueues ::
            blockQueues[h].Valid() && blockQueues[h].blocks == queues[h])
      && forall h, k {:trigger blockQueues[h], blockQueues[k]} | h in blockQueues && k in blockQueues && h != k ::
           blockQueues[h] != blockQueues[k]
    }

    constructor (bufferSize: nat, intervalSize: nat)
      ensures Valid() && queues == map[] && blockQueues == map[]
      ensures this.bufferSize == bufferSize && this.intervalSize == intervalSize
    {
      this.bufferSize, this.intervalSize, blockQueues, queues := bufferSize, intervalSize, map[], map[];
    }

    /** Pop */
    method Pop(height: nat) returns (blks: seq<PeerBlock>)
      requires Valid()
      modifies this, blockQueues.Values
      ensures Valid() && blockQueues.Values <= old(blockQueues.Values)
      ensures queues == old(queues) - {height}
      ensures blks == if height in old(queues) then old(queues)[height] else []
    {
      if height !in blockQueues {
        assert queues - {height} == queues;
        return [];
      }
      var queue := blockQueues[height];
      blks := queue.DequeAll();
      blockQueues, queues := blockQueues - {height}, queues - {height};
    }

    /** AddBlock */
    method AddBlock(tipHeight: nat, blk: PeerBlock) returns (added: bool, height: nat)
      requires Valid()
      modifies this, blockQueues.Values
      ensures Valid() && fresh(blockQueues.Values - old(blockQueues.Values))
      ensures queues == Buffered(old(queues), bufferSize, tipHeight, blk)
      ensures added <==> tipHeight < blk.block.height <= tipHeight + bufferSize
      ensures height == if blk.block.height > tipHeight + bufferSize then tipHeight + bufferSize else blk.block.height
    {
      var h := blk.block.height;
      if h <= tipHeight {
        return false, h;
      }
      if h > tipHeight + bufferSize {
        return false, tipHeight + bufferSize;
      }
      Open(h);
      EnqueAt(h, blk);
      return true, h;
    }

    method EnqueAt(h: nat, blk: PeerBlock)
      requires Valid() && h in queues
      modifies this`queues, blockQueues[h]
      ensures Valid() && queues == old(queues)[h := Enqueued(old(queues)[h], blk)]
    {
      blockQueues[h].Enque(blk);
      queues := queues[h := Enqueued(queues[h], blk)];
    }

    /** A height that is new to the buffer gets an empty queue. */
    method Open(h: nat)
      requires Valid()
      modifies this
      ensures Valid() && h in queues && fresh(blockQueues.Values - old(blockQueues.Values))
      ensures queues == if h in old(queues) then old(queues) else old(queues)[h := []]
    {
      if h !in blockQueues {
        var queue := new UniQueue();
        blockQueues, queues := blockQueues[h := queue], queues[h := []];
      }
    }

    /** GetBlocksIntervalsToSync */
    method GetBlocksIntervalsToSync(confirmedHeight: nat, target: nat) returns (bi: seq<Interval>)
      requires Valid()
      ensures bi == Requests(queues.Keys, confirmedHeight,
                             ClampedTarget(confirmedHeight, target, bufferSize, intervalSize), intervalSize)
      ensures AsksFor(bi, queues.Keys, confirmedHeight, target, bufferSize, intervalSize)
    {
      var targetHeight := target;
      if targetHeight > confirmedHeight + bufferSize {
        targetHeight := confirmedHeight + bufferSize;
      }
      if targetHeight < confirmedHeight + intervalSize {
        targetHeight := confirmedHeight + intervalSize;
      }
      var start: nat, startSet, iLen: nat, h := 0, false, 0, confirmedHeight + 1;
      bi := [];
      ghost var buffered := queues.Keys;
      while h <= targetHeight
        invariant confirmedHeight < h <= targetHeight + 1
        invariant Scan(bi, start, startSet, iLen) == ScanTo(buffered, confirmedHeight, h - 1, intervalSize)
      {
        if h !in blockQueues {
          iLen := iLen + 1;
          if !startSet {
            start, startSet := h, true;
          }
          if iLen >= intervalSize {
            bi := bi + [Interval(start, h)];
            startSet, iLen := false, 0;
          }
          h := h + 1;
          continue;
        }
        if startSet {
          bi := bi + [Interval(start, h - 1)];
          startSet, iLen := false, 0;
        }
        h := h + 1;
      }
      if startSet {
        bi := bi + [Interval(start, targetHeight)];
      }
      RequestsAreRight(buffered, confirmedHeight, target, bufferSize, intervalSize, bi);
    }
  }
}
