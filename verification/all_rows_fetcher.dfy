/**
 * The materialising fetcher: `fetchAllRows` pulls blocks from upstream until
 * DONE and collects them into one matrix. A WAITING reply is passed on with
 * no matrix, the blocks received so far are kept, and after DONE the same
 * matrix object is returned on every call without asking upstream again.
 */
module AllRowsFetching {
  import opened AqlCore

  /** An item block: rows over a fixed number of registers. */
  datatype Block = Block(nrRegisters: nat, rows: seq<Row>)

  /** One reply of the dependency proxy: a state and maybe a block. */
  datatype BlockReply = BlockReply(state: ExecutionState, block: Option<Block>)

  /** WAITING carries no block, a reply without a block is WAITING or DONE,
      and every block is non-empty and has the proxy's register count. */
  predicate WellFormedReply(reply: BlockReply, nrRegisters: nat) {
    && (reply.state == Waiting ==> reply.block.None?)
    && (reply.block.None? ==> reply.state != HasMore)
    && (reply.block.Some? ==> reply.block.value.nrRegisters == nrRegisters && |reply.block.value.rows| > 0)
  }

  /** The blocks carried by a run of replies, in order. */
  function BlocksIn(replies: seq<BlockReply>): (blocks: seq<Block>)
    ensures |blocks| <= |replies|
  {
    if replies == [] then []
    else BlocksIn(replies[..|replies| - 1]) + OptionToSeq(replies[|replies| - 1].block)
  }

  /** The rows of a run of blocks, concatenated in order. */
  function RowsOf(blocks: seq<Block>): seq<Row> {
    if blocks == [] then [] else RowsOf(blocks[..|blocks| - 1]) + blocks[|blocks| - 1].rows
  }

  /** The index of the first reply at or after `from` that is not HASMORE, or
      the script length if there is none: where one `fetchAllRows` stops. */
  function NextStop(replies: seq<BlockReply>, from: nat): (k: nat)
    requires from <= |replies|
    ensures from <= k <= |replies|
    ensures forall i :: from <= i < k ==> replies[i].state == HasMore
    ensures k < |replies| ==> replies[k].state != HasMore
    decreases |replies| - from
  {
    if from == |replies| || replies[from].state != HasMore then from else NextStop(replies, from + 1)
  }

  /** A scripted upstream that counts its fetch calls. Once the script is used
      up it answers DONE without a block (and still counts the call). */
  class DependencyProxyMock {
    const nrRegisters: nat
    var replies: seq<BlockReply>
    var pos: nat
    var numFetchBlockCalls: nat

    ghost predicate Valid()
      reads this
    {
      && pos <= |replies|
      && pos <= numFetchBlockCalls
      && forall i :: 0 <= i < |replies| ==> WellFormedReply(replies[i], nrRegisters)
    }

    constructor (nrRegisters: nat, script: seq<BlockReply>)
      requires forall i :: 0 <= i < |script| ==> WellFormedReply(script[i], nrRegisters)
      ensures Valid()
      ensures this.nrRegisters == nrRegisters && replies == script
      ensures pos == 0 && numFetchBlockCalls == 0
    {
      this.nrRegisters := nrRegisters;
      replies := script;
      pos := 0;
      numFetchBlockCalls := 0;
    }

    /** Every scripted reply has been handed out. */
    predicate AllBlocksFetched(): (fetched: bool)
      reads this
      ensures Valid() ==> (fetched <==> replies[pos..] == [])
    {
      pos >= |replies|
    }

    method FetchBlock() returns (state: ExecutionState, block: Option<Block>)
      requires Valid()
      modifies this`pos, this`numFetchBlockCalls
      ensures Valid()
      ensures numFetchBlockCalls == old(numFetchBlockCalls) + 1
      ensures old(pos) < |replies| ==>
                pos == old(pos) + 1 && state == replies[old(pos)].state && block == replies[old(pos)].block
      ensures old(pos) == |replies| ==> pos == old(pos) && state == Done && block == None
    {
      numFetchBlockCalls := numFetchBlockCalls + 1;
      if pos < |replies| {
        state, block := replies[pos].state, replies[pos].block;
        pos := pos + 1;
      } else {
        state, block := Done, None;
      }
    }
  }

  /** Where a row of the matrix lives: block number and row within the block. */
  datatype RowIndex = RowIndex(block: nat, row: nat)

  /** All rows of one input range, kept as the list of blocks they came in. */
  class AqlItemMatrix {
    const nrRegisters: nat
    var blocks: seq<Block>

    constructor (nrRegisters: nat)
      ensures this.nrRegisters == nrRegisters && blocks == []
    {
      this.nrRegisters := nrRegisters;
      blocks := [];
    }

    function Rows(): seq<Row>
      reads this
    {
      RowsOf(blocks)
    }

    /** The number of rows over all blocks. */
    function Size(): (n: nat)
      reads this
      ensures n == |Rows()|
      ensures blocks == [] ==> n == 0
    {
      |Rows()|
    }

    predicate Empty(): (empty: bool)
      reads this
      ensures empty <==> blocks == []
      ensures empty ==> Size() == 0
    {
      blocks == []
    }

    method AddBlock(block: Block)
      modifies this
      ensures blocks == old(blocks) + [block]
    {
      blocks := blocks + [block];
    }

    predicate ValidIndex(idx: RowIndex)
      reads this
    {
      idx.block < |blocks| && idx.row < |blocks[idx.block].rows|
    }

    /** The row an index points to: one of the matrix's rows. */
    function GetRow(idx: RowIndex): (row: Row)
      reads this
      requires ValidIndex(idx)
      ensures row in Rows()
    {
      RowsOfContains(blocks, idx.block, idx.row);
      blocks[idx.block].rows[idx.row]
    }

    /** One index per row of the matrix, in row order. */
    method ProduceRowIndexes() returns (indexes: seq<RowIndex>)
      ensures |indexes| == Size()
      ensures forall i :: 0 <= i < |indexes| ==> ValidIndex(indexes[i]) && GetRow(indexes[i]) == Rows()[i]
    {
      indexes := [];
      var b := 0;
      while b < |blocks|
        invariant 0 <= b <= |blocks|
        invariant |indexes| == |RowsOf(blocks[..b])|
        invariant forall i :: 0 <= i < |indexes| ==>
                    ValidIndex(indexes[i]) && GetRow(indexes[i]) == RowsOf(blocks[..b])[i]
      {
        var r := 0;
        ghost var done := RowsOf(blocks[..b]);
        while r < |blocks[b].rows|
          invariant 0 <= r <= |blocks[b].rows|
          invariant |indexes| == |done| + r
          invariant forall i :: 0 <= i < |indexes| ==>
                      ValidIndex(indexes[i]) && GetRow(indexes[i]) == (done + blocks[b].rows[..r])[i]
        {
          indexes := indexes + [RowIndex(b, r)];
          r := r + 1;
        }
        assert blocks[..b + 1][..b] == blocks[..b];
        assert blocks[b].rows[..r] == blocks[b].rows;
        b := b + 1;
      }
      assert blocks[..b] == blocks;
    }
  }

  /** Every row of every block is one of the rows of the run. */
  lemma {:induction false} RowsOfContains(blocks: seq<Block>, b: nat, r: nat)
    requires b < |blocks| && r < |blocks[b].rows|
    ensures blocks[b].rows[r] in RowsOf(blocks)
    decreases |blocks|
  {
    var init := blocks[..|blocks| - 1];
    if b < |blocks| - 1 {
      assert init[b] == blocks[b];
      RowsOfContains(init, b, r);
    }
  }

  lemma BlocksInStep(replies: seq<BlockReply>, n: nat)
    requires n < |replies|
    ensures BlocksIn(replies[..n + 1]) == BlocksIn(replies[..n]) + OptionToSeq(replies[n].block)
  {
    assert replies[..n + 1][..n] == replies[..n];
  }

  /** The rows of two runs of blocks are the rows of the first run followed
      by those of the second. */
  lemma {:induction false} RowsOfAppend(a: seq<Block>, b: seq<Block>)
    ensures RowsOf(a + b) == RowsOf(a) + RowsOf(b)
    decreases |b|
  {
    if b == [] {
      assert a + b == a;
    } else {
      var init, last := b[..|b| - 1], b[|b| - 1];
      assert a + b == (a + init) + [last];
      RowsOfAppend(a, init);
      RowsOfSnoc(a + init, last);
      assert RowsOf(b) == RowsOf(init) + last.rows;
    }
  }

  lemma RowsOfSnoc(blocks: seq<Block>, block: Block)
    ensures RowsOf(blocks + [block]) == RowsOf(blocks) + block.rows
  {
    assert (blocks + [block])[..|blocks|] == blocks;
  }

  lemma {:induction false} BlocksInAppend(x: seq<BlockReply>, y: seq<BlockReply>)
    ensures BlocksIn(x + y) == BlocksIn(x) + BlocksIn(y)
    decreases |y|
  {
    if y == [] {
      assert x + y == x;
    } else {
      var init := y[..|y| - 1];
      assert (x + y)[..|x + y| - 1] == x + init;
      assert (x + y)[|x + y| - 1] == y[|y| - 1];
      BlocksInAppend(x, init);
    }
  }

  /** Blocks collected over two stretches of replies, e.g. before and after a
      WAITING, are the blocks of the whole stretch in order: suspension neither
      drops nor reorders blocks. */
  lemma BlocksInSplit(replies: seq<BlockReply>, i: nat, j: nat)
    requires i <= j <= |replies|
    ensures BlocksIn(replies[..j]) == BlocksIn(replies[..i]) + BlocksIn(replies[i..j])
  {
    assert replies[..j] == replies[..i] + replies[i..j];
    BlocksInAppend(replies[..i], replies[i..j]);
  }

  /** With non-empty blocks, a matrix has no rows exactly when it has no
      blocks. */
  lemma {:induction false} NoRowsIffNoBlocks(blocks: seq<Block>)
    requires forall i :: 0 <= i < |blocks| ==> |blocks[i].rows| > 0
    ensures RowsOf(blocks) == [] <==> blocks == []
  {
    if blocks != [] {
      assert |RowsOf(blocks)| >= |blocks[|blocks| - 1].rows| > 0;
    }
  }

  /** A reply script whose first DONE is at `d`: every call of `fetchAllRows`
      started before `d` stops at or before `d`, and stops exactly at `d`
      unless it meets a WAITING first. */
  lemma {:induction false} StopsAtFirstDone(replies: seq<BlockReply>, from: nat, d: nat)
    requires from <= d < |replies|
    requires replies[d].state == Done
    ensures NextStop(replies, from) <= d
    ensures NextStop(replies, from) < d ==>
              replies[NextStop(replies, from)].state in {Waiting, Done}
    decreases d - from
  {
    if replies[from].state == HasMore {
      StopsAtFirstDone(replies, from + 1, d);
    }
  }

  class AllRowsFetcher {
    const upstream: DependencyProxyMock
    var matrix: AqlItemMatrix?
    var upstreamState: ExecutionState

    /** No DONE reply among the first `n` replies. */
    static predicate NoDoneBefore(replies: seq<BlockReply>, n: int)
      requires n <= |replies|
    {
      forall i :: 0 <= i < n ==> replies[i].state != Done
    }

    /** The matrix holds exactly the blocks of the replies consumed so far.
        Before DONE every upstream call consumed a reply and no DONE reply has
        been consumed; after DONE the last call was the DONE reply, or the
        single extra call that found the script used up. */
    ghost predicate Valid()
      reads this, upstream, matrix
    {
      && upstream.Valid()
      && (matrix == null ==> upstream.pos == 0 && upstream.numFetchBlockCalls == 0 && upstreamState != Done)
      && (matrix != null ==>
            && matrix.nrRegisters == upstream.nrRegisters
            && matrix.blocks == BlocksIn(upstream.replies[..upstream.pos]))
      && (upstreamState != Done ==>
            && upstream.numFetchBlockCalls == upstream.pos
            && NoDoneBefore(upstream.replies, upstream.pos))
      && (upstreamState == Done ==>
            && matrix != null
            && NoDoneBefore(upstream.replies, upstream.pos - 1)
            && if upstream.pos > 0 && upstream.replies[upstream.pos - 1].state == Done
               then upstream.numFetchBlockCalls == upstream.pos
               else upstream.AllBlocksFetched() && upstream.numFetchBlockCalls == upstream.pos + 1)
    }

    constructor (upstream: DependencyProxyMock)
      requires upstream.Valid() && upstream.pos == 0 && upstream.numFetchBlockCalls == 0
      ensures Valid()
      ensures this.upstream == upstream && matrix == null && upstreamState == HasMore
    {
      this.upstream := upstream;
      matrix := null;
      upstreamState := HasMore;
    }

    /** Pulls one block from upstream and records the upstream state. */
    method FetchBlock() returns (state: ExecutionState, block: Option<Block>)
      requires upstream.Valid()
      modifies this`upstreamState, upstream`pos, upstream`numFetchBlockCalls
      ensures upstream.Valid()
      ensures upstream.numFetchBlockCalls == old(upstream.numFetchBlockCalls) + 1
      ensures old(upstream.pos) < |upstream.replies| ==>
                && upstream.pos == old(upstream.pos) + 1
                && state == upstream.replies[old(upstream.pos)].state
                && block == upstream.replies[old(upstream.pos)].block
      ensures old(upstream.pos) == |upstream.replies| ==>
                upstream.pos == old(upstream.pos) && state == Done && block == None
      ensures upstreamState == state
    {
      state, block := upstream.FetchBlock();
      upstreamState := state;
    }

    /** The matrix exists and holds the blocks of the replies consumed so far. */
    ghost predicate Accumulated()
      reads this, upstream, matrix
    {
      && upstream.Valid()
      && matrix != null
      && matrix.nrRegisters == upstream.nrRegisters
      && matrix.blocks == BlocksIn(upstream.replies[..upstream.pos])
    }

    /** Inside `fetchUntilDone`, started at reply `p0` and bound to stop at
        reply `k`: so far only HASMORE replies were consumed. */
    ghost predicate Pulling(p0: nat, k: nat)
      reads this, upstream, matrix
    {
      && Accumulated()
      && upstreamState != Done
      && p0 <= upstream.pos <= k
      && p0 <= |upstream.replies|
      && k == NextStop(upstream.replies, p0)
      && upstream.numFetchBlockCalls == upstream.pos
      && NoDoneBefore(upstream.replies, upstream.pos)
    }

    /** After `fetchUntilDone` stopped at reply `k` with `state`. */
    ghost predicate Stopped(k: nat, state: ExecutionState)
      reads this, upstream, matrix
    {
      && Accumulated()
      && upstreamState == state
      && k <= |upstream.replies|
      && (k < |upstream.replies| ==> upstream.replies[k].state != HasMore)
      && upstream.pos == (if k < |upstream.replies| then k + 1 else k)
      && upstream.numFetchBlockCalls == k + 1
      && NoDoneBefore(upstream.replies, k)
      && state == (if k < |upstream.replies| && upstream.replies[k].state == Waiting then Waiting else Done)
    }

    lemma StoppedIsValid(k: nat, state: ExecutionState)
      requires Stopped(k, state)
      ensures Valid()
    {
      if state == Waiting {
        assert upstream.replies[k].state == Waiting;
      }
    }

    /** Once DONE is reached over a script whose first DONE reply is at `d`,
        exactly the replies up to `d` were fetched, one call each, and the
        matrix holds their blocks in order. */
    lemma DoneAfterFirstDone(d: nat)
      requires Valid() && upstreamState == Done
      requires d < |upstream.replies| && upstream.replies[d].state == Done
      requires NoDoneBefore(upstream.replies, d)
      ensures upstream.pos == d + 1 && upstream.numFetchBlockCalls == d + 1
      ensures matrix != null && matrix.blocks == BlocksIn(upstream.replies[..d + 1])
    {
    }

    /** One iteration of the `fetchUntilDone` loop. */
    method PullBlock(ghost p0: nat, ghost k: nat) returns (state: ExecutionState)
      requires Pulling(p0, k)
      modifies this`upstreamState, upstream`pos, upstream`numFetchBlockCalls, matrix
      ensures matrix == old(matrix) && upstream.replies == old(upstream.replies)
      ensures state == HasMore ==> Pulling(p0, k) && upstream.pos == old(upstream.pos) + 1
      ensures state != HasMore ==> Stopped(k, state)
    {
      ghost var before := upstream.pos;
      var block;
      state, block := FetchBlock();
      if before < upstream.pos {
        BlocksInStep(upstream.replies, before);
      }
      if state != Waiting && block.Some? {
        matrix.AddBlock(block.value);
      }
    }

    /** Pulls blocks into the matrix until upstream says WAITING or DONE. */
    method FetchUntilDone() returns (state: ExecutionState)
      requires Valid() && upstreamState != Done
      modifies this, upstream, matrix
      ensures Valid()
      ensures upstream.replies == old(upstream.replies)
      ensures var k := NextStop(upstream.replies, old(upstream.pos));
              && upstream.numFetchBlockCalls == old(upstream.numFetchBlockCalls) + (k - old(upstream.pos)) + 1
              && upstream.pos == (if k < |upstream.replies| then k + 1 else k)
              && matrix != null
              && (old(matrix) != null ==> matrix == old(matrix))
              && (old(matrix) == null ==> fresh(matrix))
              && state == (if k < |upstream.replies| && upstream.replies[k].state == Waiting then Waiting else Done)
    {
      if matrix == null {
        matrix := new AqlItemMatrix(upstream.nrRegisters);
      }
      ghost var p0 := upstream.pos;
      ghost var k := NextStop(upstream.replies, p0);
      ghost var m := matrix;
      state := HasMore;
      while state == HasMore
        invariant matrix == m && upstream.replies == old(upstream.replies)
        invariant state == HasMore ==> Pulling(p0, k)
        invariant state != HasMore ==> Stopped(k, state)
        decreases |upstream.replies| - upstream.pos, if state == HasMore then 1 else 0
      {
        state := PullBlock(p0, k);
      }
      StoppedIsValid(k, state);
    }

    method FetchAllRows() returns (state: ExecutionState, result: AqlItemMatrix?)
      requires Valid()
      modifies this, upstream, matrix
      ensures Valid()
      ensures upstream.replies == old(upstream.replies)
      ensures old(upstreamState) == Done ==>
                && state == Done && result == matrix && matrix == old(matrix)
                && upstream.pos == old(upstream.pos)
                && upstream.numFetchBlockCalls == old(upstream.numFetchBlockCalls)
      ensures old(upstreamState) != Done ==>
                var k := NextStop(upstream.replies, old(upstream.pos));
                && upstream.numFetchBlockCalls == old(upstream.numFetchBlockCalls) + (k - old(upstream.pos)) + 1
                && upstream.pos == (if k < |upstream.replies| then k + 1 else k)
                && matrix != null
                && (old(matrix) != null ==> matrix == old(matrix))
                && (old(matrix) == null ==> fresh(matrix))
                && (if k < |upstream.replies| && upstream.replies[k].state == Waiting
                    then state == Waiting && result == null
                    else state == Done && result == matrix)
    {
      if upstreamState == Done {
        return Done, matrix;
      }
      state := FetchUntilDone();
      if state == Waiting {
        return Waiting, null;
      }
      return Done, matrix;
    }
  }

  function IntRow(v: int): Row {
    map[0 := Value(v)]
  }

  function WaitsScript(): seq<BlockReply> {
    [BlockReply(Waiting, None), BlockReply(HasMore, Some(Block(1, [IntRow(1), IntRow(2), IntRow(3)]))),
     BlockReply(Waiting, None), BlockReply(HasMore, Some(Block(1, [IntRow(4), IntRow(5)]))),
     BlockReply(Waiting, None), BlockReply(Done, Some(Block(1, [IntRow(6)])))]
  }

  /** A block appended to a run of replies shows up after the run's blocks. */
  lemma BlocksInSnoc(replies: seq<BlockReply>, reply: BlockReply)
    ensures BlocksIn(replies + [reply]) == BlocksIn(replies) + OptionToSeq(reply.block)
  {
    assert (replies + [reply])[..|replies|] == replies;
  }

  /** Three blocks, each after a WAITING, the last with DONE: the blocks
      come out in order and the WAITING replies add nothing. */
  lemma BlocksBehindWaits(b1: Block, b2: Block, b3: Block)
    ensures BlocksIn([BlockReply(Waiting, None), BlockReply(HasMore, Some(b1)),
                      BlockReply(Waiting, None), BlockReply(HasMore, Some(b2)),
                      BlockReply(Waiting, None), BlockReply(Done, Some(b3))]) == [b1, b2, b3]
  {
    var w := BlockReply(Waiting, None);
    var p0: seq<BlockReply> := [];
    BlocksInSnoc(p0, w);
    var p1 := p0 + [w];
    BlocksInSnoc(p1, BlockReply(HasMore, Some(b1)));
    var p2 := p1 + [BlockReply(HasMore, Some(b1))];
    BlocksInSnoc(p2, w);
    var p3 := p2 + [w];
    BlocksInSnoc(p3, BlockReply(HasMore, Some(b2)));
    var p4 := p3 + [BlockReply(HasMore, Some(b2))];
    BlocksInSnoc(p4, w);
    var p5 := p4 + [w];
    BlocksInSnoc(p5, BlockReply(Done, Some(b3)));
    assert p5 + [BlockReply(Done, Some(b3))]
        == [w, BlockReply(HasMore, Some(b1)), w, BlockReply(HasMore, Some(b2)), w, BlockReply(Done, Some(b3))];
  }

  lemma WaitsScriptBlocks()
    ensures BlocksIn(WaitsScript()) == [Block(1, [IntRow(1), IntRow(2), IntRow(3)]),
                                        Block(1, [IntRow(4), IntRow(5)]), Block(1, [IntRow(6)])]
  {
    BlocksBehindWaits(Block(1, [IntRow(1), IntRow(2), IntRow(3)]), Block(1, [IntRow(4), IntRow(5)]),
                      Block(1, [IntRow(6)]));
  }

  lemma WaitsScriptRows()
    ensures RowsOf(BlocksIn(WaitsScript())) == [IntRow(1), IntRow(2), IntRow(3), IntRow(4), IntRow(5), IntRow(6)]
  {
    WaitsScriptBlocks();
    var b1, b2, b3 := Block(1, [IntRow(1), IntRow(2), IntRow(3)]), Block(1, [IntRow(4), IntRow(5)]), Block(1, [IntRow(6)]);
    RowsOfAppend([b1, b2], [b3]);
    RowsOfAppend([b1], [b2]);
    assert [b1, b2] + [b3] == [b1, b2, b3];
    assert [b1] + [b2] == [b1, b2];
    assert RowsOf([b1]) == b1.rows by { assert [b1][..0] == []; }
    assert RowsOf([b2]) == b2.rows by { assert [b2][..0] == []; }
    assert RowsOf([b3]) == b3.rows by { assert [b3][..0] == []; }
  }

  lemma WaitsScriptShape()
    ensures forall i :: 0 <= i < |WaitsScript()| ==> WellFormedReply(WaitsScript()[i], 1)
    ensures |WaitsScript()| == 6 && WaitsScript()[5].state == Done
    ensures NextStop(WaitsScript(), 0) == 0 && WaitsScript()[0].state == Waiting
    ensures NextStop(WaitsScript(), 1) == 2 && WaitsScript()[2].state == Waiting
    ensures NextStop(WaitsScript(), 3) == 4 && WaitsScript()[4].state == Waiting
    ensures NextStop(WaitsScript(), 5) == 5
  {
  }

  /** The repository's scenario "multiple blocks upstream, producer waits":
      blocks [1,2,3], [4,5] and [6] arrive with a WAITING before each of
      them; the last comes together with DONE. */
  method MultipleBlocksProducerWaits()
    returns (states: seq<ExecutionState>, rows: seq<Row>, sameMatrix: bool, calls: nat, allFetched: bool)
    ensures states == [Waiting, Waiting, Waiting, Done, Done]
    ensures rows == [IntRow(1), IntRow(2), IntRow(3), IntRow(4), IntRow(5), IntRow(6)]
    ensures sameMatrix && allFetched && calls == 6
  {
    var script := WaitsScript();
    WaitsScriptShape();
    var proxy := new DependencyProxyMock(1, script);
    var testee := new AllRowsFetcher(proxy);

    var s1, m1 := testee.FetchAllRows();
    assert s1 == Waiting && proxy.pos == 1 && testee.upstreamState != Done;
    var s2, m2 := testee.FetchAllRows();
    assert s2 == Waiting && proxy.pos == 3 && testee.upstreamState != Done;
    var s3, m3 := testee.FetchAllRows();
    assert s3 == Waiting && proxy.pos == 5 && testee.upstreamState != Done;
    var s4, matrix := testee.FetchAllRows();
    assert s4 == Done && proxy.pos == 6 && proxy.numFetchBlockCalls == 6;
    var s5, matrix2 := testee.FetchAllRows();

    states := [s1, s2, s3, s4, s5];
    assert script[..6] == script;
    WaitsScriptRows();
    rows := matrix.Rows();
    sameMatrix := matrix2 == matrix;
    calls := proxy.numFetchBlockCalls;
    allFetched := proxy.AllBlocksFetched();
  }

  /** The repository's scenario "no blocks upstream, producer waits": one
      WAITING, then DONE without a block. */
  method NoBlocksProducerWaits()
    returns (states: seq<ExecutionState>, firstIsNull: bool, empty: bool, size: nat, sameMatrix: bool,
             calls: nat, allFetched: bool)
    ensures states == [Waiting, Done, Done]
    ensures firstIsNull && empty && size == 0 && sameMatrix
    ensures allFetched && calls == 2
  {
    var script := [BlockReply(Waiting, None), BlockReply(Done, None)];
    assert NextStop(script, 0) == 0 && NextStop(script, 1) == 1;
    var proxy := new DependencyProxyMock(1, script);
    var testee := new AllRowsFetcher(proxy);

    var s1, m1 := testee.FetchAllRows();
    var s2, matrix := testee.FetchAllRows();
    var s3, matrix2 := testee.FetchAllRows();

    states := [s1, s2, s3];
    firstIsNull := m1 == null;
    assert script[..2] == script;
    assert BlocksIn(script) == [] by {
      assert script[..1] == [script[0]];
      assert [script[0]][..0] == [];
    }
    empty := matrix.Empty();
    size := matrix.Size();
    sameMatrix := matrix2 == matrix;
    calls := proxy.numFetchBlockCalls;
    allFetched := proxy.AllBlocksFetched();
  }
}
