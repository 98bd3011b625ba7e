/**
 * The RETURN executor: one `produceRow` call pulls one row from a
 * single-row fetcher and either copies the whole row to the output
 * ("inherit" mode) or moves the value of one input register into output
 * register 0 ("project" mode), invalidating the input cell.
 */
module ReturnExecution {
  import opened AqlCore

  /** The register the projected value is written to: the only member of the
      output register set in project mode. */
  const OutputRegister: RegisterId := 0

  /** Configuration of a RETURN executor. */
  datatype ReturnExecutorInfos = ReturnExecutorInfos(
    inputRegisters: set<RegisterId>,
    outputRegisters: set<RegisterId>,
    nrInputRegisters: RegisterId,
    nrOutputRegisters: RegisterId,
    registersToClear: set<RegisterId>,
    registersToKeep: set<RegisterId>,
    inputRegisterId: RegisterId,
    doCount: bool,
    returnInheritedResults: bool)

  /** The constructor of the configuration record. */
  function MakeReturnExecutorInfos(inputRegister: RegisterId, nrInputRegisters: RegisterId,
                                   nrOutputRegisters: RegisterId, doCount: bool,
                                   returnInheritedResults: bool): (infos: ReturnExecutorInfos)
    ensures infos.inputRegisters == {inputRegister}
    ensures returnInheritedResults ==> infos.outputRegisters == {}
    ensures !returnInheritedResults ==> infos.outputRegisters == {OutputRegister}
    ensures infos.registersToClear == {} && infos.registersToKeep == {}
    ensures infos.nrInputRegisters == nrInputRegisters && infos.nrOutputRegisters == nrOutputRegisters
    ensures infos.inputRegisterId == inputRegister
    ensures infos.doCount == doCount && infos.returnInheritedResults == returnInheritedResults
  {
    ReturnExecutorInfos({inputRegister},
                        if returnInheritedResults then {} else {OutputRegister},
                        nrInputRegisters, nrOutputRegisters, {}, {},
                        inputRegister, doCount, returnInheritedResults)
  }

  /** One reply of the upstream fetcher: a state and maybe a row. */
  datatype RowReply = RowReply(state: ExecutionState, row: Option<Row>)

  /** What the fetcher promises: WAITING carries no row, and a reply without a
      row is WAITING or DONE. */
  predicate WellFormedReply(reply: RowReply) {
    && (reply.state == Waiting ==> reply.row.None?)
    && (reply.row.None? ==> reply.state != HasMore)
  }

  /** An input row view: a cursor into the fetcher's block, or the invalid row. */
  datatype InputRow = InvalidRow | RowAt(index: nat)

  /** A single-row fetcher driven by a scripted sequence of replies. The script
      is also the block the handed-out row views point into, so stealing a
      value changes the cell in the script. Once the script is used up the
      fetcher answers DONE without a row. */
  class ScriptedRowFetcher {
    var replies: seq<RowReply>
    var pos: nat

    ghost predicate Valid()
      reads this
    {
      && pos <= |replies|
      && forall i :: 0 <= i < |replies| ==> WellFormedReply(replies[i])
    }

    constructor (script: seq<RowReply>)
      requires forall i :: 0 <= i < |script| ==> WellFormedReply(script[i])
      ensures Valid() && replies == script && pos == 0
    {
      replies := script;
      pos := 0;
    }

    /** The reply the next `FetchRow` will hand out. */
    function NextReply(): RowReply
      reads this
    {
      if pos < |replies| then replies[pos] else RowReply(Done, None)
    }

    method FetchRow() returns (state: ExecutionState, input: InputRow)
      requires Valid()
      modifies this`pos
      ensures Valid()
      ensures state == old(NextReply()).state
      ensures old(pos) < |replies| ==> pos == old(pos) + 1
      ensures old(pos) == |replies| ==> pos == old(pos)
      ensures input.RowAt? <==> old(NextReply()).row.Some?
      ensures input.RowAt? ==> input.index == old(pos) && input.index < |replies|
    {
      state := NextReply().state;
      if pos < |replies| {
        input := if replies[pos].row.Some? then RowAt(pos) else InvalidRow;
        pos := pos + 1;
      } else {
        input := InvalidRow;
      }
    }

    /** Moves the value of register `reg` out of the row under `input`,
        leaving the cell marked as moved out. */
    method StealValue(input: InputRow, reg: RegisterId) returns (v: AqlValue)
      requires Valid()
      requires input.RowAt? && input.index < |replies|
      requires replies[input.index].row.Some? && reg in replies[input.index].row.value
      modifies this`replies
      ensures Valid()
      ensures v == old(replies[input.index].row.value[reg])
      ensures replies == old(replies)[input.index :=
        RowReply(old(replies[input.index].state),
                 Some(old(replies[input.index].row.value)[reg := MovedOut]))]
    {
      var reply := replies[input.index];
      v := reply.row.value[reg];
      replies := replies[input.index := RowReply(reply.state, Some(reply.row.value[reg := MovedOut]))];
    }
  }

  /** The output block: the rows written so far, in order. */
  class OutputBlock {
    var rows: seq<Row>

    constructor ()
      ensures rows == []
    {
      rows := [];
    }

    /** Writes a copy of the whole input row. */
    method CopyRow(row: Row)
      modifies this
      ensures rows == old(rows) + [row]
    {
      rows := rows + [row];
    }

    /** Writes `v` into register `reg` of a new output row; with no registers
        to keep, nothing else of the input row is carried over. */
    method CloneValueInto(reg: RegisterId, v: AqlValue)
      modifies this
      ensures rows == old(rows) + [map[reg := v]]
    {
      rows := rows + [map[reg := v]];
    }
  }

  /** The observable outcome of one `produceRow` given the fetcher's reply: the
      state returned, the row written (if any), the input row as it is left
      behind, and the statistics. */
  datatype Produced = Produced(state: ExecutionState, output: Option<Row>,
                               input: Option<Row>, stats: CountStats)

  /** Whether a reply reaches the copy/move branch of `produceRow`. */
  predicate Delivers(reply: RowReply) {
    reply.state != Waiting && reply.row.Some?
  }

  /** In project mode the input register must exist in every delivered row. */
  predicate Projectable(infos: ReturnExecutorInfos, reply: RowReply) {
    Delivers(reply) && !infos.returnInheritedResults ==> infos.inputRegisterId in reply.row.value
  }

  /** Specification of one `produceRow` call. */
  function ProduceRowSpec(infos: ReturnExecutorInfos, reply: RowReply): (p: Produced)
    requires Projectable(infos, reply)
    ensures p.state == reply.state
    ensures p.output.Some? <==> Delivers(reply)
    ensures p.stats.counted == (if p.output.Some? && infos.doCount then 1 else 0)
    ensures p.output.None? ==> p.input == reply.row
    ensures p.output.Some? && infos.returnInheritedResults ==>
              p.output.value == reply.row.value && p.input == reply.row
    ensures p.output.Some? && !infos.returnInheritedResults ==>
              && p.output.value == map[OutputRegister := reply.row.value[infos.inputRegisterId]]
              && p.input == Some(reply.row.value[infos.inputRegisterId := MovedOut])
  {
    if reply.state == Waiting || reply.row.None? then
      Produced(reply.state, None, reply.row, CountStats(0))
    else
      var row := reply.row.value;
      var counted := if infos.doCount then 1 else 0;
      if infos.returnInheritedResults then
        Produced(reply.state, Some(row), Some(row), CountStats(counted))
      else
        var reg := infos.inputRegisterId;
        Produced(reply.state, Some(map[OutputRegister := row[reg]]), Some(row[reg := MovedOut]),
                 CountStats(counted))
  }

  class ReturnExecutor {
    const passBlocksThrough: bool
    const infos: ReturnExecutorInfos
    const fetcher: ScriptedRowFetcher

    /** The template parameter agrees with the configured mode, and in project
        mode every row upstream will deliver holds the input register. */
    ghost predicate Valid()
      reads this, fetcher
    {
      && fetcher.Valid()
      && passBlocksThrough == infos.returnInheritedResults
      && forall i :: 0 <= i < |fetcher.replies| ==> Projectable(infos, fetcher.replies[i])
    }

    constructor (fetcher: ScriptedRowFetcher, infos: ReturnExecutorInfos, passBlocksThrough: bool)
      requires fetcher.Valid()
      requires passBlocksThrough == infos.returnInheritedResults
      requires forall i :: 0 <= i < |fetcher.replies| ==> Projectable(infos, fetcher.replies[i])
      ensures Valid()
      ensures this.fetcher == fetcher && this.infos == infos
      ensures this.passBlocksThrough == passBlocksThrough
    {
      this.fetcher := fetcher;
      this.infos := infos;
      this.passBlocksThrough := passBlocksThrough;
    }

    method ProduceRow(output: OutputBlock) returns (state: ExecutionState, stats: CountStats)
      requires Valid()
      modifies fetcher, output
      ensures Valid()
      ensures var reply := old(fetcher.NextReply());
              var p := ProduceRowSpec(infos, reply);
              && state == p.state
              && stats == p.stats
              && output.rows == old(output.rows) + OptionToSeq(p.output)
              && |fetcher.replies| == old(|fetcher.replies|)
              && fetcher.pos == (if old(fetcher.pos) < |fetcher.replies| then old(fetcher.pos) + 1 else old(fetcher.pos))
              && (if old(fetcher.pos) < old(|fetcher.replies|)
                  then fetcher.replies == old(fetcher.replies)[old(fetcher.pos) := RowReply(reply.state, p.input)]
                  else fetcher.replies == old(fetcher.replies))
    {
      ghost var reply := fetcher.NextReply();
      ghost var p := ProduceRowSpec(infos, reply);
      stats := CountStats(0);
      var inputRow;
      state, inputRow := fetcher.FetchRow();

      if state == Waiting {
        return;
      }
      if inputRow.InvalidRow? {
        return;
      }

      if infos.returnInheritedResults {
        output.CopyRow(fetcher.replies[inputRow.index].row.value);
      } else {
        var val := fetcher.StealValue(inputRow, infos.inputRegisterId);
        output.CloneValueInto(OutputRegister, val);
      }

      if infos.doCount {
        stats := CountStats(stats.counted + 1);
      }
    }
  }

  // ---------------------------------------------------------------------------
  // Repeated calls: what a consumer observes when it drives produceRow over a
  // whole script of fetcher replies.

  /** The rows upstream delivers to the copy/move branch, in order. */
  function DeliveredRows(replies: seq<RowReply>): (rows: seq<Row>)
    ensures |rows| <= |replies|
  {
    if replies == [] then []
    else DeliveredRows(replies[..|replies| - 1])
         + (var last := replies[|replies| - 1]; if Delivers(last) then [last.row.value] else [])
  }

  /** The output rows and total count produced by one `produceRow` per reply. */
  function Drive(infos: ReturnExecutorInfos, replies: seq<RowReply>): (r: (seq<Row>, nat))
    requires forall i :: 0 <= i < |replies| ==> Projectable(infos, replies[i])
  {
    if replies == [] then ([], 0)
    else
      var prev := Drive(infos, replies[..|replies| - 1]);
      var p := ProduceRowSpec(infos, replies[|replies| - 1]);
      (prev.0 + OptionToSeq(p.output), prev.1 + p.stats.counted)
  }

  /** Driving the executor over a script produces one output row per delivered
      row, in order: the row itself in inherit mode, the projected register in
      project mode; the count rises by exactly one per row when counting. */
  lemma {:induction false} DriveProducesDeliveredRows(infos: ReturnExecutorInfos, replies: seq<RowReply>)
    requires forall i :: 0 <= i < |replies| ==> Projectable(infos, replies[i])
    ensures var (outs, counted) := Drive(infos, replies);
            var rows := DeliveredRows(replies);
            && |outs| == |rows|
            && counted == (if infos.doCount then |rows| else 0)
            && (infos.returnInheritedResults ==> outs == rows)
            && (!infos.returnInheritedResults ==>
                  forall k :: 0 <= k < |rows| ==>
                    && infos.inputRegisterId in rows[k]
                    && outs[k] == map[OutputRegister := rows[k][infos.inputRegisterId]])
  {
    if replies != [] {
      var init := replies[..|replies| - 1];
      assert forall i :: 0 <= i < |init| ==> init[i] == replies[i];
      DriveProducesDeliveredRows(infos, init);
    }
  }
}
