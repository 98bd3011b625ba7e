/**
 * Values shared by the row-pull protocol: the three-valued execution state,
 * register cells with an explicit moved-out marker, and rows as maps from
 * register to cell.
 */
module AqlCore {

  datatype Option<+T> = None | Some(value: T)

  /** WAITING: upstream has nothing yet, poll again; HASMORE: data was
      produced and more may follow; DONE: nothing will follow, ever. */
  datatype ExecutionState = Waiting | HasMore | Done

  type RegisterId = nat

  /** One register cell. The payload stands for an opaque AqlValue;
      `MovedOut` is what a cell holds after its value was stolen. */
  datatype AqlValue = Value(payload: int) | MovedOut

  /** A row of an item block: the registers it holds and their cells. */
  type Row = map<RegisterId, AqlValue>

  /** Statistics of an executor that counts the rows it produces. */
  datatype CountStats = CountStats(counted: nat)

  function OptionToSeq<T>(o: Option<T>): (s: seq<T>)
    ensures |s| <= 1
    ensures o.Some? <==> |s| == 1
    ensures o.Some? ==> s[0] == o.value
  {
    if o.Some? then [o.value] else []
  }
}
