/** The per-source index of a file (`INDEX/<device>`): for each train position,
    the rows of the source's datasets that belong to that train. Two on-disk
    encodings exist and are told apart by the presence of a `last` column. */
module IndexTable {
  import opened Wrappers
  import opened Records

  /** The columns of an index group, each possibly absent. The legacy
      encoding has `first`, `last` and `status`; the current one has `first`
      and `count`. A group lacking a column the reader looks up is kept
      representable: reading it raises `KeyError`. */
  datatype Table = Table(first: Option<seq<nat>>, last: Option<seq<int>>, status: Option<seq<int>>, count: Option<seq<nat>>)

  /** A group in the legacy encoding. */
  function Legacy(first: seq<nat>, last: seq<int>, status: seq<int>): Table
  {
    Table(Some(first), Some(last), Some(status), None)
  }

  /** A group in the current encoding. */
  function Current(first: seq<nat>, count: seq<nat>): Table
  {
    Table(Some(first), None, None, Some(count))
  }

  /** An inclusive row range `[first, last]`. */
  datatype Range = Range(first: nat, last: int)

  function RowCount(rg: Range): int
  {
    rg.last - rg.first + 1
  }

  /** The group has every column the reader looks up: `first`, and `status`
      beside `last`, or `count` when there is no `last`. */
  predicate HasColumns(t: Table)
  {
    t.first.Some? && (if t.last.Some? then t.status.Some? else t.count.Some?)
  }

  /** Reading row `p` of every column the reader looks up succeeds. */
  predicate HasRow(t: Table, p: nat)
  {
    && HasColumns(t)
    && p < |t.first.value|
    && if t.last.Some? then p < |t.last.value| && p < |t.status.value| else p < |t.count.value|
  }

  /** The rows of the source for the train at position `p`, or `None` when the
      source recorded nothing for that train. The columns are read in the
      order `first`, then `last` and `status`, or `count`: a missing column
      raises `KeyError`, a position past the end of a column `IndexError`,
      whichever comes first. */
  function RowRange(t: Table, p: nat): (r: Result<Option<Range>, Error>)
    ensures r.Success? <==> HasRow(t, p)
    ensures r.Failure? ==> r.error == PositionOutOfRange(p) || r.error.MissingColumn?
    ensures t.first.None? ==> r == Failure(MissingColumn("first"))
    ensures HasColumns(t) && r.Failure? ==> r.error == PositionOutOfRange(p)
    ensures r.Failure? && r.error.MissingColumn? ==> !HasColumns(t)
    ensures r.Success? && t.last.Some? ==>
      (r.value.Some? <==> t.status.value[p] != 0)
      && (r.value.Some? ==> r.value.value == Range(t.first.value[p], t.last.value[p]))
    ensures r.Success? && t.last.None? ==>
      (r.value.Some? <==> t.count.value[p] > 0)
      && (r.value.Some? ==> r.value.value.first == t.first.value[p] && RowCount(r.value.value) == t.count.value[p])
  {
    match t.first
    case None => Failure(MissingColumn("first"))
    case Some(first) =>
      if |first| <= p then Failure(PositionOutOfRange(p))
      else if t.last.Some? then
        var last := t.last.value;
        if |last| <= p then Failure(PositionOutOfRange(p))
        else if t.status.None? then Failure(MissingColumn("status"))
        else
          var status := t.status.value;
          if |status| <= p then Failure(PositionOutOfRange(p))
          else Success(if status[p] != 0 then Some(Range(first[p], last[p])) else None)
      else if t.count.None? then Failure(MissingColumn("count"))
      else
        var count := t.count.value;
        if |count| <= p then Failure(PositionOutOfRange(p))
        else
          var lst := first[p] as int + count[p] - 1;
          Success(if count[p] > 0 then Some(Range(first[p], lst)) else None)
  }

  /** The legacy columns that describe the same trains as a `first`/`count`
      table: `last = first + count - 1` and `status = count > 0`. */
  function AsLegacy(first: seq<nat>, count: seq<nat>): (t: Table)
    requires |first| == |count|
    ensures HasColumns(t) && t.last.Some?
    ensures |t.first.value| == |t.last.value| == |t.status.value| == |first|
  {
    Legacy(first,
           seq(|first|, i requires 0 <= i < |first| => first[i] as int + count[i] - 1),
           seq(|first|, i requires 0 <= i < |first| => if count[i] > 0 then 1 else 0))
  }

  /** Both encodings give the same answer for every position: a `first`/`count`
      table reads exactly like its legacy translation. */
  lemma EncodingsAgree(first: seq<nat>, count: seq<nat>, p: nat)
    requires |first| == |count|
    ensures RowRange(Current(first, count), p) == RowRange(AsLegacy(first, count), p)
  {
  }

  /** A `last` column next to `count` wins: such a group is read in the
      legacy encoding and its `count` column is ignored. */
  lemma LastDecidesEncoding(t: Table, count: seq<nat>, p: nat)
    requires t.last.Some?
    ensures RowRange(t.(count := Some(count)), p) == RowRange(t.(count := None), p)
  {
  }
}
