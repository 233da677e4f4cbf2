/** One European XFEL HDF5 file (`H5File`): its source list, its train ids,
    and the index-driven extraction of one train's data. The HDF5 file is
    modelled as plain data: the `METADATA/dataSourceId` list, the
    `INDEX/trainId` column, the `INDEX/<device>` tables, and for every source
    the datasets below its group, flattened in visiting order. */
module H5File {
  import opened Wrappers
  import opened Text
  import opened OrderedDict
  import opened Records
  import opened IndexTable

  /** A dataset below a source's group: its path relative to the group
      (`'/'`-separated, as `visititems` reports it) and its rows. */
  datatype Leaf = Leaf(key: string, rows: seq<Value>)

  datatype File = File(
    dataSourceId: seq<string>,          // METADATA/dataSourceId
    trainIdColumn: seq<nat>,            // INDEX/trainId, zero marking unused slots
    index: map<string, Table>,          // INDEX/<source without its category>
    tables: map<string, seq<Leaf>>)     // <source> group, flattened

  /** `xs[:n]` and `xs[n:]` with Python's clamping. */
  function Take<T>(xs: seq<T>, n: nat): (r: seq<T>)
    ensures |r| == if n < |xs| then n else |xs|
    ensures r <= xs
  {
    if n < |xs| then xs[..n] else xs
  }

  function Drop<T>(xs: seq<T>, n: nat): (r: seq<T>)
    ensures Take(xs, n) + r == xs
  {
    if n < |xs| then xs[n..] else []
  }

  // ---------------------------------------------------------------------
  // Bookkeeping done when the file is opened

  /** `self.sources`: the data source names, empty names dropped. */
  function Sources(f: File): (r: seq<string>)
    ensures forall s :: s in r <==> s in f.dataSourceId && s != ""
    ensures forall a, b | f.dataSourceId == a + b :: r == DropEmpty(a) + DropEmpty(b)
  {
    forall a, b | f.dataSourceId == a + b
      ensures DropEmpty(f.dataSourceId) == DropEmpty(a) + DropEmpty(b)
    {
      DropEmptyConcat(a, b);
    }
    DropEmpty(f.dataSourceId)
  }

  /** The category of a source name: the text before its first '/'. */
  function Category(source: string): string
  {
    Split(source, '/')[0]
  }

  /** `'/'.join(nameparts[:3])`: the three segments after the category. */
  function ClassName(source: string): string
  {
    Join(Take(Split(source, '/')[1..], 3), '/')
  }

  /** The names of the sources of one category. */
  function Classified(sources: seq<string>, category: string): set<string>
  {
    set i | 0 <= i < |sources| && Category(sources[i]) == category :: ClassName(sources[i])
  }

  /** `self.control_devices`: names of the `CONTROL/...` sources. */
  function ControlDevices(f: File): set<string>
  {
    Classified(Sources(f), "CONTROL")
  }

  /** `self.instrument_device_channels`: names of the `INSTRUMENT/...` sources. */
  function InstrumentChannels(f: File): set<string>
  {
    Classified(Sources(f), "INSTRUMENT")
  }

  /** `[tid for tid in ... if tid != 0]`. */
  function NonZero(col: seq<nat>): (r: seq<nat>)
    ensures 0 !in r
    ensures forall t :: t in r <==> t in col && t != 0
    ensures |r| <= |col|
  {
    if col == [] then []
    else
      var rest := NonZero(col[..|col| - 1]);
      assert forall t :: t in col <==> t in col[..|col| - 1] || t == col[|col| - 1];
      if col[|col| - 1] != 0 then rest + [col[|col| - 1]] else rest
  }

  /** Dropping zeros keeps order and multiplicity: it distributes over
      concatenation and keeps a single id exactly when it is not zero, which
      fixes its result on every column. */
  lemma {:induction false} NonZeroConcat(a: seq<nat>, b: seq<nat>)
    ensures NonZero(a + b) == NonZero(a) + NonZero(b)
    decreases |b|
  {
    if b == [] {
      assert a + b == a;
    } else {
      var n := |b| - 1;
      NonZeroConcat(a, b[..n]);
      assert (a + b)[..|a + b| - 1] == a + b[..n] && (a + b)[|a + b| - 1] == b[n];
    }
  }

  /** A single id is kept exactly when it is not zero. */
  lemma NonZeroOne(t: nat)
    ensures NonZero([t]) == if t == 0 then [] else [t]
  {
    assert [t][..0] == [];
  }

  /** `self.train_ids`. */
  function TrainIds(f: File): seq<nat>
  {
    NonZero(f.trainIdColumn)
  }

  /** `{tid: idx for idx, tid in enumerate(ids)}`: a later position of a
      repeated id overwrites an earlier one. */
  function Positions(ids: seq<nat>): (m: map<nat, nat>)
    ensures forall t :: t in m <==> t in ids
    ensures forall t | t in m :: m[t] < |ids| && ids[m[t]] == t
    ensures forall t, j | t in m && m[t] < j < |ids| :: ids[j] != t
  {
    if ids == [] then map[]
    else
      var n := |ids| - 1;
      var m := Positions(ids[..n]);
      assert forall t :: t in ids <==> t in ids[..n] || t == ids[n];
      m[ids[n] := n]
  }

  /** The train-id column is laid out as written: once a slot is zero all later
      slots are zero, and the non-zero ids strictly increase. Only then does
      position `p` of the train-id list name the train whose index row `p` is. */
  ghost predicate IdsAligned(f: File)
  {
    var col := f.trainIdColumn;
    && (forall i, j | 0 <= i < j < |col| :: col[i] == 0 ==> col[j] == 0)
    && (forall i, j | 0 <= i < j < |col| :: col[j] != 0 ==> col[i] < col[j])
  }

  /** With the zeros trailing, the train-id list is a prefix of the train-id
      column, so list position and index-row position coincide, and the ids
      strictly increase. */
  lemma {:induction false} AlignedPositions(col: seq<nat>)
    requires forall i, j | 0 <= i < j < |col| :: col[i] == 0 ==> col[j] == 0
    requires forall i, j | 0 <= i < j < |col| :: col[j] != 0 ==> col[i] < col[j]
    ensures NonZero(col) <= col
    ensures forall i, j | 0 <= i < j < |NonZero(col)| :: NonZero(col)[i] < NonZero(col)[j]
  {
    if col != [] {
      var n := |col| - 1;
      AlignedPositions(col[..n]);
      var rest := NonZero(col[..n]);
      if col[n] == 0 {
        assert rest == NonZero(col);
      } else {
        assert forall i | 0 <= i < n :: col[i] != 0;
        NonZeroAll(col[..n]);
        assert rest == col[..n];
        assert NonZero(col) == col;
      }
    }
  }

  lemma {:induction false} NonZeroAll(col: seq<nat>)
    requires forall i | 0 <= i < |col| :: col[i] != 0
    ensures NonZero(col) == col
  {
    if col != [] {
      NonZeroAll(col[..|col| - 1]);
    }
  }

  // ---------------------------------------------------------------------
  // Reading one train

  /** `src`: the device address, the first three segments of the source name
      without its category. */
  function Address(h5Device: string): string
  {
    Join(Take(Split(h5Device, '/'), 3), '/')
  }

  /** `path_base`: the remaining segments, joined with '.'. */
  function PathBase(h5Device: string): string
  {
    Join(Drop(Split(h5Device, '/'), 3), '.')
  }

  /** The dot-joined parameter path of a dataset: the path base and the
      dataset's key segments, empty strings dropped. */
  function ParamPath(base: string, key: string): string
  {
    Join(DropEmpty([base] + Split(key, '/')), '.')
  }

  /** Splitting a parameter path at '.' gives back its pieces in order: the
      path base, when there is one, then the non-empty segments of the
      dataset key, provided none of them holds a '.'. */
  lemma ParamPathPieces(base: string, key: string)
    requires '.' !in base && '.' !in key
    requires base != "" || DropEmpty(Split(key, '/')) != []
    ensures Split(ParamPath(base, key), '.') == (if base == "" then [] else [base]) + DropEmpty(Split(key, '/'))
  {
    var pieces := DropEmpty([base] + Split(key, '/'));
    DropEmptyConcat([base], Split(key, '/'));
    forall i | 0 <= i < |pieces|
      ensures '.' !in pieces[i]
    {
      assert pieces[i] in [base] + Split(key, '/');
      if pieces[i] != base {
        SplitPiecesWithin(key, '/');
      }
    }
    SplitJoin(pieces, '.');
  }

  /** The device address a source's data is filed under, if the name has a category. */
  function SourceAddress(source: string): Option<string>
  {
    match AfterFirst(source, '/')
    case None => None
    case Some(h) => Some(Address(h))
  }

  /** The `devices` argument: device address to the wanted parameter paths.
      The empty map stands for both `None` and `{}`: no filtering. */
  type Filter = map<string, set<string>>

  /** `not (only_this and src not in only_this)`. */
  predicate DeviceKept(filter: Filter, addr: string)
  {
    |filter| == 0 || addr in filter
  }

  /** `not (only_this and only_this[src] and path not in only_this[src])`. */
  predicate ParamKept(filter: Filter, addr: string, path: string)
  {
    |filter| == 0 || addr !in filter || filter[addr] == {} || path in filter[addr]
  }

  /** Every range an index table announces for a train lies inside every
      dataset of the source. The file format guarantees this; the reader
      does not check it. */
  ghost predicate SliceFits(f: File, source: string, p: nat)
    requires source in f.tables
  {
    match AfterFirst(source, '/')
    case None => true
    case Some(h) =>
      h in f.index ==>
      match RowRange(f.index[h], p)
      case Success(Some(rg)) =>
        rg.first <= rg.last && forall j | 0 <= j < |f.tables[source]| :: rg.last < |f.tables[source][j].rows|
      case _ => true
  }

  ghost predicate Readable(f: File)
  {
    forall source, p: nat | source in f.tables :: SliceFits(f, source, p)
  }

  /** `value[first]` for a one-row range, else `value[first:last+1]`. */
  function Slice(rows: seq<Value>, rg: Range): (v: Value)
    requires rg.first <= rg.last < |rows|
    ensures rg.first == rg.last ==> v == rows[rg.first]
    ensures rg.first < rg.last ==>
      v.Array? && |v.items| == RowCount(rg) && forall k | 0 <= k < |v.items| :: v.items[k] == rows[rg.first + k]
  {
    if rg.first == rg.last then rows[rg.first] else Array(rows[rg.first..rg.last + 1])
  }

  /** Whether dataset `leaf` of a source is kept by the parameter filter. */
  predicate LeafKept(filter: Filter, addr: string, base: string, leaf: Leaf)
  {
    ParamKept(filter, addr, ParamPath(base, leaf.key))
  }

  /** A sequence of dictionary assignments `m[k] = v`, performed in order. */
  function Assign<V>(m: map<string, V>, writes: seq<(string, V)>): map<string, V>
  {
    if writes == [] then m
    else
      var n := |writes| - 1;
      Assign(m, writes[..n])[writes[n].0 := writes[n].1]
  }

  /** After the assignments a key is present iff it was before or was assigned. */
  lemma {:induction false} AssignKeys<V>(m: map<string, V>, writes: seq<(string, V)>)
    ensures forall q :: q in Assign(m, writes) <==> q in m || exists e | e in writes :: e.0 == q
  {
    if writes != [] {
      var n := |writes| - 1;
      AssignKeys(m, writes[..n]);
      assert writes == writes[..n] + [writes[n]];
    }
  }

  /** The last value assigned to a key is the one it holds. */
  lemma {:induction false} AssignLast<V>(m: map<string, V>, writes: seq<(string, V)>)
    ensures forall i | 0 <= i < |writes| && (forall k | i < k < |writes| :: writes[k].0 != writes[i].0) ::
      writes[i].0 in Assign(m, writes) && Assign(m, writes)[writes[i].0] == writes[i].1
  {
    if writes != [] {
      var n := |writes| - 1;
      AssignLast(m, writes[..n]);
      assert forall i | 0 <= i < n :: writes[..n][i] == writes[i];
    }
  }

  /** A key never assigned keeps its old value. */
  lemma {:induction false} AssignUntouched<V>(m: map<string, V>, writes: seq<(string, V)>)
    ensures forall q | q in m && (forall e | e in writes :: e.0 != q) :: q in Assign(m, writes) && Assign(m, writes)[q] == m[q]
  {
    if writes != [] {
      var n := |writes| - 1;
      AssignUntouched(m, writes[..n]);
      assert writes == writes[..n] + [writes[n]];
    }
  }

  /** Every value held afterwards is the old one or one that was assigned to that key. */
  lemma {:induction false} AssignSource<V>(m: map<string, V>, writes: seq<(string, V)>)
    ensures forall q | q in Assign(m, writes) ::
      (q in m && Assign(m, writes)[q] == m[q]) || (q, Assign(m, writes)[q]) in writes
  {
    if writes != [] {
      var n := |writes| - 1;
      AssignSource(m, writes[..n]);
      assert writes == writes[..n] + [writes[n]];
    }
  }

  /** Performing two runs of assignments is performing their concatenation. */
  lemma {:induction false} AssignConcat<V>(m: map<string, V>, w1: seq<(string, V)>, w2: seq<(string, V)>)
    ensures Assign(Assign(m, w1), w2) == Assign(m, w1 + w2)
    decreases |w2|
  {
    if w2 != [] {
      var n := |w2| - 1;
      AssignConcat(m, w1, w2[..n]);
      assert (w1 + w2)[..|w1| + n] == w1 + w2[..n];
    } else {
      assert w1 + w2 == w1;
    }
  }

  /** The assignments `append_data` performs for the datasets of one source:
      each kept dataset, in visiting order, writes its slice under its path. */
  function LeafWrites(leaves: seq<Leaf>, rg: Range, base: string, filter: Filter, addr: string): seq<(string, Entry)>
    requires rg.first <= rg.last
    requires forall j | 0 <= j < |leaves| :: rg.last < |leaves[j].rows|
  {
    if leaves == [] then []
    else
      var n := |leaves| - 1;
      var prev := LeafWrites(leaves[..n], rg, base, filter, addr);
      var leaf := leaves[n];
      if LeafKept(filter, addr, base, leaf) then prev + [(ParamPath(base, leaf.key), Param(Slice(leaf.rows, rg)))]
      else prev
  }

  /** The write for dataset `j`. */
  function LeafWrite(leaves: seq<Leaf>, j: nat, rg: Range, base: string): (string, Entry)
    requires j < |leaves|
    requires rg.first <= rg.last < |leaves[j].rows|
  {
    (ParamPath(base, leaves[j].key), Param(Slice(leaves[j].rows, rg)))
  }

  /** Every write comes from a kept dataset. */
  lemma {:induction false} LeafWritesSound(leaves: seq<Leaf>, rg: Range, base: string, filter: Filter, addr: string)
    requires rg.first <= rg.last
    requires forall j | 0 <= j < |leaves| :: rg.last < |leaves[j].rows|
    ensures forall e | e in LeafWrites(leaves, rg, base, filter, addr) ::
      exists j :: 0 <= j < |leaves| && LeafKept(filter, addr, base, leaves[j]) && e == LeafWrite(leaves, j, rg, base)
  {
    if leaves != [] {
      var n := |leaves| - 1;
      LeafWritesSound(leaves[..n], rg, base, filter, addr);
      assert forall j | 0 <= j < n :: leaves[..n][j] == leaves[j];
      assert forall j | 0 <= j < n :: LeafWrite(leaves[..n], j, rg, base) == LeafWrite(leaves, j, rg, base);
    }
  }

  /** Every kept dataset writes. */
  lemma {:induction false} LeafWritesComplete(leaves: seq<Leaf>, rg: Range, base: string, filter: Filter, addr: string)
    requires rg.first <= rg.last
    requires forall j | 0 <= j < |leaves| :: rg.last < |leaves[j].rows|
    ensures forall j | 0 <= j < |leaves| && LeafKept(filter, addr, base, leaves[j]) ::
      LeafWrite(leaves, j, rg, base) in LeafWrites(leaves, rg, base, filter, addr)
  {
    if leaves != [] {
      var n := |leaves| - 1;
      LeafWritesComplete(leaves[..n], rg, base, filter, addr);
      assert forall j | 0 <= j < n :: leaves[..n][j] == leaves[j];
      assert forall j | 0 <= j < n :: LeafWrite(leaves[..n], j, rg, base) == LeafWrite(leaves, j, rg, base);
    }
  }

  // ---------------------------------------------------------------------
  // One source, then all sources

  /** The index row and datasets of a source can be read at position `p`. */
  predicate SourceOk(f: File, source: string, p: nat)
  {
    match AfterFirst(source, '/')
    case None => false
    case Some(h) => h in f.index && source in f.tables && HasRow(f.index[h], p)
  }

  /** Whether the device filter keeps a source. */
  predicate SourceKept(filter: Filter, source: string)
  {
    SourceAddress(source).Some? && DeviceKept(filter, SourceAddress(source).value)
  }

  /** The parameter assignments a source makes for the train at position `p`:
      one per kept dataset when the source is kept and active, none otherwise. */
  function SourceWrites(f: File, p: nat, filter: Filter, source: string): seq<(string, Entry)>
    requires Readable(f)
  {
    match AfterFirst(source, '/')
    case None => []
    case Some(h) =>
      if h !in f.index || source !in f.tables || !DeviceKept(filter, Address(h)) then []
      else
        match RowRange(f.index[h], p)
        case Success(Some(rg)) =>
          assert SliceFits(f, source, p);
          LeafWrites(f.tables[source], rg, PathBase(h), filter, Address(h))
        case _ => []
  }

  /** The metadata assignment closing every kept source's contribution. */
  function MetadataWrite(addr: string, tid: nat, clock: Timestamp): (string, Entry)
  {
    (MetadataKey, Metadata(addr, tid, clock))
  }

  /** Everything the sources in `sources` assign to device `addr`, in order:
      each kept source filed under `addr` writes its datasets, then the metadata. */
  function DeviceWrites(f: File, p: nat, filter: Filter, clock: Timestamp, sources: seq<string>, addr: string): seq<(string, Entry)>
    requires Readable(f)
    requires p < |TrainIds(f)|
  {
    if sources == [] then []
    else
      var n := |sources| - 1;
      DeviceWrites(f, p, filter, clock, sources[..n], addr)
      + (if SourceKept(filter, sources[n]) && SourceAddress(sources[n]) == Some(addr)
         then SourceWrites(f, p, filter, sources[n]) + [MetadataWrite(addr, TrainIds(f)[p], clock)]
         else [])
  }

  /** A source the loop in `_gen_train_data` gets past without an exception:
      its index row and datasets exist, and, when kept, the position is within
      the train-id list. */
  predicate SourceReadable(f: File, p: nat, filter: Filter, source: string)
  {
    SourceOk(f, source, p) && (SourceKept(filter, source) ==> p < |TrainIds(f)|)
  }

  /** One iteration of the loop over sources in `_gen_train_data`. */
  function ReadSource(f: File, p: nat, filter: Filter, clock: Timestamp, source: string, acc: Record): (r: Result<Record, Error>)
    requires Readable(f)
    ensures r.Success? <==> SourceReadable(f, p, filter, source)
    ensures r.Success? && !SourceKept(filter, source) ==> r.value == acc
    ensures r.Success? && SourceKept(filter, source) ==>
      var addr := SourceAddress(source).value;
      r.value == Put(acc, addr, Assign(Get(acc, addr).GetOr(map[]),
                                       SourceWrites(f, p, filter, source) + [MetadataWrite(addr, TrainIds(f)[p], clock)]))
  {
    match AfterFirst(source, '/')
    case None => Failure(NoCategory(source))
    case Some(h) =>
      if h !in f.index then Failure(MissingIndex(h))
      else if source !in f.tables then Failure(MissingTable(source))
      else
        var rg :- RowRange(f.index[h], p);
        var addr := Address(h);
        if !DeviceKept(filter, addr) then Success(acc)
        else if p >= |TrainIds(f)| then Failure(PositionOutOfRange(p))
        else
          // `data[path] = ...` for every kept dataset, then `data.update({'metadata': ...})`
          var w := SourceWrites(f, p, filter, source) + [MetadataWrite(addr, TrainIds(f)[p], clock)];
          Success(Put(acc, addr, Assign(Get(acc, addr).GetOr(map[]), w)))
  }

  /** The loop over `self.sources` in `_gen_train_data`, stopping at the first
      exception. */
  function ReadSources(f: File, p: nat, filter: Filter, clock: Timestamp, sources: seq<string>): Result<Record, Error>
    requires Readable(f)
  {
    if sources == [] then Success([])
    else
      var acc :- ReadSources(f, p, filter, clock, sources[..|sources| - 1]);
      ReadSource(f, p, filter, clock, sources[|sources| - 1], acc)
  }

  /** The loop raises iff some source cannot be read at `p`, or a kept source
      is read at a position past the end of the train-id list. */
  lemma {:induction false} ReadSourcesSucceeds(f: File, p: nat, filter: Filter, clock: Timestamp, sources: seq<string>)
    requires Readable(f)
    ensures ReadSources(f, p, filter, clock, sources).Success? <==>
      forall i | 0 <= i < |sources| :: SourceReadable(f, p, filter, sources[i])
    ensures ReadSources(f, p, filter, clock, sources).Success? && p >= |TrainIds(f)| ==>
      ReadSources(f, p, filter, clock, sources).value == []
  {
    if sources != [] {
      var n := |sources| - 1;
      var prefix := sources[..n];
      ReadSourcesSucceeds(f, p, filter, clock, prefix);
      AllReadableStep(f, p, filter, sources, prefix);
    }
  }

  lemma AllReadableStep(f: File, p: nat, filter: Filter, sources: seq<string>, prefix: seq<string>)
    requires sources != [] && prefix == sources[..|sources| - 1]
    ensures (forall i | 0 <= i < |sources| :: SourceReadable(f, p, filter, sources[i])) <==>
      (forall i | 0 <= i < |prefix| :: SourceReadable(f, p, filter, prefix[i]))
      && SourceReadable(f, p, filter, sources[|sources| - 1])
  {
    assert forall i | 0 <= i < |prefix| :: prefix[i] == sources[i];
  }

  /** The device addresses of the kept sources among `sources`, in source
      order, one per kept source. */
  function KeptAddresses(filter: Filter, sources: seq<string>): (r: seq<string>)
    ensures forall a :: a in r <==> exists i :: 0 <= i < |sources| && SourceKept(filter, sources[i]) && SourceAddress(sources[i]) == Some(a)
  {
    if sources == [] then []
    else
      var n := |sources| - 1;
      var prev := KeptAddresses(filter, sources[..n]);
      assert forall i | 0 <= i < n :: sources[..n][i] == sources[i];
      if SourceKept(filter, sources[n]) then prev + [SourceAddress(sources[n]).value] else prev
  }

  /** The record's devices come in the order in which their first kept source
      is listed: `train_data[src] = {}` adds a device when its first kept
      source is read, and later sources only assign into it. */
  lemma {:induction false} ReadSourcesOrder(f: File, p: nat, filter: Filter, clock: Timestamp, sources: seq<string>)
    requires Readable(f)
    requires ReadSources(f, p, filter, clock, sources).Success?
    ensures Keys(ReadSources(f, p, filter, clock, sources).value) == FirstOccurrences(KeptAddresses(filter, sources))
  {
    if sources != [] {
      var n := |sources| - 1;
      ReadSourcesOrder(f, p, filter, clock, sources[..n]);
      var prev := KeptAddresses(filter, sources[..n]);
      var acc := ReadSources(f, p, filter, clock, sources[..n]).value;
      if SourceKept(filter, sources[n]) {
        var addr := SourceAddress(sources[n]).value;
        var v := Assign(Get(acc, addr).GetOr(map[]), SourceWrites(f, p, filter, sources[n]) + [MetadataWrite(addr, TrainIds(f)[p], clock)]);
        PutFirstOccurrences(acc, addr, v, prev);
      }
    }
  }

  /** A source that cannot be read is the first such of `sources`. */
  predicate FirstUnreadable(f: File, p: nat, filter: Filter, sources: seq<string>, i: int)
  {
    && 0 <= i < |sources|
    && !SourceReadable(f, p, filter, sources[i])
    && forall j | 0 <= j < i :: SourceReadable(f, p, filter, sources[j])
  }

  /** The loop raises the exception of the first source that cannot be read,
      whatever was read before it. */
  lemma {:induction false} ReadSourcesFirstError(f: File, p: nat, filter: Filter, clock: Timestamp, sources: seq<string>, i: int)
    requires Readable(f)
    requires FirstUnreadable(f, p, filter, sources, i)
    ensures ReadSources(f, p, filter, clock, sources) == Failure(ReadSource(f, p, filter, clock, sources[i], []).error)
  {
    var n := |sources| - 1;
    var prefix := sources[..n];
    UnreadableInPrefix(f, p, filter, sources, prefix, i);
    if i < n {
      ReadSourcesFirstError(f, p, filter, clock, prefix, i);
    } else {
      ReadSourcesSucceeds(f, p, filter, clock, prefix);
      var acc := ReadSources(f, p, filter, clock, prefix).value;
      ReadSourceFailsAlike(f, p, filter, clock, sources[n], acc);
    }
  }

  lemma UnreadableInPrefix(f: File, p: nat, filter: Filter, sources: seq<string>, prefix: seq<string>, i: int)
    requires FirstUnreadable(f, p, filter, sources, i)
    requires prefix == sources[..|sources| - 1]
    ensures i < |prefix| ==> FirstUnreadable(f, p, filter, prefix, i)
    ensures i == |prefix| ==> forall j | 0 <= j < |prefix| :: SourceReadable(f, p, filter, prefix[j])
  {
    assert forall j | 0 <= j < |prefix| :: prefix[j] == sources[j];
  }

  /** What a source that cannot be read raises does not depend on what was
      read before it. */
  lemma ReadSourceFailsAlike(f: File, p: nat, filter: Filter, clock: Timestamp, source: string, acc: Record)
    requires Readable(f)
    requires !SourceReadable(f, p, filter, source)
    ensures ReadSource(f, p, filter, clock, source, acc) == Failure(ReadSource(f, p, filter, clock, source, []).error)
  {
  }

  /** Whichever source is the first that cannot be read decides the exception. */
  lemma ReadSourcesFailsAtFirst(f: File, p: nat, filter: Filter, clock: Timestamp, sources: seq<string>)
    requires Readable(f)
    ensures forall i | FirstUnreadable(f, p, filter, sources, i) ::
      ReadSources(f, p, filter, clock, sources) == Failure(ReadSource(f, p, filter, clock, sources[i], []).error)
  {
    forall i | FirstUnreadable(f, p, filter, sources, i)
      ensures ReadSources(f, p, filter, clock, sources) == Failure(ReadSource(f, p, filter, clock, sources[i], []).error)
    {
      ReadSourcesFirstError(f, p, filter, clock, sources, i);
    }
  }

  /** The loop raises only the errors of reading a source. */
  lemma {:induction false} ReadSourcesErrors(f: File, p: nat, filter: Filter, clock: Timestamp, sources: seq<string>)
    requires Readable(f)
    ensures var r := ReadSources(f, p, filter, clock, sources);
      r.Failure? ==> r.error.NoCategory? || r.error.MissingIndex? || r.error.MissingTable? || r.error.MissingColumn? || r.error.PositionOutOfRange?
  {
    if sources != [] {
      ReadSourcesErrors(f, p, filter, clock, sources[..|sources| - 1]);
    }
  }

  /** The record the loop builds: a device is present iff some kept source is
      filed under it, and its entries are what performing that device's
      assignments, in source order, on an empty dictionary leaves. */
  lemma {:induction false} ReadSourcesRecord(f: File, p: nat, filter: Filter, clock: Timestamp, sources: seq<string>)
    requires Readable(f)
    requires p < |TrainIds(f)|
    requires ReadSources(f, p, filter, clock, sources).Success?
    ensures forall addr :: Get(ReadSources(f, p, filter, clock, sources).value, addr) == DeviceRecord(f, p, filter, clock, sources, addr)
  {
    if sources != [] {
      var n := |sources| - 1;
      ReadSourcesRecord(f, p, filter, clock, sources[..n]);
      forall addr
        ensures Get(ReadSources(f, p, filter, clock, sources).value, addr) == DeviceRecord(f, p, filter, clock, sources, addr)
      {
        ReadSourcesStep(f, p, filter, clock, sources, addr);
      }
    }
  }

  /** The device record the assignments of `sources` leave for `addr`, or
      `None` when no kept source is filed under it. */
  function DeviceRecord(f: File, p: nat, filter: Filter, clock: Timestamp, sources: seq<string>, addr: string): Option<Device>
    requires Readable(f)
    requires p < |TrainIds(f)|
  {
    var w := DeviceWrites(f, p, filter, clock, sources, addr);
    if w == [] then None else Some(Assign(map[], w))
  }

  lemma ReadSourcesStep(f: File, p: nat, filter: Filter, clock: Timestamp, sources: seq<string>, addr: string)
    requires Readable(f)
    requires p < |TrainIds(f)|
    requires sources != []
    requires ReadSources(f, p, filter, clock, sources).Success?
    requires Get(ReadSources(f, p, filter, clock, sources[..|sources| - 1]).value, addr)
          == DeviceRecord(f, p, filter, clock, sources[..|sources| - 1], addr)
    ensures Get(ReadSources(f, p, filter, clock, sources).value, addr) == DeviceRecord(f, p, filter, clock, sources, addr)
  {
    var n := |sources| - 1;
    var source := sources[n];
    var acc := ReadSources(f, p, filter, clock, sources[..n]).value;
    assert ReadSources(f, p, filter, clock, sources) == ReadSource(f, p, filter, clock, source, acc);
    var before := DeviceWrites(f, p, filter, clock, sources[..n], addr);
    if SourceKept(filter, source) && SourceAddress(source) == Some(addr) {
      var w := SourceWrites(f, p, filter, source) + [MetadataWrite(addr, TrainIds(f)[p], clock)];
      assert DeviceWrites(f, p, filter, clock, sources, addr) == before + w;
      ReadOwnSource(f, p, filter, clock, source, acc, addr, before);
    } else {
      assert DeviceWrites(f, p, filter, clock, sources, addr) == before;
      ReadOtherSource(f, p, filter, clock, source, acc, addr);
    }
  }

  /** Reading a kept source filed under `addr` applies its assignments to the
      device's record so far. */
  lemma ReadOwnSource(f: File, p: nat, filter: Filter, clock: Timestamp, source: string, acc: Record, addr: string,
                      before: seq<(string, Entry)>)
    requires Readable(f)
    requires SourceKept(filter, source) && SourceAddress(source) == Some(addr)
    requires ReadSource(f, p, filter, clock, source, acc).Success?
    requires Get(acc, addr) == if before == [] then None else Some(Assign(map[], before))
    ensures p < |TrainIds(f)|
    ensures Get(ReadSource(f, p, filter, clock, source, acc).value, addr) ==
      Some(Assign(map[], before + (SourceWrites(f, p, filter, source) + [MetadataWrite(addr, TrainIds(f)[p], clock)])))
  {
    var w := SourceWrites(f, p, filter, source) + [MetadataWrite(addr, TrainIds(f)[p], clock)];
    assert Get(acc, addr).GetOr(map[]) == Assign(map[], before);
    AssignConcat(map[], before, w);
  }

  /** Reading a source not filed under `addr`, or dropped by the filter, leaves
      the device's record alone. */
  lemma ReadOtherSource(f: File, p: nat, filter: Filter, clock: Timestamp, source: string, acc: Record, addr: string)
    requires Readable(f)
    requires !(SourceKept(filter, source) && SourceAddress(source) == Some(addr))
    requires ReadSource(f, p, filter, clock, source, acc).Success?
    ensures Get(ReadSource(f, p, filter, clock, source, acc).value, addr) == Get(acc, addr)
  {
  }

  // ---------------------------------------------------------------------
  // What a train record contains

  /** Dataset `j` of source `s`, filed under device `addr`, is kept and read
      for the train at position `p`, and stores `v` under parameter path `q`. */
  ghost predicate Provides(f: File, p: nat, filter: Filter, s: string, addr: string, j: int, q: string, v: Entry)
  {
    match AfterFirst(s, '/')
    case None => false
    case Some(h) =>
      && Address(h) == addr && DeviceKept(filter, addr) && h in f.index && s in f.tables
      && match RowRange(f.index[h], p)
         case Success(Some(rg)) =>
           && 0 <= j < |f.tables[s]|
           && LeafKept(filter, addr, PathBase(h), f.tables[s][j])
           && ParamPath(PathBase(h), f.tables[s][j].key) == q
           && rg.first <= rg.last < |f.tables[s][j].rows|
           && v == Param(Slice(f.tables[s][j].rows, rg))
         case _ => false
  }

  /** A source's assignments are exactly the slices of its kept datasets; a
      source the filter drops, or one with no data for the train (`status`
      zero, or `count` zero), assigns nothing. */
  lemma SourceWritesMeaning(f: File, p: nat, filter: Filter, s: string, addr: string)
    requires Readable(f)
    requires SourceAddress(s) == Some(addr)
    ensures forall e :: e in SourceWrites(f, p, filter, s) <==> exists j :: Provides(f, p, filter, s, addr, j, e.0, e.1)
  {
    var h := AfterFirst(s, '/').value;
    if h in f.index && s in f.tables && DeviceKept(filter, addr) {
      match RowRange(f.index[h], p)
      case Success(Some(rg)) =>
        assert SliceFits(f, s, p);
        var leaves := f.tables[s];
        LeafWritesSound(leaves, rg, PathBase(h), filter, addr);
        LeafWritesComplete(leaves, rg, PathBase(h), filter, addr);
        forall e
          ensures e in SourceWrites(f, p, filter, s) <==> exists j :: Provides(f, p, filter, s, addr, j, e.0, e.1)
        {
          if e in SourceWrites(f, p, filter, s) {
            var j :| 0 <= j < |leaves| && LeafKept(filter, addr, PathBase(h), leaves[j]) && e == LeafWrite(leaves, j, rg, PathBase(h));
            assert Provides(f, p, filter, s, addr, j, e.0, e.1);
          }
          if j :| Provides(f, p, filter, s, addr, j, e.0, e.1) {
            assert e == LeafWrite(leaves, j, rg, PathBase(h));
          }
        }
      case _ =>
    }
  }

  /** A `first`/`count` source whose count for the train is zero assigns nothing. */
  lemma ZeroCountAssignsNothing(f: File, p: nat, filter: Filter, s: string)
    requires Readable(f)
    requires AfterFirst(s, '/').Some? && AfterFirst(s, '/').value in f.index
    requires var t := f.index[AfterFirst(s, '/').value];
      t.first.Some? && t.last.None? && t.count.Some? && p < |t.first.value| && p < |t.count.value| && t.count.value[p] == 0
    ensures SourceWrites(f, p, filter, s) == []
  {
  }

  /** Every assignment for device `addr` is its metadata or comes from one of
      the sources filed under `addr`. */
  lemma {:induction false} DeviceWritesSound(f: File, p: nat, filter: Filter, clock: Timestamp, sources: seq<string>, addr: string)
    requires Readable(f)
    requires p < |TrainIds(f)|
    ensures forall e | e in DeviceWrites(f, p, filter, clock, sources, addr) ::
      || e == MetadataWrite(addr, TrainIds(f)[p], clock)
      || exists i :: 0 <= i < |sources| && SourceAddress(sources[i]) == Some(addr) && e in SourceWrites(f, p, filter, sources[i])
  {
    if sources != [] {
      var n := |sources| - 1;
      DeviceWritesSound(f, p, filter, clock, sources[..n], addr);
      assert forall i | 0 <= i < n :: sources[..n][i] == sources[i];
    }
  }

  /** Every assignment of a kept source filed under `addr` is among the device's. */
  lemma {:induction false} DeviceWritesComplete(f: File, p: nat, filter: Filter, clock: Timestamp, sources: seq<string>, addr: string)
    requires Readable(f)
    requires p < |TrainIds(f)|
    ensures forall i, e | 0 <= i < |sources| && SourceKept(filter, sources[i]) && SourceAddress(sources[i]) == Some(addr)
        && e in SourceWrites(f, p, filter, sources[i]) :: e in DeviceWrites(f, p, filter, clock, sources, addr)
  {
    forall i | 0 <= i < |sources| && SourceKept(filter, sources[i]) && SourceAddress(sources[i]) == Some(addr) {
      DeviceWritesInclude(f, p, filter, clock, sources, addr, i);
    }
  }

  /** The assignments of the kept source at position `i`, filed under `addr`,
      are among the device's. */
  lemma {:induction false} DeviceWritesInclude(f: File, p: nat, filter: Filter, clock: Timestamp, sources: seq<string>, addr: string, i: nat)
    requires Readable(f)
    requires p < |TrainIds(f)|
    requires i < |sources| && SourceKept(filter, sources[i]) && SourceAddress(sources[i]) == Some(addr)
    ensures forall e | e in SourceWrites(f, p, filter, sources[i]) :: e in DeviceWrites(f, p, filter, clock, sources, addr)
  {
    var n := |sources| - 1;
    var w0 := DeviceWrites(f, p, filter, clock, sources[..n], addr);
    if i < n {
      assert sources[..n][i] == sources[i];
      DeviceWritesInclude(f, p, filter, clock, sources[..n], addr, i);
      DeviceWritesGrow(f, p, filter, clock, sources, addr);
    } else {
      var tail := SourceWrites(f, p, filter, sources[n]) + [MetadataWrite(addr, TrainIds(f)[p], clock)];
      assert DeviceWrites(f, p, filter, clock, sources, addr) == w0 + tail;
    }
  }

  /** Adding a source only appends to the device's assignments. */
  lemma DeviceWritesGrow(f: File, p: nat, filter: Filter, clock: Timestamp, sources: seq<string>, addr: string)
    requires Readable(f)
    requires p < |TrainIds(f)|
    requires sources != []
    ensures forall e | e in DeviceWrites(f, p, filter, clock, sources[..|sources| - 1], addr) ::
      e in DeviceWrites(f, p, filter, clock, sources, addr)
  {
  }

  /** Every assignment for a device is owed to a kept source filed under it. */
  lemma {:induction false} DeviceWritesFromKept(f: File, p: nat, filter: Filter, clock: Timestamp, sources: seq<string>, addr: string)
    requires Readable(f)
    requires p < |TrainIds(f)|
    ensures forall e | e in DeviceWrites(f, p, filter, clock, sources, addr) ::
      exists i :: 0 <= i < |sources| && SourceKept(filter, sources[i]) && SourceAddress(sources[i]) == Some(addr)
  {
    if sources != [] {
      var n := |sources| - 1;
      DeviceWritesFromKept(f, p, filter, clock, sources[..n], addr);
      assert forall i | 0 <= i < n :: sources[..n][i] == sources[i];
    }
  }

  /** Each kept source filed under a device closes with the metadata assignment. */
  lemma {:induction false} DeviceWritesHaveMetadata(f: File, p: nat, filter: Filter, clock: Timestamp, sources: seq<string>, addr: string)
    requires Readable(f)
    requires p < |TrainIds(f)|
    ensures (exists i :: 0 <= i < |sources| && SourceKept(filter, sources[i]) && SourceAddress(sources[i]) == Some(addr)) ==>
      MetadataWrite(addr, TrainIds(f)[p], clock) in DeviceWrites(f, p, filter, clock, sources, addr)
  {
    if sources != [] {
      var n := |sources| - 1;
      DeviceWritesHaveMetadata(f, p, filter, clock, sources[..n], addr);
      assert forall i | 0 <= i < n :: sources[..n][i] == sources[i];
    }
  }

  /** The device has assignments exactly when a kept source is filed under it. */
  lemma DeviceWritesPresent(f: File, p: nat, filter: Filter, clock: Timestamp, sources: seq<string>, addr: string)
    requires Readable(f)
    requires p < |TrainIds(f)|
    ensures DeviceWrites(f, p, filter, clock, sources, addr) != [] <==>
      exists i :: 0 <= i < |sources| && SourceKept(filter, sources[i]) && SourceAddress(sources[i]) == Some(addr)
  {
    var w := DeviceWrites(f, p, filter, clock, sources, addr);
    DeviceWritesHaveMetadata(f, p, filter, clock, sources, addr);
    if w != [] {
      DeviceWritesFromKept(f, p, filter, clock, sources, addr);
      assert w[0] in w;
    }
  }

  /** The last assignment for a device is its metadata. */
  lemma {:induction false} DeviceWritesEnd(f: File, p: nat, filter: Filter, clock: Timestamp, sources: seq<string>, addr: string)
    requires Readable(f)
    requires p < |TrainIds(f)|
    ensures var w := DeviceWrites(f, p, filter, clock, sources, addr);
      w != [] ==> w[|w| - 1] == MetadataWrite(addr, TrainIds(f)[p], clock)
  {
    if sources != [] {
      var n := |sources| - 1;
      DeviceWritesEnd(f, p, filter, clock, sources[..n], addr);
      var w0 := DeviceWrites(f, p, filter, clock, sources[..n], addr);
      if SourceKept(filter, sources[n]) && SourceAddress(sources[n]) == Some(addr) {
        var tail := SourceWrites(f, p, filter, sources[n]) + [MetadataWrite(addr, TrainIds(f)[p], clock)];
        assert DeviceWrites(f, p, filter, clock, sources, addr) == w0 + tail;
      } else {
        assert DeviceWrites(f, p, filter, clock, sources, addr) == w0;
      }
    }
  }

  /** A device has a record exactly when a kept source is filed under it, and
      the record's metadata entry names the device and the train. */
  lemma DeviceRecordMetadata(f: File, p: nat, filter: Filter, clock: Timestamp, sources: seq<string>, addr: string)
    requires Readable(f)
    requires p < |TrainIds(f)|
    ensures DeviceRecord(f, p, filter, clock, sources, addr).Some? <==>
      exists i :: 0 <= i < |sources| && SourceKept(filter, sources[i]) && SourceAddress(sources[i]) == Some(addr)
    ensures DeviceRecord(f, p, filter, clock, sources, addr).Some? ==>
      var d := DeviceRecord(f, p, filter, clock, sources, addr).value;
      MetadataKey in d && d[MetadataKey] == Metadata(addr, TrainIds(f)[p], clock)
  {
    var w := DeviceWrites(f, p, filter, clock, sources, addr);
    DeviceWritesPresent(f, p, filter, clock, sources, addr);
    DeviceWritesEnd(f, p, filter, clock, sources, addr);
    if w != [] {
      AssignLast(map[], w);
      assert w[|w| - 1].0 == MetadataKey;
    }
  }

  /** A parameter path in a device's record comes from a kept dataset of one
      of the device's sources. */
  lemma ParamFromDataset(f: File, p: nat, filter: Filter, clock: Timestamp, sources: seq<string>, addr: string, q: string)
    requires Readable(f)
    requires p < |TrainIds(f)|
    requires q in Assign(map[], DeviceWrites(f, p, filter, clock, sources, addr)) && q != MetadataKey
    ensures exists i, j, v :: 0 <= i < |sources| && Provides(f, p, filter, sources[i], addr, j, q, v)
  {
    var w := DeviceWrites(f, p, filter, clock, sources, addr);
    AssignKeys(map[], w);
    var e :| e in w && e.0 == q;
    DeviceWritesSound(f, p, filter, clock, sources, addr);
    assert e != MetadataWrite(addr, TrainIds(f)[p], clock);
    var i :| 0 <= i < |sources| && SourceAddress(sources[i]) == Some(addr) && e in SourceWrites(f, p, filter, sources[i]);
    SourceWritesMeaning(f, p, filter, sources[i], addr);
    var j :| Provides(f, p, filter, sources[i], addr, j, e.0, e.1);
  }

  /** A kept dataset of one of the device's sources puts its path in the record. */
  lemma ParamToRecord(f: File, p: nat, filter: Filter, clock: Timestamp, sources: seq<string>, addr: string,
                      i: int, j: int, q: string, v: Entry)
    requires Readable(f)
    requires p < |TrainIds(f)|
    requires 0 <= i < |sources| && Provides(f, p, filter, sources[i], addr, j, q, v)
    ensures q in Assign(map[], DeviceWrites(f, p, filter, clock, sources, addr))
  {
    var w := DeviceWrites(f, p, filter, clock, sources, addr);
    SourceWritesMeaning(f, p, filter, sources[i], addr);
    assert (q, v) in SourceWrites(f, p, filter, sources[i]);
    assert SourceKept(filter, sources[i]);
    DeviceWritesComplete(f, p, filter, clock, sources, addr);
    assert (q, v) in w;
    AssignKeys(map[], w);
  }

  /** Every parameter path other than the metadata key is in a device's record
      exactly when a kept dataset of one of the device's sources stores under it. */
  lemma DeviceRecordParams(f: File, p: nat, filter: Filter, clock: Timestamp, sources: seq<string>, addr: string, q: string)
    requires Readable(f)
    requires p < |TrainIds(f)|
    requires DeviceRecord(f, p, filter, clock, sources, addr).Some?
    requires q != MetadataKey
    ensures q in DeviceRecord(f, p, filter, clock, sources, addr).value <==>
      exists i, j, v :: 0 <= i < |sources| && Provides(f, p, filter, sources[i], addr, j, q, v)
  {
    if q in DeviceRecord(f, p, filter, clock, sources, addr).value {
      ParamFromDataset(f, p, filter, clock, sources, addr, q);
    }
    if i, j, v :| 0 <= i < |sources| && Provides(f, p, filter, sources[i], addr, j, q, v) {
      ParamToRecord(f, p, filter, clock, sources, addr, i, j, q, v);
    }
  }

  /** Every parameter value in a device's record is the slice of a kept
      dataset of one of the device's sources, stored under that path. */
  lemma DeviceRecordValues(f: File, p: nat, filter: Filter, clock: Timestamp, sources: seq<string>, addr: string, q: string)
    requires Readable(f)
    requires p < |TrainIds(f)|
    requires DeviceRecord(f, p, filter, clock, sources, addr).Some?
    requires q in DeviceRecord(f, p, filter, clock, sources, addr).value && q != MetadataKey
    ensures var d := DeviceRecord(f, p, filter, clock, sources, addr).value;
      exists i, j :: 0 <= i < |sources| && Provides(f, p, filter, sources[i], addr, j, q, d[q])
  {
    var w := DeviceWrites(f, p, filter, clock, sources, addr);
    var d := Assign(map[], w);
    AssignSource(map[], w);
    assert (q, d[q]) in w;
    DeviceWritesSound(f, p, filter, clock, sources, addr);
    var i :| 0 <= i < |sources| && SourceAddress(sources[i]) == Some(addr) && (q, d[q]) in SourceWrites(f, p, filter, sources[i]);
    SourceWritesMeaning(f, p, filter, sources[i], addr);
  }

  /** When no source filed under `addr` assigns anything, all that remains for
      the device is metadata. */
  lemma OnlyMetadataWrites(f: File, p: nat, filter: Filter, clock: Timestamp, sources: seq<string>, addr: string)
    requires Readable(f)
    requires p < |TrainIds(f)|
    requires forall i | 0 <= i < |sources| && SourceAddress(sources[i]) == Some(addr) :: SourceWrites(f, p, filter, sources[i]) == []
    ensures forall e | e in DeviceWrites(f, p, filter, clock, sources, addr) :: e == MetadataWrite(addr, TrainIds(f)[p], clock)
  {
    DeviceWritesSound(f, p, filter, clock, sources, addr);
  }

  /** A device whose sources are all inactive for the train (or whose datasets
      the filter drops) still gets a record, holding the metadata entry alone. */
  lemma InactiveDeviceHoldsOnlyMetadata(f: File, p: nat, filter: Filter, clock: Timestamp, sources: seq<string>, addr: string)
    requires Readable(f)
    requires p < |TrainIds(f)|
    requires exists i :: 0 <= i < |sources| && SourceKept(filter, sources[i]) && SourceAddress(sources[i]) == Some(addr)
    requires forall i | 0 <= i < |sources| && SourceAddress(sources[i]) == Some(addr) :: SourceWrites(f, p, filter, sources[i]) == []
    ensures DeviceRecord(f, p, filter, clock, sources, addr) == Some(map[MetadataKey := Metadata(addr, TrainIds(f)[p], clock)])
  {
    DeviceRecordMetadata(f, p, filter, clock, sources, addr);
    var w := DeviceWrites(f, p, filter, clock, sources, addr);
    var d := Assign(map[], w);
    OnlyMetadataWrites(f, p, filter, clock, sources, addr);
    AssignKeys(map[], w);
    forall q | q in d
      ensures q == MetadataKey
    {
      var e :| e in w && e.0 == q;
    }
    assert d == map[MetadataKey := Metadata(addr, TrainIds(f)[p], clock)];
  }

  /** The device address of a source is the name `__init__` classifies it
      under: both are the three segments after the category. */
  lemma AddressIsClassName(source: string)
    ensures SourceAddress(source).Some? <==> '/' in source
    ensures SourceAddress(source).Some? ==> SourceAddress(source).value == ClassName(source)
  {
    if AfterFirst(source, '/').Some? {
      SplitTail(source, '/');
    }
  }

  /** The device names `__init__` records for a category are the addresses
      its sources' data is filed under; the one exception is a source named
      just the category, which records the empty name and is filed nowhere. */
  lemma ClassifiedAreAddresses(sources: seq<string>, category: string)
    ensures forall i | 0 <= i < |sources| && Category(sources[i]) == category && SourceAddress(sources[i]).Some? ::
      SourceAddress(sources[i]).value in Classified(sources, category)
    ensures forall x | x in Classified(sources, category) ::
      || (exists i :: 0 <= i < |sources| && Category(sources[i]) == category && SourceAddress(sources[i]) == Some(x))
      || (x == "" && category in sources)
  {
    forall i | 0 <= i < |sources| && Category(sources[i]) == category && SourceAddress(sources[i]).Some?
      ensures SourceAddress(sources[i]).value in Classified(sources, category)
    {
      AddressIsClassName(sources[i]);
    }
    forall x | x in Classified(sources, category)
      ensures || (exists i :: 0 <= i < |sources| && Category(sources[i]) == category && SourceAddress(sources[i]) == Some(x))
              || (x == "" && category in sources)
    {
      var i :| 0 <= i < |sources| && Category(sources[i]) == category && ClassName(sources[i]) == x;
      AddressIsClassName(sources[i]);
      if '/' !in sources[i] {
        SplitFree(sources[i], '/');
      }
    }
  }

  // ---------------------------------------------------------------------
  // Trains

  /** The `(data, train_id, index)` triple `_gen_train_data` returns. */
  datatype Train = Train(data: Record, tid: nat, index: nat)

  /** Whether every source of the file can be read at position `p`. */
  predicate AllSourcesOk(f: File, p: nat)
  {
    forall i | 0 <= i < |Sources(f)| :: SourceOk(f, Sources(f)[i], p)
  }

  /** `_gen_train_data(p, only_this=filter)`, i.e. `train_from_index`, reading
      the clock once as `clock`. */
  function TrainFromIndex(f: File, p: nat, filter: Filter, clock: Timestamp): (r: Result<Train, Error>)
    requires Readable(f)
    ensures r.Success? <==> p < |TrainIds(f)| && AllSourcesOk(f, p)
    ensures r.Success? ==> r.value.tid == TrainIds(f)[p] && r.value.index == p
    ensures r.Success? ==> forall addr :: Get(r.value.data, addr) == DeviceRecord(f, p, filter, clock, Sources(f), addr)
    ensures r.Failure? ==> r.error.NoCategory? || r.error.MissingIndex? || r.error.MissingTable? || r.error.MissingColumn? || r.error.PositionOutOfRange?
    ensures r.Success? ==> Keys(r.value.data) == FirstOccurrences(KeptAddresses(filter, Sources(f)))
    ensures forall i | FirstUnreadable(f, p, filter, Sources(f), i) ::
      r == Failure(ReadSource(f, p, filter, clock, Sources(f)[i], []).error)
    ensures (forall i | 0 <= i < |Sources(f)| :: SourceReadable(f, p, filter, Sources(f)[i])) && p >= |TrainIds(f)| ==>
      r == Failure(PositionOutOfRange(p))
  {
    ReadSourcesSucceeds(f, p, filter, clock, Sources(f));
    ReadSourcesErrors(f, p, filter, clock, Sources(f));
    ReadSourcesFailsAtFirst(f, p, filter, clock, Sources(f));
    var data :- ReadSources(f, p, filter, clock, Sources(f));
    if p >= |TrainIds(f)| then Failure(PositionOutOfRange(p))
    else
      ReadSourcesRecord(f, p, filter, clock, Sources(f));
      ReadSourcesOrder(f, p, filter, clock, Sources(f));
      Success(Train(data, TrainIds(f)[p], p))
  }

  /** The devices of a train read from one file: a device is present exactly
      when a kept source is filed under it, and its metadata entry names the
      device and the train. */
  lemma TrainDevices(f: File, p: nat, filter: Filter, clock: Timestamp, addr: string)
    requires Readable(f)
    requires TrainFromIndex(f, p, filter, clock).Success?
    ensures var t := TrainFromIndex(f, p, filter, clock).value;
      Get(t.data, addr).Some? <==> exists i :: 0 <= i < |Sources(f)| && SourceKept(filter, Sources(f)[i]) && SourceAddress(Sources(f)[i]) == Some(addr)
    ensures var t := TrainFromIndex(f, p, filter, clock).value;
      Get(t.data, addr).Some? ==>
        MetadataKey in Get(t.data, addr).value && Get(t.data, addr).value[MetadataKey] == Metadata(addr, t.tid, clock)
  {
    var t := TrainFromIndex(f, p, filter, clock).value;
    assert Get(t.data, addr) == DeviceRecord(f, p, filter, clock, Sources(f), addr);
    DeviceRecordMetadata(f, p, filter, clock, Sources(f), addr);
  }

  /** `p` is the last position of `tid` in `ids`. */
  predicate LastPositionOf(ids: seq<nat>, tid: int, p: int)
  {
    0 <= p < |ids| && ids[p] == tid && forall q | p < q < |ids| :: ids[q] != tid
  }

  /** `train_from_id`: the id's position in the train-id list (its last one, as
      the `_trains` dictionary keeps it), or `KeyError`. */
  function TrainFromId(f: File, tid: int, filter: Filter, clock: Timestamp): (r: Result<Train, Error>)
    requires Readable(f)
    ensures r == Failure(TrainNotFound(tid)) <==> !exists p :: 0 <= p < |TrainIds(f)| && TrainIds(f)[p] == tid
    ensures r.Success? ==> r.value.tid == tid
    ensures r != Failure(TrainNotFound(tid)) ==>
      exists p :: LastPositionOf(TrainIds(f), tid, p) && r == TrainFromIndex(f, p, filter, clock)
  {
    var m := Positions(TrainIds(f));
    if tid >= 0 && tid in m then
      assert LastPositionOf(TrainIds(f), tid, m[tid]);
      TrainFromIndex(f, m[tid], filter, clock)
    else
      assert forall p | 0 <= p < |TrainIds(f)| :: TrainIds(f)[p] in m;
      Failure(TrainNotFound(tid))
  }

  /** What a generator performing the reads `rs` in order produces before it
      stops: the values read, and the exception that ended it early, if any.
      The reads have no effects, so computing them ahead changes nothing. */
  function Yielded<T, E>(rs: seq<Result<T, E>>): (r: (seq<T>, Option<E>))
  {
    if rs == [] then ([], None)
    else
      match rs[0]
      case Failure(e) => ([], Some(e))
      case Success(t) =>
        var rest := Yielded(rs[1..]);
        ([t] + rest.0, rest.1)
  }

  /** The generator yields the successful reads in order, and stops either
      after the last read or at the first read that fails, with that read's
      exception. */
  lemma {:induction false} YieldedMeaning<T, E>(rs: seq<Result<T, E>>)
    ensures var r := Yielded(rs);
      && |r.0| <= |rs|
      && (forall i | 0 <= i < |r.0| :: rs[i] == Success(r.0[i]))
      && (r.1.None? <==> |r.0| == |rs|)
      && (r.1.Some? ==> |r.0| < |rs| && rs[|r.0|] == Failure(r.1.value))
  {
    if rs != [] && rs[0].Success? {
      YieldedMeaning(rs[1..]);
      var rest := Yielded(rs[1..]);
      var r := Yielded(rs);
      assert r.0 == [rs[0].value] + rest.0;
      forall i | 0 <= i < |r.0|
        ensures rs[i] == Success(r.0[i])
      {
        if i > 0 {
          assert r.0[i] == rest.0[i - 1];
          assert rs[i] == rs[1..][i - 1];
        }
      }
      if r.1.Some? {
        assert rs[|r.0|] == rs[1..][|rest.0|];
      }
    }
  }

  /** The reads `trains()` performs: `_gen_train_data` at every position of
      the train-id list, `clocks(p)` being the clock reading while train `p`
      is read. */
  function TrainReads(f: File, filter: Filter, clocks: nat -> Timestamp): (rs: seq<Result<Train, Error>>)
    requires Readable(f)
    ensures |rs| == |TrainIds(f)| && forall p | 0 <= p < |rs| :: rs[p] == TrainFromIndex(f, p, filter, clocks(p))
  {
    seq(|TrainIds(f)|, p requires 0 <= p < |TrainIds(f)| => TrainFromIndex(f, p, filter, clocks(p)))
  }

  /** `trains()`. */
  function Trains(f: File, filter: Filter, clocks: nat -> Timestamp): (seq<Train>, Option<Error>)
    requires Readable(f)
  {
    Yielded(TrainReads(f, filter, clocks))
  }

  /** Iterating `trains()` yields the readable trains in file order, each
      carrying its own id and position; a complete iteration yields one train
      per train id, and an early stop carries the exception of the first
      position that cannot be read. */
  lemma TrainsInFileOrder(f: File, filter: Filter, clocks: nat -> Timestamp)
    requires Readable(f)
    ensures var r := Trains(f, filter, clocks);
      && (forall i | 0 <= i < |r.0| :: Success(r.0[i]) == TrainFromIndex(f, i, filter, clocks(i)))
      && (forall i | 0 <= i < |r.0| :: r.0[i].tid == TrainIds(f)[i] && r.0[i].index == i)
      && (r.1.None? <==> |r.0| == |TrainIds(f)|)
      && (r.1.Some? ==> Failure(r.1.value) == TrainFromIndex(f, |r.0|, filter, clocks(|r.0|)))
  {
    YieldedMeaning(TrainReads(f, filter, clocks));
  }
}
