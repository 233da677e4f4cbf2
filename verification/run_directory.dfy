/** A run directory (`RunDirectory`): the files of one run, joined by train
    id. A file is named by its position in `files`, the order in which the
    directory listing returned the HDF5 files. */
module RunDirectory {
  import opened Wrappers
  import opened OrderedDict
  import opened Records
  import opened Sorting
  import opened H5File

  ghost predicate RunReadable(files: seq<File>)
  {
    forall k | 0 <= k < |files| :: Readable(files[k])
  }

  /** How many times `t` occurs in `ids`. */
  function Count(ids: seq<nat>, t: nat): (r: nat)
    ensures r == 0 <==> t !in ids
    ensures r <= |ids|
  {
    if ids == [] then 0
    else
      var n := |ids| - 1;
      assert t in ids <==> t in ids[..n] || ids[n] == t by {
        assert ids == ids[..n] + [ids[n]];
      }
      Count(ids[..n], t) + (if ids[n] == t then 1 else 0)
  }

  /** `k`, `c` times over. */
  function Repeat(k: nat, c: nat): (r: seq<nat>)
    ensures |r| == c && forall i | 0 <= i < c :: r[i] == k
  {
    seq(c, _ => k)
  }

  /** In a strictly increasing list an id occurs at most once. */
  lemma {:induction false} CountIncreasing(ids: seq<nat>, t: nat)
    requires forall i, j | 0 <= i < j < |ids| :: ids[i] < ids[j]
    ensures Count(ids, t) <= 1
  {
    if ids != [] {
      var n := |ids| - 1;
      CountIncreasing(ids[..n], t);
      if ids[n] == t {
        assert t !in ids[..n];
      }
    }
  }

  // ---------------------------------------------------------------------
  // `__init__`

  /** The files holding train `t`, in file order, each listed once for every
      occurrence of `t` in its train-id list. */
  function Holders(files: seq<File>, t: nat): (r: seq<nat>)
    ensures forall j | 0 <= j < |r| :: r[j] < |files|
  {
    if files == [] then []
    else
      var n := |files| - 1;
      Holders(files[..n], t) + Repeat(n, Count(TrainIds(files[n]), t))
  }

  /** A file holds train `t` exactly when `t` is in its train-id list. */
  lemma {:induction false} HoldersMembers(files: seq<File>, t: nat)
    ensures forall k :: k in Holders(files, t) <==> 0 <= k < |files| && t in TrainIds(files[k])
  {
    if files != [] {
      var n := |files| - 1;
      HoldersMembers(files[..n], t);
      assert forall k | 0 <= k < n :: files[..n][k] == files[k];
      var c := Count(TrainIds(files[n]), t);
      assert Holders(files, t) == Holders(files[..n], t) + Repeat(n, c);
      forall k
        ensures k in Repeat(n, c) <==> k == n && t in TrainIds(files[n])
      {
        if k == n && t in TrainIds(files[n]) {
          assert Repeat(n, c)[0] == n;
        }
      }
    }
  }

  /** The holders come in file order; with ascending train ids in every file,
      each holder is listed once. */
  lemma {:induction false} HoldersOrdered(files: seq<File>, t: nat)
    ensures forall i, j | 0 <= i < j < |Holders(files, t)| :: Holders(files, t)[i] <= Holders(files, t)[j]
    ensures (forall k | 0 <= k < |files| :: IdsAligned(files[k])) ==>
      forall i, j | 0 <= i < j < |Holders(files, t)| :: Holders(files, t)[i] < Holders(files, t)[j]
  {
    if files != [] {
      var n := |files| - 1;
      HoldersOrdered(files[..n], t);
      HoldersMembers(files[..n], t);
      var h := Holders(files[..n], t);
      var c := Count(TrainIds(files[n]), t);
      var hs := h + Repeat(n, c);
      assert Holders(files, t) == hs;
      var aligned := forall k | 0 <= k < |files| :: IdsAligned(files[k]);
      if aligned {
        assert forall k | 0 <= k < n :: files[..n][k] == files[k];
        assert IdsAligned(files[n]);
        AlignedPositions(files[n].trainIdColumn);
        CountIncreasing(TrainIds(files[n]), t);
      }
      forall i, j | 0 <= i < j < |hs|
        ensures hs[i] <= hs[j] && (aligned ==> hs[i] < hs[j])
      {
        if i < |h| && |h| <= j {
          assert hs[i] in h;
        }
      }
    }
  }

  /** The inner loop of `__init__`: file `k` is appended to `_trains[tid]` for
      every id of its train-id list, in order, the entry created on first use. */
  function AddFile(idx: ODict<nat, seq<nat>>, ids: seq<nat>, k: nat): ODict<nat, seq<nat>>
  {
    if ids == [] then idx
    else
      var n := |ids| - 1;
      var d := AddFile(idx, ids[..n], k);
      Put(d, ids[n], Get(d, ids[n]).GetOr([]) + [k])
  }

  /** `self._trains`. */
  function TrainIndex(files: seq<File>): ODict<nat, seq<nat>>
  {
    if files == [] then []
    else
      var n := |files| - 1;
      AddFile(TrainIndex(files[..n]), TrainIds(files[n]), n)
  }

  /** Adding a file appends it to the entry of every id it holds, once per
      occurrence, and leaves the other entries alone. */
  lemma {:induction false} AddFileGet(idx: ODict<nat, seq<nat>>, ids: seq<nat>, k: nat, t: nat)
    ensures Get(AddFile(idx, ids, k), t) ==
      if Count(ids, t) == 0 then Get(idx, t) else Some(Get(idx, t).GetOr([]) + Repeat(k, Count(ids, t)))
  {
    if ids != [] {
      var n := |ids| - 1;
      var d := AddFile(idx, ids[..n], k);
      AddFileGet(idx, ids[..n], k, t);
      var c := Count(ids[..n], t);
      var base := Get(idx, t).GetOr([]);
      assert AddFile(idx, ids, k) == Put(d, ids[n], Get(d, ids[n]).GetOr([]) + [k]);
      if ids[n] == t {
        assert Count(ids, t) == c + 1;
        assert Get(AddFile(idx, ids, k), t) == Some(Get(d, t).GetOr([]) + [k]);
        assert Get(d, t).GetOr([]) == base + Repeat(k, c);
        RepeatOneMore(base, k, c);
      } else {
        assert Count(ids, t) == c;
        assert Get(AddFile(idx, ids, k), t) == Get(d, t);
      }
    }
  }

  lemma RepeatOneMore(base: seq<nat>, k: nat, c: nat)
    ensures base + Repeat(k, c) + [k] == base + Repeat(k, c + 1)
  {
    assert Repeat(k, c) + [k] == Repeat(k, c + 1);
  }

  /** `_trains[t]` is the list of files holding `t`, and `t` is a key exactly
      when some file holds it. */
  lemma {:induction false} TrainIndexHolders(files: seq<File>, t: nat)
    ensures Get(TrainIndex(files), t) == if Holders(files, t) == [] then None else Some(Holders(files, t))
  {
    if files != [] {
      var n := |files| - 1;
      TrainIndexHolders(files[..n], t);
      AddFileGet(TrainIndex(files[..n]), TrainIds(files[n]), n, t);
      var c := Count(TrainIds(files[n]), t);
      if c == 0 {
        assert Holders(files, t) == Holders(files[..n], t);
      }
    }
  }

  /** Python's tuple order on `(tid, files)` items whose ids differ. */
  function TidLess(a: (nat, seq<nat>), b: (nat, seq<nat>)): bool
  {
    a.0 < b.0
  }

  /** `self.ordered_trains`: the items of `_trains`, sorted. */
  function OrderedTrains(files: seq<File>): seq<(nat, seq<nat>)>
  {
    Sort(TrainIndex(files), TidLess)
  }

  /** An item is in a dictionary's item list exactly when looking up its key
      gives its value. */
  lemma ItemsOfDict(d: ODict<nat, seq<nat>>, e: (nat, seq<nat>))
    ensures e in d <==> Get(d, e.0) == Some(e.1)
  {
    if e in d {
      var i :| 0 <= i < |d| && d[i] == e;
      UniqueIndex(d, i);
    }
    if Get(d, e.0) == Some(e.1) {
      var i := IndexOf(d, e.0);
      UniqueIndex(d, i);
    }
  }

  /** `ordered_trains` lists every train of the run once, by strictly
      increasing id, each with the files holding it. */
  lemma OrderedTrainsMeaning(files: seq<File>)
    ensures var ot := OrderedTrains(files);
      forall i, j | 0 <= i < j < |ot| :: ot[i].0 < ot[j].0
    ensures forall e :: e in OrderedTrains(files) <==> Holders(files, e.0) != [] && e.1 == Holders(files, e.0)
  {
    var d := TrainIndex(files);
    TidLessTotal(d);
    SortAscending(d, TidLess);
    forall e
      ensures e in OrderedTrains(files) <==> Holders(files, e.0) != [] && e.1 == Holders(files, e.0)
    {
      assert e in OrderedTrains(files) <==> e in multiset(d);
      ItemsOfDict(d, e);
      TrainIndexHolders(files, e.0);
    }
  }

  /** Distinct keys make the items of a dictionary distinct and totally
      ordered by key. */
  lemma TidLessTotal(d: ODict<nat, seq<nat>>)
    ensures Distinct(d) && StrictTotalOn(TidLess, d)
  {
    forall x, y | x in d && y in d && x != y
      ensures TidLess(x, y) || TidLess(y, x)
    {
      var i :| 0 <= i < |d| && d[i] == x;
      var j :| 0 <= j < |d| && d[j] == y;
    }
  }

  /** The train ids of `ordered_trains` are the ids of all the run's files. */
  lemma RunTrainIds(files: seq<File>, t: nat)
    ensures (exists i :: 0 <= i < |OrderedTrains(files)| && OrderedTrains(files)[i].0 == t) <==>
      exists k :: 0 <= k < |files| && t in TrainIds(files[k])
  {
    OrderedTrainsMeaning(files);
    HoldersMembers(files, t);
    var ot := OrderedTrains(files);
    if k :| 0 <= k < |files| && t in TrainIds(files[k]) {
      assert k in Holders(files, t);
      assert (t, Holders(files, t)) in ot;
    }
    if i :| 0 <= i < |ot| && ot[i].0 == t {
      assert ot[i] in ot;
      var k := Holders(files, t)[0];
      assert k in Holders(files, t);
    }
  }

  // ---------------------------------------------------------------------
  // Reading one train across files

  /** `fh.train_from_id(tid, devices=filter)[0]`. */
  function FileData(f: File, tid: int, filter: Filter, clock: Timestamp): Result<Record, Error>
    requires Readable(f)
  {
    var train :- TrainFromId(f, tid, filter, clock);
    Success(train.data)
  }

  /** The reads of train `tid` from the files `fs`, in order. Reading has no
      effect on the files, so reading all of them up front and stopping at
      the first failure gives what the loop gives. */
  function FileReads(files: seq<File>, fs: seq<nat>, tid: int, filter: Filter, clock: Timestamp): (rs: seq<Result<Record, Error>>)
    requires RunReadable(files)
    requires forall j | 0 <= j < |fs| :: fs[j] < |files|
    ensures |rs| == |fs| && forall j | 0 <= j < |fs| :: rs[j] == FileData(files[fs[j]], tid, filter, clock)
  {
    seq(|fs|, j requires 0 <= j < |fs| => FileData(files[fs[j]], tid, filter, clock))
  }

  /** `rs[j]` is the first read that failed. */
  predicate FirstFailed<T>(rs: seq<Result<T, Error>>, j: int)
  {
    0 <= j < |rs| && rs[j].Failure? && forall j' | 0 <= j' < j :: rs[j'].Success?
  }

  /** One more read: a first failure stays the first, and the new read is the
      first failure when all before succeeded. */
  lemma FailedStep<T>(rs: seq<Result<T, Error>>, prefix: seq<Result<T, Error>>)
    requires rs != [] && prefix == rs[..|rs| - 1]
    ensures forall j | FirstFailed(prefix, j) :: FirstFailed(rs, j) && prefix[j] == rs[j]
    ensures (forall j | 0 <= j < |prefix| :: prefix[j].Success?) && rs[|rs| - 1].Failure? ==> FirstFailed(rs, |rs| - 1)
  {
    assert forall j | 0 <= j < |prefix| :: prefix[j] == rs[j];
  }

  /** `data = {}; for fh in files: data.update(...)`, stopping at the first
      exception, which it raises. */
  function MergeResults(rs: seq<Result<Record, Error>>): (r: Result<Record, Error>)
    ensures r.Success? <==> forall j | 0 <= j < |rs| :: rs[j].Success?
    ensures r.Failure? ==> exists j :: FirstFailed(rs, j) && rs[j] == Failure(r.error)
  {
    if rs == [] then Success([])
    else
      var n := |rs| - 1;
      assert forall j | 0 <= j < n :: rs[..n][j] == rs[j];
      FailedStep(rs, rs[..n]);
      var acc :- MergeResults(rs[..n]);
      var d :- rs[n];
      Success(Update(acc, d))
  }

  /** One step of the merge: the last read updates the merge of the others. */
  lemma MergeStep(rs: seq<Result<Record, Error>>)
    requires rs != []
    requires MergeResults(rs).Success?
    ensures MergeResults(rs[..|rs| - 1]).Success? && rs[|rs| - 1].Success?
    ensures MergeResults(rs).value == Update(MergeResults(rs[..|rs| - 1]).value, rs[|rs| - 1].value)
  {
  }

  /** A device is in the merged record exactly when one of the files' records has it. */
  lemma {:induction false} MergePresent(rs: seq<Result<Record, Error>>, addr: string)
    requires MergeResults(rs).Success?
    ensures Get(MergeResults(rs).value, addr).Some? <==> exists j :: 0 <= j < |rs| && Get(rs[j].value, addr).Some?
  {
    if rs != [] {
      var n := |rs| - 1;
      var prefix := rs[..n];
      MergeStep(rs);
      MergePresent(prefix, addr);
      UpdatePresent(MergeResults(prefix).value, rs[n].value, addr);
      SomeHolderSplit(rs, prefix, addr);
    }
  }

  /** Some read has the device exactly when one of all but the last has it
      or the last has it. */
  lemma SomeHolderSplit(rs: seq<Result<Record, Error>>, prefix: seq<Result<Record, Error>>, addr: string)
    requires rs != [] && prefix == rs[..|rs| - 1]
    requires forall j | 0 <= j < |rs| :: rs[j].Success?
    ensures (exists j :: 0 <= j < |rs| && Get(rs[j].value, addr).Some?) <==>
      (exists j :: 0 <= j < |prefix| && Get(prefix[j].value, addr).Some?) || Get(rs[|rs| - 1].value, addr).Some?
  {
    if j :| 0 <= j < |rs| && Get(rs[j].value, addr).Some? {
      if j < |prefix| {
        assert prefix[j] == rs[j];
      }
    }
    if j :| 0 <= j < |prefix| && Get(prefix[j].value, addr).Some? {
      assert prefix[j] == rs[j];
    }
  }

  /** A device's merged record is the record of some file. */
  lemma {:induction false} MergeSource(rs: seq<Result<Record, Error>>, addr: string)
    requires MergeResults(rs).Success?
    requires Get(MergeResults(rs).value, addr).Some?
    ensures exists j :: 0 <= j < |rs| && Get(MergeResults(rs).value, addr) == Get(rs[j].value, addr)
  {
    var n := |rs| - 1;
    assert forall j | 0 <= j < n :: rs[..n][j] == rs[j];
    if Get(rs[n].value, addr).None? {
      MergeSource(rs[..n], addr);
    }
  }

  /** The file read last that has a device decides its record. */
  lemma {:induction false} MergeLastWins(rs: seq<Result<Record, Error>>, addr: string, j: nat)
    requires MergeResults(rs).Success?
    requires j < |rs| && Get(rs[j].value, addr).Some?
    requires forall j' | j < j' < |rs| :: Get(rs[j'].value, addr).None?
    ensures Get(MergeResults(rs).value, addr) == Get(rs[j].value, addr)
  {
    var n := |rs| - 1;
    assert forall i | 0 <= i < n :: rs[..n][i] == rs[i];
    if j < n {
      MergeLastWins(rs[..n], addr, j);
    }
  }

  /** Whether some file of the run holds train `tid`. */
  predicate InRun(files: seq<File>, tid: int)
  {
    exists k :: 0 <= k < |files| && tid >= 0 && tid in TrainIds(files[k])
  }

  /** The reads of a train held by files `fs`, merged in order. */
  function MergeTrain(files: seq<File>, tid: nat, fs: seq<nat>, filter: Filter, clock: Timestamp): (r: Result<(nat, Record), Error>)
    requires RunReadable(files)
    requires forall j | 0 <= j < |fs| :: fs[j] < |files|
    ensures r.Success? ==> r.value.0 == tid
  {
    var data :- MergeResults(FileReads(files, fs, tid, filter, clock));
    Success((tid, data))
  }

  /** `_trains` has an entry for exactly the trains of the run, listing the
      files that hold them. */
  lemma IndexEntry(files: seq<File>, tid: nat)
    ensures Get(TrainIndex(files), tid).Some? <==> InRun(files, tid)
    ensures Get(TrainIndex(files), tid).Some? ==>
      var fs := Get(TrainIndex(files), tid).value;
      fs == Holders(files, tid) && forall j | 0 <= j < |fs| :: fs[j] < |files| && tid in TrainIds(files[fs[j]])
  {
    TrainIndexHolders(files, tid);
    HoldersMembers(files, tid);
    var fs := Holders(files, tid);
    assert forall j | 0 <= j < |fs| :: fs[j] in fs;
    if fs != [] {
      assert fs[0] in fs;
    }
  }

  /** `RunDirectory.train_from_id`: the train's data merged over the files
      holding it, in file order, or `KeyError`. */
  function RunTrainFromId(files: seq<File>, tid: int, filter: Filter, clock: Timestamp): (r: Result<(nat, Record), Error>)
    requires RunReadable(files)
    ensures r == Failure(TrainNotFound(tid)) <==> !InRun(files, tid)
    ensures r.Success? ==> r.value.0 == tid
    ensures InRun(files, tid) ==> r == MergeTrain(files, tid, Holders(files, tid), filter, clock)
  {
    if tid < 0 then Failure(TrainNotFound(tid))
    else
      IndexEntry(files, tid);
      match Get(TrainIndex(files), tid)
      case None => Failure(TrainNotFound(tid))
      case Some(fs) =>
        MergeNeverMissing(files, tid, fs, filter, clock);
        MergeTrain(files, tid, fs, filter, clock)
  }

  /** Merging succeeds exactly when every file read succeeds. */
  lemma MergeTrainSucceeds(files: seq<File>, tid: nat, fs: seq<nat>, filter: Filter, clock: Timestamp)
    requires RunReadable(files)
    requires forall j | 0 <= j < |fs| :: fs[j] < |files|
    ensures MergeTrain(files, tid, fs, filter, clock).Success? <==>
      forall j | 0 <= j < |fs| :: FileData(files[fs[j]], tid, filter, clock).Success?
    ensures MergeTrain(files, tid, fs, filter, clock).Failure? ==>
      exists j :: 0 <= j < |fs| && FileData(files[fs[j]], tid, filter, clock) == Failure(MergeTrain(files, tid, fs, filter, clock).error)
        && forall j' | 0 <= j' < j :: FileData(files[fs[j']], tid, filter, clock).Success?
  {
    var rs := FileReads(files, fs, tid, filter, clock);
    assert MergeResults(rs).Success? <==> forall j | 0 <= j < |rs| :: rs[j].Success?;
    if MergeResults(rs).Failure? {
      var j :| FirstFailed(rs, j) && rs[j] == Failure(MergeResults(rs).error);
      assert MergeTrain(files, tid, fs, filter, clock).error == MergeResults(rs).error;
    }
  }

  /** A train of the run is read exactly when every file holding it can read it. */
  lemma RunTrainSucceeds(files: seq<File>, tid: nat, filter: Filter, clock: Timestamp)
    requires RunReadable(files)
    requires InRun(files, tid)
    ensures RunTrainFromId(files, tid, filter, clock).Success? <==>
      forall k | 0 <= k < |files| && tid in TrainIds(files[k]) :: FileData(files[k], tid, filter, clock).Success?
  {
    HoldersMembers(files, tid);
    var fs := Holders(files, tid);
    MergeTrainSucceeds(files, tid, fs, filter, clock);
    if forall k | 0 <= k < |files| && tid in TrainIds(files[k]) :: FileData(files[k], tid, filter, clock).Success? {
      assert forall j | 0 <= j < |fs| :: fs[j] in fs;
    }
    if forall j | 0 <= j < |fs| :: FileData(files[fs[j]], tid, filter, clock).Success? {
      forall k | 0 <= k < |files| && tid in TrainIds(files[k])
        ensures FileData(files[k], tid, filter, clock).Success?
      {
        assert k in fs;
        var j :| 0 <= j < |fs| && fs[j] == k;
      }
    }
  }

  /** A file holding a train never reports it missing, so neither does
      merging the reads of the files holding it. */
  lemma MergeNeverMissing(files: seq<File>, tid: nat, fs: seq<nat>, filter: Filter, clock: Timestamp)
    requires RunReadable(files)
    requires forall j | 0 <= j < |fs| :: fs[j] < |files| && tid in TrainIds(files[fs[j]])
    ensures MergeTrain(files, tid, fs, filter, clock) != Failure(TrainNotFound(tid))
  {
    var rs := FileReads(files, fs, tid, filter, clock);
    forall j | 0 <= j < |fs|
      ensures rs[j] != Failure(TrainNotFound(tid))
    {
      var f := files[fs[j]];
      var p :| 0 <= p < |TrainIds(f)| && TrainIds(f)[p] == tid;
      assert rs[j] == FileData(f, tid, filter, clock);
    }
  }

  /** The devices a file reports for a train it holds, with their metadata. */
  lemma FileDataDevices(f: File, tid: int, filter: Filter, clock: Timestamp, addr: string)
    requires Readable(f)
    requires FileData(f, tid, filter, clock).Success?
    ensures Get(FileData(f, tid, filter, clock).value, addr).Some? <==>
      exists i :: 0 <= i < |Sources(f)| && SourceKept(filter, Sources(f)[i]) && SourceAddress(Sources(f)[i]) == Some(addr)
    ensures Get(FileData(f, tid, filter, clock).value, addr).Some? ==>
      var d := Get(FileData(f, tid, filter, clock).value, addr).value;
      MetadataKey in d && d[MetadataKey] == Metadata(addr, tid as nat, clock)
  {
    var r := TrainFromId(f, tid, filter, clock);
    var p :| 0 <= p < |TrainIds(f)| && TrainIds(f)[p] == tid && r == TrainFromIndex(f, p, filter, clock);
    TrainDevices(f, p, filter, clock, addr);
  }

  /** A run's train has a device exactly when some file holding the train has
      a kept source filed under it. */
  lemma RunTrainDevices(files: seq<File>, tid: int, filter: Filter, clock: Timestamp, addr: string)
    requires RunReadable(files)
    requires RunTrainFromId(files, tid, filter, clock).Success?
    ensures Get(RunTrainFromId(files, tid, filter, clock).value.1, addr).Some? <==>
      exists k, i :: 0 <= k < |files| && tid in TrainIds(files[k]) && 0 <= i < |Sources(files[k])|
        && SourceKept(filter, Sources(files[k])[i]) && SourceAddress(Sources(files[k])[i]) == Some(addr)
  {
    assert InRun(files, tid);
    var fs := Holders(files, tid);
    HoldersMembers(files, tid);
    var rs := FileReads(files, fs, tid, filter, clock);
    MergePresent(rs, addr);
    var data := RunTrainFromId(files, tid, filter, clock).value.1;
    assert data == MergeResults(rs).value;
    if Get(data, addr).Some? {
      var j :| 0 <= j < |rs| && Get(rs[j].value, addr).Some?;
      assert fs[j] in fs;
      FileDataDevices(files[fs[j]], tid, filter, clock, addr);
    }
    if k, i :| (0 <= k < |files| && tid in TrainIds(files[k]) && 0 <= i < |Sources(files[k])|
        && SourceKept(filter, Sources(files[k])[i]) && SourceAddress(Sources(files[k])[i]) == Some(addr)) {
      assert k in fs;
      var j :| 0 <= j < |fs| && fs[j] == k;
      FileDataDevices(files[k], tid, filter, clock, addr);
      assert Get(rs[j].value, addr).Some?;
    }
  }

  /** Every device of a run's train carries metadata naming the device and the train. */
  lemma RunTrainMetadata(files: seq<File>, tid: int, filter: Filter, clock: Timestamp, addr: string)
    requires RunReadable(files)
    requires RunTrainFromId(files, tid, filter, clock).Success?
    requires Get(RunTrainFromId(files, tid, filter, clock).value.1, addr).Some?
    ensures var d := Get(RunTrainFromId(files, tid, filter, clock).value.1, addr).value;
      MetadataKey in d && d[MetadataKey] == Metadata(addr, tid as nat, clock)
  {
    assert InRun(files, tid);
    var fs := Holders(files, tid);
    var rs := FileReads(files, fs, tid, filter, clock);
    assert RunTrainFromId(files, tid, filter, clock).value.1 == MergeResults(rs).value;
    MergeSource(rs, addr);
    var j :| 0 <= j < |rs| && Get(MergeResults(rs).value, addr) == Get(rs[j].value, addr);
    FileDataDevices(files[fs[j]], tid, filter, clock, addr);
  }

  /** `RunDirectory.train_from_index`: the train at position `index` of
      `ordered_trains`, counting from the end for a negative index, or
      `IndexError`. */
  function RunTrainFromIndex(files: seq<File>, index: int, filter: Filter, clock: Timestamp): (r: Result<(nat, Record), Error>)
    requires RunReadable(files)
    ensures PyIndex(index, |OrderedTrains(files)|).None? ==> r == Failure(PositionOutOfRange(index))
    ensures PyIndex(index, |OrderedTrains(files)|).Some? ==>
      r == RunTrainFromId(files, OrderedTrains(files)[PyIndex(index, |OrderedTrains(files)|).value].0, filter, clock)
  {
    var ot := OrderedTrains(files);
    match PyIndex(index, |ot|)
    case None => Failure(PositionOutOfRange(index))
    case Some(j) =>
      OrderedEntry(files, j);
      MergeTrain(files, ot[j].0, ot[j].1, filter, clock)
  }

  /** An entry of `ordered_trains` is a train of the run with its holders. */
  lemma OrderedEntry(files: seq<File>, j: nat)
    requires j < |OrderedTrains(files)|
    ensures var e := OrderedTrains(files)[j];
      InRun(files, e.0) && e.1 == Holders(files, e.0) && forall k | 0 <= k < |e.1| :: e.1[k] < |files|
  {
    var e := OrderedTrains(files)[j];
    OrderedTrainsMeaning(files);
    assert e in OrderedTrains(files);
    HoldersMembers(files, e.0);
    assert e.1[0] in e.1;
  }

  /** The reads `RunDirectory.trains()` performs: `train_from_index` at every
      position of `ordered_trains`, `clocks(j)` being the clock reading while
      the `j`-th train is read. */
  function RunReads(files: seq<File>, filter: Filter, clocks: nat -> Timestamp): (rs: seq<Result<(nat, Record), Error>>)
    requires RunReadable(files)
    ensures |rs| == |OrderedTrains(files)|
    ensures forall j | 0 <= j < |rs| :: rs[j] == RunTrainFromIndex(files, j, filter, clocks(j))
  {
    seq(|OrderedTrains(files)|, j requires 0 <= j < |OrderedTrains(files)| => RunTrainFromIndex(files, j, filter, clocks(j)))
  }

  /** `RunDirectory.trains()`: every train of the run by increasing id. */
  function RunTrains(files: seq<File>, filter: Filter, clocks: nat -> Timestamp): (seq<(nat, Record)>, Option<Error>)
    requires RunReadable(files)
  {
    Yielded(RunReads(files, filter, clocks))
  }

  /** Iterating a run yields the entries of `ordered_trains` in order, each
      read by `train_from_id`; a complete iteration covers every entry. */
  lemma RunTrainsInOrder(files: seq<File>, filter: Filter, clocks: nat -> Timestamp)
    requires RunReadable(files)
    ensures var r := RunTrains(files, filter, clocks);
      && |r.0| <= |OrderedTrains(files)|
      && (forall i | 0 <= i < |r.0| :: r.0[i].0 == OrderedTrains(files)[i].0
            && Success(r.0[i]) == RunTrainFromId(files, r.0[i].0, filter, clocks(i)))
      && (r.1.None? <==> |r.0| == |OrderedTrains(files)|)
  {
    var rs := RunReads(files, filter, clocks);
    YieldedMeaning(rs);
    var r := RunTrains(files, filter, clocks);
    forall i | 0 <= i < |r.0|
      ensures r.0[i].0 == OrderedTrains(files)[i].0 && Success(r.0[i]) == RunTrainFromId(files, r.0[i].0, filter, clocks(i))
    {
      RunTrainAt(files, i, filter, clocks(i), r.0[i]);
    }
  }

  /** The train ids a run yields strictly increase. */
  lemma RunTrainsAscending(files: seq<File>, filter: Filter, clocks: nat -> Timestamp)
    requires RunReadable(files)
    ensures var r := RunTrains(files, filter, clocks);
      forall i, j | 0 <= i < j < |r.0| :: r.0[i].0 < r.0[j].0
  {
    RunTrainsInOrder(files, filter, clocks);
    OrderedTrainsMeaning(files);
  }

  /** The train read at position `i` of `ordered_trains` carries that entry's id. */
  lemma RunTrainAt(files: seq<File>, i: nat, filter: Filter, clock: Timestamp, t: (nat, Record))
    requires RunReadable(files)
    requires RunTrainFromIndex(files, i, filter, clock) == Success(t)
    ensures i < |OrderedTrains(files)| && t.0 == OrderedTrains(files)[i].0
    ensures Success(t) == RunTrainFromId(files, t.0, filter, clock)
  {
  }

  /** The names of one category's sources over all the given files. */
  function NamesOver(files: seq<File>, category: string): (r: set<string>)
    ensures forall x :: x in r <==> NamedIn(files, category, x)
  {
    if files == [] then {}
    else
      var n := |files| - 1;
      var rest := NamesOver(files[..n], category);
      NamesStep(files, files[..n], category);
      rest + Classified(Sources(files[n]), category)
  }

  /** Some file among `files` has a source `x` of the category. */
  predicate NamedIn(files: seq<File>, category: string, x: string)
  {
    exists k :: 0 <= k < |files| && x in Classified(Sources(files[k]), category)
  }

  lemma NamesStep(files: seq<File>, prefix: seq<File>, category: string)
    requires files != [] && prefix == files[..|files| - 1]
    ensures forall x :: NamedIn(files, category, x) <==>
      NamedIn(prefix, category, x) || x in Classified(Sources(files[|files| - 1]), category)
  {
    assert forall k | 0 <= k < |prefix| :: prefix[k] == files[k];
  }

  /** `_get_devices(src)`: the control device names and the instrument
      channel names of all the given files. */
  function RunDevices(files: seq<File>): (r: (set<string>, set<string>))
    ensures forall x :: x in r.0 <==> exists k :: 0 <= k < |files| && x in ControlDevices(files[k])
    ensures forall x :: x in r.1 <==> exists k :: 0 <= k < |files| && x in InstrumentChannels(files[k])
  {
    (NamesOver(files, "CONTROL"), NamesOver(files, "INSTRUMENT"))
  }
}
