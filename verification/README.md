# euxfel reader: a Dafny model

This project models the core of `euxfel/reader.py`, the European XFEL reader for
HDF5 run data, and proves properties of the model.

- **One file (`H5File`).** Opening a file yields three things: the source list
  (`METADATA/dataSourceId` with empty names dropped), the control and instrument
  device names, and the train-id list (`INDEX/trainId` with zeros dropped),
  together with the `_trains` id-to-position map.
- **Reading one train (`_gen_train_data`).** For every source, the reader looks
  up the source's `INDEX/<device>` row for the train. The row is in one of two
  encodings: legacy `first/last/status`, or current `first/count`. The reader
  then applies the device/parameter filter and slices every kept dataset of the
  source group into the device's record, under its dot-joined parameter path.
  Last, it attaches the `metadata` entry with the train id and a clock reading.
- **`train_from_index`, `train_from_id` and the `trains()` generator** are
  modelled on top of that read.
- **A run directory (`RunDirectory`).** The `_trains` index maps each train id to
  the files holding it, in file order. `ordered_trains` is that index sorted by
  id. `train_from_id` and `train_from_index` merge the per-file records with
  `dict.update`, in file order. Also modelled: the `trains()` generator and
  `_get_devices`.
- **`stack_data`.** Devices are ordered by the numbers in their names, then by
  name. A reference shape comes from the first non-empty value. Each device then
  fills its slot, or the slot is zero-filled.
- **`stack_detector_data`.** A device's module slot is the second-to-last number
  in its name. The last device for a module wins, and slots no device fills are
  left as the NaN fill cast to the data's dtype (NaN only for float data),
  modelled as `None`.

The HDF5 file is plain data (`H5File.File`):

- the source-name list;
- the train-id column;
- the per-source index tables;
- for every source, its datasets flattened in visiting order, each with its key and rows.

The train record, a Python dictionary of devices, is an insertion-ordered association list (`OrderedDict.ODict`). Its order matters in three places: the reference-shape scan, the detector overwrite order and the merge of file records all depend on it. A device's own record (parameter paths and `metadata`) is a plain map, so its key order is not modelled (see "## Left out"). Every exception the reader raises on these paths is a `Records.Error` in a `Result`, including the `KeyError` of an index group that lacks a column the reader looks up. Two failures are excluded by preconditions rather than returned as errors: numpy's broadcasting `ValueError` in a slot assignment (`Fits`, `PlacedFit`) and h5py slicing past a dataset's end (`Readable`).

Modules: `Wrappers` (Option/Result, Python indexing), `Text` (split/join),
`NaturalOrder` (digit runs and the device sort key), `Sorting` (insertion sort
and the uniqueness of ascending arrangements), `OrderedDict`, `Records` (values,
entries, errors), `IndexTable`, `H5File`, `RunDirectory`, `Stacking`.

## Model

| member | source | states |
|---|---|---|
| Wrappers.PyIndex | euxfel/reader.py:428 | a Python list index is valid exactly when it lies in [-n, n); a negative index counts from the end and a non-negative one is itself |
| Text.AfterFirst | euxfel/reader.py:124 | `s.split('/', 1)[1]` fails exactly when the separator is absent; otherwise it is the text after the first separator, and that prefix holds no separator |
| Text.SplitTail | euxfel/reader.py:124 | the pieces of the text after the first separator are the pieces of the whole text minus the first |
| Text.JoinSplit | euxfel/reader.py:104-105 | joining the pieces of a split with the separator gives the original text back |
| Text.SplitJoin | euxfel/reader.py:104-105 | splitting a join of separator-free pieces gives the pieces back |
| Text.SplitPiecesFree | euxfel/reader.py:104 | no piece of a split contains the separator |
| Text.SplitAfterPiece | euxfel/reader.py:124 | a separator-free piece, the separator and a rest split into that piece followed by the pieces of the rest |
| Text.DropEmpty | euxfel/reader.py:154-155 | `filter(None, parts)` keeps exactly the non-empty strings and never more strings than it was given |
| Text.DropEmptyConcat | euxfel/reader.py:154-155 | `filter(None, ...)` keeps order and multiplicity: filtering a concatenation is the concatenation of the filtered parts, and a single string is kept exactly when it is non-empty |
| Text.SplitPiecesWithin | euxfel/reader.py:155 | every character of a piece of a split comes from the split text |
| NaturalOrder.RunsAcrossSeparator | euxfel/reader.py:558 | `re.findall(r'\d+', ...)` on a text joined by a non-digit gives the numbers of the two sides, in order |
| NaturalOrder.RunsOfNumber | euxfel/reader.py:558 | a non-empty digit string is one number with its decimal value |
| NaturalOrder.RunsOfNoDigits | euxfel/reader.py:558 | a text without digits contains no numbers |
| NaturalOrder.SkipNoDigits | euxfel/reader.py:615 | digit-free text in front of a string adds no numbers to `re.findall(r'\d+', ...)` |
| NaturalOrder.DeviceLessStrictTotal | euxfel/reader.py:558-560 | ordering devices by (list of numbers in the name, name) is irreflexive and transitive, and it compares any two different names |
| Sorting.SortAscending | euxfel/reader.py:560 | sorting distinct keys under a strict total order puts them in ascending order |
| Sorting.AscendingUnique | euxfel/reader.py:560 | two ascending arrangements of the same elements are equal, so the sorted order is the only one |
| Sorting.CountBelowSort | euxfel/reader.py:560 | sorting does not change how many elements lie below a value |
| Sorting.RankIsPosition | euxfel/reader.py:568 | in an ascending list the element at position k has exactly k elements below it |
| OrderedDict.Put | euxfel/reader.py:147-148 | `d[k] = v` makes k map to v, leaves the other keys unchanged, keeps an existing key in place and appends a new key |
| OrderedDict.Update | euxfel/reader.py:399 | after `d.update(e)` a key of e has e's value and any other key keeps d's; d's keys stay first, in their order |
| OrderedDict.UpdateKeyOrder | euxfel/reader.py:399 | after `d.update(e)` the keys are d's keys in their order followed by the keys of e that d lacks, in e's order |
| OrderedDict.UpdateOrder | euxfel/reader.py:399 | one assignment of `update`: a key new to d goes right after d's keys and before the new keys of the rest of e |
| OrderedDict.MissingSkips | euxfel/reader.py:399 | a key of d that e does not hold does not change which keys of e are new to d |
| OrderedDict.FirstOccurrences | euxfel/reader.py:147-148 | the keys a dict gains by assigning to `xs` in turn: every element of xs once, none twice |
| OrderedDict.PutFirstOccurrences | euxfel/reader.py:147-148 | assigning one more key to a dict keyed by the first occurrences of xs keys it by the first occurrences of xs followed by that key |
| OrderedDict.UpdatePresent | euxfel/reader.py:399 | after `d.update(e)` a key is present exactly when it was in d or in e |
| Records.Zeros | euxfel/reader.py:567 | `np.zeros(shape)` has that shape and holds only zeros |
| IndexTable.RowRange | euxfel/reader.py:129-138 | the row range a source records for a train: legacy tables give `first..last` when `status` is set; current tables give `count` rows from `first` when `count > 0`; a column the encoding needs that is missing raises `KeyError` (`first` first), a position past a column raises `IndexError`; with every column present only the position can fail |
| IndexTable.EncodingsAgree | euxfel/reader.py:129-138 | a `first/count` table reads exactly like its legacy translation `last = first + count - 1`, `status = count > 0` |
| IndexTable.LastDecidesEncoding | euxfel/reader.py:129-138 | a group with a `last` column is read in the legacy encoding, whatever `count` column it also has |
| H5File.Sources | euxfel/reader.py:99-100 | the source list holds exactly the non-empty data source names, in their order: splitting the name column anywhere splits the list there too |
| H5File.NonZero | euxfel/reader.py:111-112 | the train-id list holds exactly the non-zero ids of the column, none of them zero, and is no longer than the column |
| H5File.NonZeroConcat | euxfel/reader.py:111-112 | dropping zeros keeps order and multiplicity: it distributes over concatenation |
| H5File.NonZeroOne | euxfel/reader.py:111-112 | a single id is kept exactly when it is not zero |
| H5File.Positions | euxfel/reader.py:113 | `_trains` maps exactly the listed ids to a position holding them, and it is the last such position |
| H5File.AlignedPositions | euxfel/reader.py:111-113 | with zeros trailing and ids increasing, the train-id list is a prefix of the column, so list position equals index row, and the ids strictly increase |
| H5File.AddressIsClassName | euxfel/reader.py:103-105 | the device address data is filed under (line 124 and lines 140-141) is the name `__init__` classifies the source under, and it exists exactly when the name has a '/' |
| H5File.ClassifiedAreAddresses | euxfel/reader.py:103-109 | the control and instrument names are the addresses of that category's sources; the one exception is a source named only by its category, which gives the empty name |
| H5File.Slice | euxfel/reader.py:160-163 | a one-row range yields that row; a longer range yields an array of exactly the rows `first..last` |
| H5File.AssignKeys | euxfel/reader.py:161-163 | after the assignments a key is present exactly when it was before or was assigned |
| H5File.AssignLast | euxfel/reader.py:161-163 | the last value assigned to a key is the one it holds |
| H5File.AssignUntouched | euxfel/reader.py:161-163 | a key never assigned keeps its old value |
| H5File.AssignSource | euxfel/reader.py:161-163 | every value held afterwards is the old one or one assigned to that key |
| H5File.AssignConcat | euxfel/reader.py:163-170 | two runs of assignments equal their concatenation |
| H5File.LeafWritesSound | euxfel/reader.py:152-165 | every write of `append_data` comes from a dataset the parameter filter keeps |
| H5File.LeafWritesComplete | euxfel/reader.py:152-165 | every dataset the parameter filter keeps is written |
| H5File.ParamPathPieces | euxfel/reader.py:154-155 | splitting a parameter path at '.' gives the path base, when there is one, then the non-empty segments of the dataset key, in order, when none holds a '.' |
| H5File.ReadSource | euxfel/reader.py:119-170 | one source succeeds exactly when its index row and group exist and, if kept, the position is inside the train-id list; a dropped source changes nothing; a kept one adds its slices and metadata to its device |
| H5File.ReadSourcesSucceeds | euxfel/reader.py:119-170 | the source loop raises exactly when some source cannot be read at the position; a position past the train-id list with no kept source gives an empty record |
| H5File.ReadSourcesFirstError | euxfel/reader.py:119-170 | the source loop raises the exception of the first source that cannot be read, whatever was read before it |
| H5File.ReadSourcesFailsAtFirst | euxfel/reader.py:119-170 | whichever source is the first unreadable one decides the loop's exception |
| H5File.ReadSourceFailsAlike | euxfel/reader.py:119-138 | the exception a source raises does not depend on the record read so far |
| H5File.KeptAddresses | euxfel/reader.py:140-145 | an address is listed exactly when a kept source is filed under it |
| H5File.ReadSourcesOrder | euxfel/reader.py:144-148 | the record's devices come in the order in which their first kept source is listed |
| H5File.ReadSourcesErrors | euxfel/reader.py:124-138 | the loop raises only missing-category, missing-index, missing-group, missing-column or position errors |
| H5File.ReadSourcesRecord | euxfel/reader.py:144-170 | every device's entry in the loop's record is what its kept sources' assignments leave, in source order |
| H5File.ReadOwnSource | euxfel/reader.py:147-170 | reading a kept source adds its slices and then its metadata to its device's record so far |
| H5File.ReadOtherSource | euxfel/reader.py:144-149 | reading a source filed elsewhere, or dropped, leaves a device's record alone |
| H5File.SourceWritesMeaning | euxfel/reader.py:151-165 | a source writes exactly the slices of its kept datasets under their paths, and nothing when it is inactive for the train |
| H5File.ZeroCountAssignsNothing | euxfel/reader.py:136-138 | a `first/count` source whose count for the train is zero writes no parameter |
| H5File.DeviceWritesSound | euxfel/reader.py:144-170 | every assignment to a device is its metadata or a write of one of its sources |
| H5File.DeviceWritesComplete | euxfel/reader.py:144-170 | every write of a kept source filed under a device is among the device's assignments |
| H5File.DeviceWritesInclude | euxfel/reader.py:144-170 | the writes of the kept source at one position are among the device's assignments |
| H5File.DeviceWritesFromKept | euxfel/reader.py:144-145 | a device receives assignments only from kept sources filed under it |
| H5File.DeviceWritesHaveMetadata | euxfel/reader.py:167-170 | every kept source filed under a device adds the metadata assignment |
| H5File.DeviceWritesPresent | euxfel/reader.py:144-149 | a device has assignments exactly when a kept source is filed under it |
| H5File.DeviceWritesEnd | euxfel/reader.py:170 | the last assignment to a device is its metadata |
| H5File.DeviceRecordMetadata | euxfel/reader.py:147-170 | a device has a record exactly when a kept source is filed under it, and its `metadata` names the device and the train id |
| H5File.ParamFromDataset | euxfel/reader.py:152-163 | every parameter path in a device's record comes from a kept dataset of one of its sources |
| H5File.ParamToRecord | euxfel/reader.py:152-163 | every kept dataset of a device's sources puts its path in the record |
| H5File.DeviceRecordParams | euxfel/reader.py:152-163 | a non-metadata path is in a device's record exactly when a kept dataset stores under it |
| H5File.DeviceRecordValues | euxfel/reader.py:152-163 | every parameter value in a device's record is the slice of a kept dataset stored under that path |
| H5File.OnlyMetadataWrites | euxfel/reader.py:151-170 | if no source of a device writes a parameter, its only assignments are metadata |
| H5File.InactiveDeviceHoldsOnlyMetadata | euxfel/reader.py:151-170 | a kept device whose sources are all inactive for the train still gets a record, holding the metadata alone |
| H5File.TrainFromIndex | euxfel/reader.py:115-172 | a train read succeeds exactly when every source is readable at the position and the position is in the train-id list; it returns that id and position, each device's record is the one its sources' assignments leave, and the devices come in the order of their first kept source; a failure is the exception of the first unreadable source, or `IndexError` for a position past the train-id list when all sources are readable |
| H5File.TrainDevices | euxfel/reader.py:144-172 | a train read from a file has a device exactly when a kept source is filed under it, and that device's metadata names it and the train id |
| H5File.TrainFromId | euxfel/reader.py:246-252 | `KeyError` exactly when the id is not in the train-id list; otherwise it is the read at the id's last position, carrying that id |
| H5File.YieldedMeaning | euxfel/reader.py:216-217 | a generator yields the successful reads in order and stops after the last read or at the first failure, with that failure |
| H5File.TrainsInFileOrder | euxfel/reader.py:174-217 | iterating a file yields trains in file order, each with its id and position; a full iteration yields one train per id, and an early stop carries the error of the first unreadable position |
| RunDirectory.Count | euxfel/reader.py:328-331 | an id occurs in a list a number of times that is zero exactly when it is absent |
| RunDirectory.CountIncreasing | euxfel/reader.py:328 | in a strictly increasing train-id list an id occurs at most once |
| RunDirectory.HoldersMembers | euxfel/reader.py:326-331 | a file is among a train's holders exactly when the train is in its train-id list |
| RunDirectory.HoldersOrdered | euxfel/reader.py:327-331 | a train's holders come in file order, each once when every file's ids increase |
| RunDirectory.AddFileGet | euxfel/reader.py:328-331 | adding a file appends it to every id it holds, once per occurrence, creating the entry if needed, and leaves other ids alone |
| RunDirectory.TrainIndexHolders | euxfel/reader.py:326-331 | `_trains[t]` is the list of files holding t, and t is a key exactly when some file holds it |
| RunDirectory.ItemsOfDict | euxfel/reader.py:333 | an item is in `items()` exactly when looking up its key gives its value |
| RunDirectory.OrderedTrainsMeaning | euxfel/reader.py:333 | `ordered_trains` lists every train of the run once, by strictly increasing id, each with the files holding it |
| RunDirectory.TidLessTotal | euxfel/reader.py:333 | the items of a dictionary are distinct and totally ordered by key, so sorting them has one outcome |
| RunDirectory.RunTrainIds | euxfel/reader.py:326-333 | the ids of `ordered_trains` are exactly the ids of the run's files |
| RunDirectory.MergeResults | euxfel/reader.py:396-399 | merging succeeds exactly when every file read succeeds, and otherwise raises the error of the first read that failed |
| RunDirectory.FailedStep | euxfel/reader.py:397-399 | one more read keeps a first failure the first, and makes the new read the first failure when all before succeeded |
| RunDirectory.MergeStep | euxfel/reader.py:399 | each file's record updates the merge of the earlier ones |
| RunDirectory.MergePresent | euxfel/reader.py:396-399 | a device is in the merged record exactly when some file's record has it |
| RunDirectory.MergeSource | euxfel/reader.py:396-399 | a device's merged record is the record of one of the files |
| RunDirectory.MergeLastWins | euxfel/reader.py:396-399 | the last file having a device decides its merged record |
| RunDirectory.MergeTrain | euxfel/reader.py:396-400 | a merged train carries the requested id |
| RunDirectory.IndexEntry | euxfel/reader.py:392-395 | `_trains` has an entry exactly for the run's trains, listing the files that hold them |
| RunDirectory.RunTrainFromId | euxfel/reader.py:392-400 | `KeyError` exactly when no file holds the id; otherwise the merge of the holders' reads, carrying the id |
| RunDirectory.MergeTrainSucceeds | euxfel/reader.py:397-399 | the merge succeeds exactly when every listed file reads the train; otherwise it raises the error of the first listed file that cannot |
| RunDirectory.RunTrainSucceeds | euxfel/reader.py:392-400 | a run's train is read exactly when every file holding it can read it |
| RunDirectory.MergeNeverMissing | euxfel/reader.py:398 | a holder never reports the train missing, so the merge never raises `KeyError` for it |
| RunDirectory.FileDataDevices | euxfel/reader.py:398 | a file's record for a train has a device exactly when a kept source is filed under it, with metadata naming the device and train |
| RunDirectory.RunTrainDevices | euxfel/reader.py:392-400 | a run's train has a device exactly when some file holding it has a kept source filed under it |
| RunDirectory.RunTrainMetadata | euxfel/reader.py:392-400 | every device of a run's train carries metadata naming the device and the train |
| RunDirectory.RunTrainFromIndex | euxfel/reader.py:427-435 | `IndexError` exactly when the index is outside `ordered_trains` (negative counting from the end); otherwise it is the `train_from_id` read of that entry's id |
| RunDirectory.OrderedEntry | euxfel/reader.py:428 | an entry of `ordered_trains` is a train of the run together with its holders |
| RunDirectory.RunTrainsInOrder | euxfel/reader.py:359-365 | iterating a run yields the entries of `ordered_trains` in order, each read by `train_from_id`, and a full iteration covers them all |
| RunDirectory.RunTrainsAscending | euxfel/reader.py:359-365 | the train ids a run yields strictly increase |
| RunDirectory.RunTrainAt | euxfel/reader.py:427-435 | the train read at a position of `ordered_trains` carries that entry's id and equals its `train_from_id` read |
| RunDirectory.NamesOver | euxfel/reader.py:443-445 | the names of one category over all files are exactly those some file records |
| RunDirectory.RunDevices | euxfel/reader.py:437-446 | `_get_devices` returns exactly the control names and the instrument names of some file |
| Stacking.Reference | euxfel/reader.py:562-565 | the reference shape is absent exactly when every device passes; otherwise it is the shape of the first non-empty value, or the scan raises at a `metadata` entry before one |
| Stacking.ShiftWitness | euxfel/reader.py:562-563 | the scan's witness in the devices after a passing first device is a witness for all devices |
| Stacking.TargetAxis | euxfel/reader.py:575 | `np.moveaxis` accepts a target in [-rank, rank), counting negatives from the end, and raises otherwise |
| Stacking.StackShape | euxfel/reader.py:567 | after moving the new axis, the slot count sits at that axis and the other dimensions are the item shape |
| Stacking.Select | euxfel/reader.py:558-559 | the kept elements are exactly those satisfying the condition, and distinct inputs give distinct results |
| Stacking.SelectConcat | euxfel/reader.py:558-559 | a list comprehension with a condition keeps order and multiplicity: it distributes over concatenation |
| Stacking.SelectOne | euxfel/reader.py:558-559 | a single element is kept exactly when the condition holds for it |
| Stacking.SelectLast | euxfel/reader.py:558-559 | the last element is kept after the others exactly when the condition holds for it |
| Stacking.StackOrder | euxfel/reader.py:558-560 | the stacking order holds exactly the non-excluded devices |
| Stacking.StackOrderMeaning | euxfel/reader.py:558-560 | the stacking order lists every non-excluded device once, ascending by (numbers in the name, name) |
| Stacking.SlotValue | euxfel/reader.py:569-574 | a slot holds the device's value when it is non-empty, and zeros when it is missing or empty; a `metadata` entry raises |
| Stacking.FillSlots | euxfel/reader.py:568-574 | the slot loop succeeds exactly when no device holds a `metadata` dictionary under `data`; otherwise it raises at the first that does; on success each slot holds its device's slot value |
| Stacking.RaisingStep | euxfel/reader.py:568-574 | one more device: nothing raises exactly when nothing raised before and the new device does not; a first raising device stays the first, and the new one is the first when none before raised |
| Stacking.StackData | euxfel/reader.py:538-575 | it succeeds exactly when the reference scan does and, given a reference shape, no non-excluded device holds a `metadata` dictionary under `data` and the axis is in range; a failing reference scan raises its error; no reference shape gives the empty result; otherwise the first non-excluded device in stacking order holding a `metadata` dictionary raises, then an axis outside `[-(n+1), n]` for items of rank n raises, and else the stack succeeds with the reference shape, one slot per non-excluded device in stacking order, each its slot value, at the normalised axis |
| Stacking.StackDataSlot | euxfel/reader.py:568-572 | a non-excluded device lands at its rank among the non-excluded devices, and that slot holds its value |
| Stacking.ModuleIndex | euxfel/reader.py:615 | the module index exists exactly when the name has at least two numbers, and it is the second-to-last |
| Stacking.ModuleOfChannel | euxfel/reader.py:615 | for a name `<text><non-digit><module><separator><channel><digit-free text>` with a digit-free separator of any length, the module index is the module number |
| Stacking.AgipdModule | euxfel/reader.py:615 | the AGIPD source `SPB_DET_AGIPD1M-1/DET/7CH0:xtdf` has module index 7 |
| Stacking.LastTwoRuns | euxfel/reader.py:615 | a number, a digit-free separator, a number and digit-free text contain exactly those two numbers |
| Stacking.LastRun | euxfel/reader.py:615 | a number followed by digit-free text contains that number alone |
| Stacking.NumberThen | euxfel/reader.py:615 | a number followed by a separator contributes its value first |
| Stacking.Placement | euxfel/reader.py:612-621 | a device fills a slot exactly when its value is non-empty and its module index is below `modules`; an index past the end is skipped |
| Stacking.PlaceModules | euxfel/reader.py:610-621 | the detector loop succeeds exactly when no selected device holds a `metadata` dictionary under `data`; otherwise it raises at the first that does; it keeps the slot count |
| Stacking.PlaceModulesStep | euxfel/reader.py:610-621 | one more device sets the slot it places at and leaves the others |
| Stacking.PlaceModulesKeeps | euxfel/reader.py:609-621 | a module slot no device places at keeps its initial content |
| Stacking.PlaceModulesLastWins | euxfel/reader.py:610-621 | the last device placing at a module slot decides its value |
| Stacking.StackDetectorData | euxfel/reader.py:578-622 | it succeeds exactly when the reference scan does and, given a reference shape, `modules >= 0`, no selected device holds a `metadata` dictionary under `data` and the axis is in range; a failing reference scan raises its error; no reference shape gives the empty result; otherwise a negative `modules` raises, then the first selected device holding a `metadata` dictionary, then an axis outside `[-(n+1), n]` for items of rank n, and else the stack succeeds with `modules` slots, the reference shape and the normalised axis, holding what the placement loop leaves |
| Stacking.DetectorSlot | euxfel/reader.py:609-622 | module slot m holds the value of the last selected device numbered m, and stays unfilled (the NaN fill cast to the data's dtype, modelled as `None`) when none is |
| Stacking.DetectorDevicesMeaning | euxfel/reader.py:602 | the selected devices are exactly those whose name contains `only` and is not excluded, each once, in record order: splitting the record's keys anywhere splits the selection there, and a single key is kept exactly when it is selected |

## Left out

- File system and HDF5 I/O are not modelled: `osp.isfile`, `h5py.is_hdf5`, `h5py.File`, `glob` and `close`/context management. A file is given as data, and a run is given as its list of files in `glob` order.
- The `print` calls are not modelled (the source name in the loop, and the messages of the caught `KeyError`/`IndexError`), nor is the `__main__` block. They have no effect on results.
- `FilenameInfo`, `detector_info`, `info` and `train_info` are left out: they are outside the modelled core.
- `time()` is a parameter. Each train read takes one `Timestamp`, and the generators take one per train. `reader.py` calls `time()` once per source, so different devices of one train may carry different times. The split of `str(time())` into integers is not modelled.
- H5File.TrainFromIndex: positions are natural numbers. A negative `train_index` would index h5py columns and the train-id list from the end; that is not modelled.
- H5File.TrainFromIndex: requires `Readable(f)`, meaning every announced row range is non-empty (`first <= last`) and lies inside every dataset of its source. The file format promises this. h5py's behaviour on a range past a dataset's end is not modelled. A legacy row with `status` set and `last < first` is also excluded, although `reader.py` would store the empty slice `value[first:last+1]` for it.
- Records.Device: a device's record is a map, not an insertion-ordered dict. The order of its parameter paths (`visititems` order, source after source) is not modelled, nor is the position of `metadata` (where the device's first kept source inserted it). No modelled operation iterates over a device's record: stacking looks values up by key.
- H5File.TrainsInFileOrder: the generator's reads are computed up front and cut at the first failure. Reads have no side effects, so this yields the same trains; laziness itself is not modelled.
- RunDirectory.RunTrainsInOrder: the same up-front reading as for files. One `Timestamp` is used for all files of a train.
- NaturalOrder.DeviceLessStrictTotal: `\d` is taken to be the ASCII digits. Python's `re` also matches other Unicode decimal digits.
- Stacking.StackData: requires `Fits`, meaning every device in the stacking order that holds a non-empty value under `data` holds one of the reference shape. Devices outside the stacking order are not constrained. For any other shape numpy broadcasting decides whether the slot assignment works, and broadcasting is not modelled.
- Stacking.StackDetectorData: requires `PlacedFit`, meaning every selected device that fills a module slot holds a value of the reference shape, for the same reason. Devices that are not selected, or that are skipped, are not constrained.
- Stacking.StackData and Stacking.StackDetectorData: the default arguments (`axis=-3`, and `modules=16`, `only=''`, `xcept=()`) are not modelled; every argument is given explicitly.
- Stacking.StackData: the result is the stacked slots, the item shape and the normalised target axis. The transposed array `np.moveaxis` builds is not built. dtypes are not modelled, and values are integers or nested arrays of them.
- Stacking.StackDetectorData: an unfilled module slot is `None` where numpy stores the NaN fill cast to the data's dtype (NaN only for float data). A module number past the end is skipped, as `reader.py` does by catching `IndexError`. A device without two numbers in its name is also skipped, because `[-2]` raises `IndexError` there too.
