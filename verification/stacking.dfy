/** `stack_data` and `stack_detector_data`: one parameter gathered from the
    devices of a train into a single array with a new leading axis, which is
    finally moved to position `axis`. A stacked array is described by its
    slots along the new axis, the common shape of a slot, and the normalised
    target axis. */
module Stacking {
  import opened Wrappers
  import opened Text
  import opened OrderedDict
  import opened Records
  import opened Sorting
  import opened NaturalOrder

  /** The result of stacking: `np.empty(0)` / `np.array([])` when there is
      nothing to stack, else the slots of the new axis, the shape of one slot
      and where `np.moveaxis` puts the new axis. */
  datatype Stack<T> = Empty | Stacked(slots: seq<T>, itemShape: seq<nat>, axis: nat)

  /** A device the reference scan passes over: it lacks `data`, or holds an
      empty array there. */
  predicate Passes(dev: Device, data: string)
  {
    data !in dev || (dev[data].Param? && ZeroSize(dev[data].value))
  }

  /** `next((d[data].shape for d in train.values() if data in d and 0 not in
      d[data].shape), None)`: the shape of the first non-empty value stored
      under `data`, in device order. Reaching a `metadata` dictionary raises,
      as it has no `.shape`. */
  function Reference(train: seq<(string, Device)>, data: string): (r: Result<Option<seq<nat>>, Error>)
    ensures r == Success(None) <==> forall i | 0 <= i < |train| :: Passes(train[i].1, data)
    ensures r.Success? && r.value.Some? ==>
      exists i :: 0 <= i < |train| && (forall j | 0 <= j < i :: Passes(train[j].1, data))
        && data in train[i].1 && train[i].1[data].Param? && !ZeroSize(train[i].1[data].value)
        && r.value.value == Shape(train[i].1[data].value)
    ensures r.Failure? ==>
      exists i :: 0 <= i < |train| && (forall j | 0 <= j < i :: Passes(train[j].1, data))
        && data in train[i].1 && train[i].1[data].Metadata? && r.error == NotAnArray(train[i].0)
  {
    if train == [] then Success(None)
    else
      var dev := train[0].1;
      if data !in dev then
        var r := Reference(train[1..], data);
        assert forall i | 0 < i < |train| :: train[1..][i - 1] == train[i];
        ShiftWitness(train, data, r);
        r
      else
        match dev[data]
        case Metadata(_, _, _) => Failure(NotAnArray(train[0].0))
        case Param(v) =>
          if ZeroSize(v) then
            var r := Reference(train[1..], data);
            assert forall i | 0 < i < |train| :: train[1..][i - 1] == train[i];
            ShiftWitness(train, data, r);
            r
          else Success(Some(Shape(v)))
  }

  /** A witness for the tail of a train is one for the train when its first
      device passes. */
  lemma ShiftWitness(train: seq<(string, Device)>, data: string, r: Result<Option<seq<nat>>, Error>)
    requires train != [] && Passes(train[0].1, data)
    requires r.Success? && r.value.Some? ==>
      exists i :: 0 <= i < |train[1..]| && (forall j | 0 <= j < i :: Passes(train[1..][j].1, data))
        && data in train[1..][i].1 && train[1..][i].1[data].Param? && !ZeroSize(train[1..][i].1[data].value)
        && r.value.value == Shape(train[1..][i].1[data].value)
    requires r.Failure? ==>
      exists i :: 0 <= i < |train[1..]| && (forall j | 0 <= j < i :: Passes(train[1..][j].1, data))
        && data in train[1..][i].1 && train[1..][i].1[data].Metadata? && r.error == NotAnArray(train[1..][i].0)
    ensures r.Success? && r.value.Some? ==>
      exists i :: 0 <= i < |train| && (forall j | 0 <= j < i :: Passes(train[j].1, data))
        && data in train[i].1 && train[i].1[data].Param? && !ZeroSize(train[i].1[data].value)
        && r.value.value == Shape(train[i].1[data].value)
    ensures r.Failure? ==>
      exists i :: 0 <= i < |train| && (forall j | 0 <= j < i :: Passes(train[j].1, data))
        && data in train[i].1 && train[i].1[data].Metadata? && r.error == NotAnArray(train[i].0)
  {
    if r.Success? && r.value.Some? {
      var i :| 0 <= i < |train[1..]| && (forall j | 0 <= j < i :: Passes(train[1..][j].1, data))
        && data in train[1..][i].1 && train[1..][i].1[data].Param? && !ZeroSize(train[1..][i].1[data].value)
        && r.value.value == Shape(train[1..][i].1[data].value);
      assert forall j | 0 <= j < i + 1 :: Passes(train[j].1, data) by {
        forall j | 0 <= j < i + 1 ensures Passes(train[j].1, data) {
          if j > 0 { assert train[j] == train[1..][j - 1]; }
        }
      }
    }
    if r.Failure? {
      var i :| 0 <= i < |train[1..]| && (forall j | 0 <= j < i :: Passes(train[1..][j].1, data))
        && data in train[1..][i].1 && train[1..][i].1[data].Metadata? && r.error == NotAnArray(train[1..][i].0);
      assert forall j | 0 <= j < i + 1 :: Passes(train[j].1, data) by {
        forall j | 0 <= j < i + 1 ensures Passes(train[j].1, data) {
          if j > 0 { assert train[j] == train[1..][j - 1]; }
        }
      }
    }
  }

  /** Device `d` stores the `metadata` dictionary under `data`: reading its
      `.shape` raises. */
  predicate HoldsMetadata(train: Record, d: string, data: string)
  {
    Get(train, d).Some? && data in Get(train, d).value && Get(train, d).value[data].Metadata?
  }

  /** `devices[k]` is the first of `devices` whose slot raises. */
  predicate FirstRaising(train: Record, devices: seq<string>, data: string, k: int)
  {
    && 0 <= k < |devices|
    && HoldsMetadata(train, devices[k], data)
    && forall j | 0 <= j < k :: !HoldsMetadata(train, devices[j], data)
  }

  /** No slot of `devices` raises. */
  predicate NoneRaises(train: Record, devices: seq<string>, data: string)
  {
    forall k | 0 <= k < |devices| :: !HoldsMetadata(train, devices[k], data)
  }

  /** Device `d` holds a non-empty array under `data`: the value a slot
      assignment copies. */
  predicate HoldsValue(train: Record, d: string, data: string)
  {
    Get(train, d).Some? && data in Get(train, d).value && Get(train, d).value[data].Param?
      && !ZeroSize(Get(train, d).value[data].value)
  }

  /** Every device of `devices` holding a non-empty value under `data` holds
      one of shape `shape`. For any other shape numpy's broadcasting rules
      decide what the slot assignment does, which the model does not cover. */
  ghost predicate Fits(train: Record, devices: seq<string>, data: string, shape: seq<nat>)
  {
    forall k | 0 <= k < |devices| && HoldsValue(train, devices[k], data) ::
      Shape(Get(train, devices[k]).value[data].value) == shape
  }

  /** `np.moveaxis(a, 0, axis)` on an array of rank `rank`: the target axis,
      counted from the end when negative, or `AxisError`. */
  function TargetAxis(axis: int, rank: nat): (r: Result<nat, Error>)
    ensures r.Success? <==> -(rank as int) <= axis < rank
    ensures r.Success? ==> r.value < rank && (axis >= 0 ==> r.value == axis) && (axis < 0 ==> r.value == axis + rank)
    ensures r.Failure? ==> r.error == AxisOutOfRange(axis)
  {
    match PyIndex(axis, rank)
    case None => Failure(AxisOutOfRange(axis))
    case Some(a) => Success(a)
  }

  /** The shape of a stacked array once its new axis has been moved. */
  function StackShape<T>(st: Stack<T>): (r: seq<nat>)
    requires st.Stacked? && st.axis <= |st.itemShape|
    ensures |r| == |st.itemShape| + 1
    ensures r[st.axis] == |st.slots|
    ensures r[..st.axis] + r[st.axis + 1..] == st.itemShape
  {
    st.itemShape[..st.axis] + [|st.slots|] + st.itemShape[st.axis..]
  }

  /** The elements of `xs` satisfying `keep`, in order. */
  function Select(xs: seq<string>, keep: string -> bool): (r: seq<string>)
    ensures forall x :: x in r <==> x in xs && keep(x)
    ensures Distinct(xs) ==> Distinct(r)
  {
    if xs == [] then []
    else
      var n := |xs| - 1;
      var rest := Select(xs[..n], keep);
      assert forall x :: x in xs <==> x in xs[..n] || x == xs[n];
      assert Distinct(xs) ==> xs[n] !in xs[..n];
      if keep(xs[n]) then rest + [xs[n]] else rest
  }

  /** Selection keeps order and multiplicity: it distributes over
      concatenation, which together with `SelectOne` fixes its result on
      every list. */
  lemma {:induction false} SelectConcat(a: seq<string>, b: seq<string>, keep: string -> bool)
    ensures Select(a + b, keep) == Select(a, keep) + Select(b, keep)
    decreases |b|
  {
    if b == [] {
      assert a + b == a;
    } else {
      var n := |b| - 1;
      SelectConcat(a, b[..n], keep);
      SelectLast(a + b, keep);
      SelectLast(b, keep);
      assert (a + b)[..|a + b| - 1] == a + b[..n];
    }
  }

  /** A single element is selected exactly when `keep` holds for it. */
  lemma SelectOne(x: string, keep: string -> bool)
    ensures Select([x], keep) == if keep(x) then [x] else []
  {
    assert [x][..0] == [];
  }

  /** Selecting from a non-empty list: the selection from all but the last
      element, then the last element when it is kept. */
  lemma SelectLast(xs: seq<string>, keep: string -> bool)
    requires xs != []
    ensures Select(xs, keep) == Select(xs[..|xs| - 1], keep) + if keep(xs[|xs| - 1]) then [xs[|xs| - 1]] else []
  {
  }

  // ---------------------------------------------------------------------
  // stack_data

  /** `dev not in xcept`. */
  function NotExcluded(xcept: seq<string>): string -> bool
  {
    d => d !in xcept
  }

  /** `devices` in `stack_data`: the non-excluded devices, ordered by
      (digit runs, name). */
  function StackOrder(train: Record, xcept: seq<string>): (r: seq<string>)
    ensures forall d :: d in r <==> d in Keys(train) && d !in xcept
  {
    var cands := Select(Keys(train), NotExcluded(xcept));
    var r := Sort(cands, DeviceLess);
    assert forall d :: d in r <==> d in multiset(r);
    assert forall d :: d in cands <==> d in multiset(cands);
    r
  }

  /** What `stack_data` puts in a device's slot: its value, or zeros when the
      value is missing (the `KeyError` it reports and skips) or empty. */
  function SlotValue(dev: Device, data: string, shape: seq<nat>): (r: Result<Value, Error>)
    ensures r.Failure? <==> data in dev && dev[data].Metadata?
    ensures r.Success? && data in dev && !ZeroSize(dev[data].value) ==> r.value == dev[data].value
    ensures r.Success? && !(data in dev && !ZeroSize(dev[data].value)) ==> r.value == Zeros(shape)
  {
    if data !in dev then Success(Zeros(shape))
    else
      match dev[data]
      case Metadata(_, _, _) => Failure(NotAnArray(""))
      case Param(v) => if ZeroSize(v) then Success(Zeros(shape)) else Success(v)
  }

  /** The slot loop of `stack_data`, stopping at the first uncaught exception. */
  function FillSlots(train: Record, devices: seq<string>, data: string, shape: seq<nat>): (r: Result<seq<Value>, Error>)
    requires forall d | d in devices :: d in Keys(train)
    ensures r.Success? <==> forall k | 0 <= k < |devices| :: SlotValue(Get(train, devices[k]).value, data, shape).Success?
    ensures r.Success? ==> |r.value| == |devices|
    ensures r.Success? ==> forall k | 0 <= k < |devices| :: Success(r.value[k]) == SlotValue(Get(train, devices[k]).value, data, shape)
    ensures r.Success? <==> NoneRaises(train, devices, data)
    ensures r.Failure? ==> exists k :: FirstRaising(train, devices, data, k) && r.error == NotAnArray(devices[k])
  {
    if devices == [] then Success([])
    else
      var n := |devices| - 1;
      assert forall k | 0 <= k < n :: devices[..n][k] == devices[k];
      RaisingStep(train, devices, devices[..n], data);
      var rest :- FillSlots(train, devices[..n], data, shape);
      var dev := Get(train, devices[n]).value;
      if SlotValue(dev, data, shape).Failure? then Failure(NotAnArray(devices[n]))
      else Success(rest + [SlotValue(dev, data, shape).value])
  }

  /** One more device: nothing raises iff nothing raised before and the new
      device does not raise; a first raising device stays the first, and the
      new one is the first when none before raised. */
  lemma RaisingStep(train: Record, devices: seq<string>, prefix: seq<string>, data: string)
    requires devices != [] && prefix == devices[..|devices| - 1]
    ensures NoneRaises(train, devices, data) <==>
      NoneRaises(train, prefix, data) && !HoldsMetadata(train, devices[|devices| - 1], data)
    ensures forall k | FirstRaising(train, prefix, data, k) :: FirstRaising(train, devices, data, k) && prefix[k] == devices[k]
    ensures NoneRaises(train, prefix, data) && HoldsMetadata(train, devices[|devices| - 1], data) ==>
      FirstRaising(train, devices, data, |devices| - 1)
  {
    assert forall k | 0 <= k < |prefix| :: prefix[k] == devices[k];
  }

  /** `stack_data(train, data, axis, xcept)`. The reference scan raises
      first; without a reference shape there is nothing to stack; otherwise the
      first slot (in stacking order) whose value is a `metadata` dictionary
      raises, then an axis outside `[-(rank), rank)` of the stacked array, and
      else the stack is built. */
  function StackData(train: Record, data: string, axis: int, xcept: seq<string>): (r: Result<Stack<Value>, Error>)
    requires Reference(train, data).Success? && Reference(train, data).value.Some? ==>
      Fits(train, StackOrder(train, xcept), data, Reference(train, data).value.value)
    ensures r.Success? <==>
      && Reference(train, data).Success?
      && (Reference(train, data).value.Some? ==>
            && NoneRaises(train, StackOrder(train, xcept), data)
            && -(|Reference(train, data).value.value| + 1) <= axis <= |Reference(train, data).value.value|)
    ensures Reference(train, data).Failure? ==> r == Failure(Reference(train, data).error)
    ensures Reference(train, data) == Success(None) ==> r == Success(Empty)
    ensures Reference(train, data).Success? && Reference(train, data).value.Some? ==>
      var shape := Reference(train, data).value.value;
      var devices := StackOrder(train, xcept);
      && (forall k | FirstRaising(train, devices, data, k) :: r == Failure(NotAnArray(devices[k])))
      && (NoneRaises(train, devices, data) && !(-(|shape| + 1) <= axis <= |shape|) ==> r == Failure(AxisOutOfRange(axis)))
      && (NoneRaises(train, devices, data) && -(|shape| + 1) <= axis <= |shape| ==>
            && r.Success? && r.value.Stacked?
            && r.value.itemShape == shape && |r.value.slots| == |devices|
            && r.value.axis == if axis < 0 then axis + |shape| + 1 else axis)
    ensures r.Success? && r.value.Stacked? ==>
      && Reference(train, data) == Success(Some(r.value.itemShape))
      && |r.value.slots| == |StackOrder(train, xcept)|
      && r.value.axis <= |r.value.itemShape|
      && (forall k | 0 <= k < |r.value.slots| :: Success(r.value.slots[k]) ==
            SlotValue(Get(train, StackOrder(train, xcept)[k]).value, data, r.value.itemShape))
  {
    var reference :- Reference(train, data);
    match reference
    case None => Success(Empty)
    case Some(shape) =>
      var devices := StackOrder(train, xcept);
      var slots :- FillSlots(train, devices, data, shape);
      var ax :- TargetAxis(axis, |shape| + 1);
      Success(Stacked(slots, shape, ax))
  }

  /** The stacking order lists every non-excluded device once, ascending in
      (digit runs, name). */
  lemma StackOrderMeaning(train: Record, xcept: seq<string>)
    ensures forall d :: d in StackOrder(train, xcept) <==> d in Keys(train) && d !in xcept
    ensures Distinct(StackOrder(train, xcept))
    ensures Ascending(StackOrder(train, xcept), DeviceLess)
  {
    var cands := Select(Keys(train), NotExcluded(xcept));
    assert Distinct(Keys(train));
    forall a, b, c | a in cands && b in cands && c in cands
      ensures !DeviceLess(a, a)
      ensures DeviceLess(a, b) && DeviceLess(b, c) ==> DeviceLess(a, c)
      ensures a != b ==> DeviceLess(a, b) || DeviceLess(b, a)
    {
      DeviceLessStrictTotal(a, b, c);
    }
    SortAscending(cands, DeviceLess);
    var sorted := StackOrder(train, xcept);
    forall d
      ensures d in sorted <==> d in cands
    {
      assert d in sorted <==> d in multiset(sorted);
    }
    forall i, j | 0 <= i < j < |sorted|
      ensures sorted[i] != sorted[j]
    {
      DeviceLessStrictTotal(sorted[i], sorted[i], sorted[i]);
    }
  }

  /** Where a device lands: a non-excluded device's slot is its rank among the
      non-excluded devices, the number of them that sort before it. */
  lemma StackDataSlot(train: Record, data: string, axis: int, xcept: seq<string>, d: string)
    requires Reference(train, data).Success? && Reference(train, data).value.Some? ==>
      Fits(train, StackOrder(train, xcept), data, Reference(train, data).value.value)
    requires StackData(train, data, axis, xcept).Success? && StackData(train, data, axis, xcept).value.Stacked?
    requires d in Keys(train) && d !in xcept
    ensures var st := StackData(train, data, axis, xcept).value;
      var k := CountBelow(Select(Keys(train), NotExcluded(xcept)), d, DeviceLess);
      k < |st.slots| && Success(st.slots[k]) == SlotValue(Get(train, d).value, data, st.itemShape)
  {
    var cands := Select(Keys(train), NotExcluded(xcept));
    var sorted := StackOrder(train, xcept);
    StackOrderMeaning(train, xcept);
    var k :| 0 <= k < |sorted| && sorted[k] == d;
    forall a, b, c | a in sorted && b in sorted && c in sorted
      ensures !DeviceLess(a, a)
      ensures DeviceLess(a, b) && DeviceLess(b, c) ==> DeviceLess(a, c)
      ensures a != b ==> DeviceLess(a, b) || DeviceLess(b, a)
    {
      DeviceLessStrictTotal(a, b, c);
    }
    RankIsPosition(sorted, k, DeviceLess);
    CountBelowSort(cands, d, DeviceLess);
  }

  // ---------------------------------------------------------------------
  // stack_detector_data

  /** `only in dev and dev not in xcept`. */
  function Picked(only: string, xcept: seq<string>): string -> bool
  {
    d => Contains(d, only) && d !in xcept
  }

  /** `devices` in `stack_detector_data`: the devices whose name contains
      `only` and is not excluded, in record order. */
  function DetectorDevices(train: Record, only: string, xcept: seq<string>): seq<string>
  {
    Select(Keys(train), Picked(only, xcept))
  }

  /** `int(re.findall(r'\d+', device)[-2])`: the second-to-last number in the
      name, or `None` where the lookup raises the `IndexError` the loop skips. */
  function ModuleIndex(device: string): (r: Option<nat>)
    ensures r.Some? <==> |DigitRuns(device)| >= 2
    ensures r.Some? ==> r.value == DigitRuns(device)[|DigitRuns(device)| - 2]
  {
    var runs := DigitRuns(device);
    if |runs| < 2 then None else Some(runs[|runs| - 2])
  }

  /** For a detector source named like `…/DET/7CH0:xtdf` (a module number
      after a non-digit, a non-empty digit-free separator such as `CH`, a
      channel number, then no more digits), the module index is the module
      number. */
  lemma ModuleOfChannel(a: string, s1: char, number: string, sep: string, channel: string, b: string)
    requires !IsDigit(s1)
    requires number != [] && forall i :: 0 <= i < |number| ==> IsDigit(number[i])
    requires sep != [] && forall i :: 0 <= i < |sep| ==> !IsDigit(sep[i])
    requires channel != [] && forall i :: 0 <= i < |channel| ==> IsDigit(channel[i])
    requires forall i :: 0 <= i < |b| ==> !IsDigit(b[i])
    ensures ModuleIndex(a + [s1] + number + sep + channel + b) == Some(Decimal(number))
  {
    var tail := number + (sep + (channel + b));
    Nest(a + [s1], number, sep, channel, b);
    LastTwoRuns(number, sep, channel, b);
    RunsAcrossSeparator(a, s1, tail);
    var runs := DigitRuns(a + [s1] + tail);
    assert runs == DigitRuns(a) + [Decimal(number), Decimal(channel)];
    assert runs[|runs| - 2] == Decimal(number);
  }

  /** The digit runs of `<number><separator><channel><no digits>`. */
  lemma LastTwoRuns(number: string, sep: string, channel: string, b: string)
    requires number != [] && forall i :: 0 <= i < |number| ==> IsDigit(number[i])
    requires sep != [] && forall i :: 0 <= i < |sep| ==> !IsDigit(sep[i])
    requires channel != [] && forall i :: 0 <= i < |channel| ==> IsDigit(channel[i])
    requires forall i :: 0 <= i < |b| ==> !IsDigit(b[i])
    ensures DigitRuns(number + (sep + (channel + b))) == [Decimal(number), Decimal(channel)]
  {
    var rest := channel + b;
    LastRun(channel, b);
    var more := sep[1..];
    var t := more + rest;
    assert forall i | 0 <= i < |more| :: !IsDigit(more[i]) by {
      assert forall i | 0 <= i < |more| :: more[i] == sep[i + 1];
    }
    SkipNoDigits(more, rest);
    NumberThen(number, sep[0], t);
    Regroup(number, sep, rest);
  }

  lemma Nest(w: string, x: string, y: string, z: string, v: string)
    ensures w + x + y + z + v == w + (x + (y + (z + v)))
  {
  }

  lemma Regroup(x: string, sep: string, rest: string)
    requires sep != []
    ensures x + (sep + rest) == x + [sep[0]] + (sep[1..] + rest)
  {
    assert sep == [sep[0]] + sep[1..];
  }

  /** A number followed by digit-free text is a single run. */
  lemma LastRun(channel: string, b: string)
    requires channel != [] && forall i :: 0 <= i < |channel| ==> IsDigit(channel[i])
    requires forall i :: 0 <= i < |b| ==> !IsDigit(b[i])
    ensures DigitRuns(channel + b) == [Decimal(channel)]
  {
    if b == [] {
      assert channel + b == channel;
      RunsOfNumber(channel);
    } else {
      var c, more := b[0], b[1..];
      assert b == [c] + more;
      assert forall i | 0 <= i < |more| :: !IsDigit(more[i]) by {
        assert forall i | 0 <= i < |more| :: more[i] == b[i + 1];
      }
      RunThenText(channel, c, more);
    }
  }

  /** A number followed by a non-digit and digit-free text is a single run. */
  lemma RunThenText(channel: string, c: char, more: string)
    requires !IsDigit(c)
    requires channel != [] && forall i :: 0 <= i < |channel| ==> IsDigit(channel[i])
    requires forall i :: 0 <= i < |more| ==> !IsDigit(more[i])
    ensures DigitRuns(channel + ([c] + more)) == [Decimal(channel)]
  {
    RunsOfNoDigits(more);
    NumberThen(channel, c, more);
    assert channel + ([c] + more) == channel + [c] + more;
    assert [Decimal(channel)] + DigitRuns(more) == [Decimal(channel)];
  }

  /** The module index of a source of the European XFEL AGIPD detector is the
      number after `DET/`. */
  lemma AgipdModule()
    ensures ModuleIndex("SPB_DET_AGIPD1M-1/DET/7CH0:xtdf") == Some(7)
  {
    var name := "SPB_DET_AGIPD1M-1/DET" + ['/'] + "7" + "CH" + "0" + ":xtdf";
    assert name == "SPB_DET_AGIPD1M-1/DET/7CH0:xtdf";
    ModuleOfChannel("SPB_DET_AGIPD1M-1/DET", '/', "7", "CH", "0", ":xtdf");
    assert Decimal("7") == 7 by {
      assert "7"[..0] == [];
    }
  }

  /** A number followed by a separator contributes its own value first. */
  lemma NumberThen(x: string, c: char, t: string)
    requires !IsDigit(c)
    requires x != [] && forall i :: 0 <= i < |x| ==> IsDigit(x[i])
    ensures DigitRuns(x + [c] + t) == [Decimal(x)] + DigitRuns(t)
  {
    RunsAcrossSeparator(x, c, t);
    RunsOfNumber(x);
  }

  /** The slot a selected device fills, if any: it holds a non-empty value and
      its module number is below `modules` (a larger one raises the
      `IndexError` the loop skips). */
  function Placement(dev: Device, name: string, data: string, modules: nat): (r: Option<nat>)
    ensures r.Some? ==> r.value < modules && data in dev && dev[data].Param? && !ZeroSize(dev[data].value)
    ensures r.Some? <==>
      data in dev && dev[data].Param? && !ZeroSize(dev[data].value) && ModuleIndex(name).Some? && ModuleIndex(name).value < modules
  {
    if data !in dev || dev[data].Metadata? || ZeroSize(dev[data].value) then None
    else
      match ModuleIndex(name)
      case None => None
      case Some(m) => if m < modules then Some(m) else None
  }

  /** The loop of `stack_detector_data` over `devices`, in order, stopping at
      the first uncaught exception. */
  function PlaceModules(train: Record, devices: seq<string>, data: string, slots: seq<Option<Value>>): (r: Result<seq<Option<Value>>, Error>)
    requires forall d | d in devices :: d in Keys(train)
    ensures r.Success? <==> NoneRaises(train, devices, data)
    ensures r.Success? ==> |r.value| == |slots|
    ensures r.Failure? ==> exists k :: FirstRaising(train, devices, data, k) && r.error == NotAnArray(devices[k])
  {
    if devices == [] then Success(slots)
    else
      var n := |devices| - 1;
      assert forall k | 0 <= k < n :: devices[..n][k] == devices[k];
      var acc :- PlaceModules(train, devices[..n], data, slots);
      var name := devices[n];
      var dev := Get(train, name).value;
      if data in dev && dev[data].Metadata? then Failure(NotAnArray(name))
      else
        match Placement(dev, name, data, |acc|)
        case None => Success(acc)
        case Some(m) => Success(acc[m := Some(dev[data].value)])
  }

  /** The slot device `devices[k]` fills, for a detector of `modules` modules. */
  function PlacementOf(train: Record, devices: seq<string>, data: string, modules: nat, k: nat): Option<nat>
    requires k < |devices| && devices[k] in Keys(train)
  {
    Placement(Get(train, devices[k]).value, devices[k], data, modules)
  }

  /** One more device: the slot it places at takes its value, the others are
      as before. */
  lemma PlaceModulesStep(train: Record, devices: seq<string>, data: string, slots: seq<Option<Value>>, m: nat)
    requires devices != [] && forall d | d in devices :: d in Keys(train)
    requires PlaceModules(train, devices, data, slots).Success?
    requires m < |slots|
    ensures var n := |devices| - 1;
      && PlaceModules(train, devices[..n], data, slots).Success?
      && (PlacementOf(train, devices, data, |slots|, n) == Some(m) ==>
            PlaceModules(train, devices, data, slots).value[m] == Some(Get(train, devices[n]).value[data].value))
      && (PlacementOf(train, devices, data, |slots|, n) != Some(m) ==>
            PlaceModules(train, devices, data, slots).value[m] == PlaceModules(train, devices[..n], data, slots).value[m])
  {
    var n := |devices| - 1;
    var prev := devices[..n];
    assert forall k | 0 <= k < n :: prev[k] == devices[k];
    var acc := PlaceModules(train, prev, data, slots).value;
    var dev := Get(train, devices[n]).value;
    var r := PlaceModules(train, devices, data, slots).value;
    match Placement(dev, devices[n], data, |slots|)
    case None =>
      assert r == acc;
    case Some(j) =>
      assert r == acc[j := Some(dev[data].value)];
  }

  /** A module slot no device places at keeps its initial content. */
  lemma {:induction false} PlaceModulesKeeps(train: Record, devices: seq<string>, data: string, slots: seq<Option<Value>>, m: nat)
    requires forall d | d in devices :: d in Keys(train)
    requires PlaceModules(train, devices, data, slots).Success?
    requires m < |slots|
    requires forall k | 0 <= k < |devices| :: PlacementOf(train, devices, data, |slots|, k) != Some(m)
    ensures PlaceModules(train, devices, data, slots).value[m] == slots[m]
  {
    if devices != [] {
      var n := |devices| - 1;
      PlaceModulesStep(train, devices, data, slots, m);
      assert forall k | 0 <= k < n :: devices[..n][k] == devices[k];
      assert forall k | 0 <= k < n :: PlacementOf(train, devices[..n], data, |slots|, k) == PlacementOf(train, devices, data, |slots|, k);
      PlaceModulesKeeps(train, devices[..n], data, slots, m);
    }
  }

  /** The last device placing at a module slot decides its value. */
  lemma {:induction false} PlaceModulesLastWins(train: Record, devices: seq<string>, data: string, slots: seq<Option<Value>>, m: nat, k: nat)
    requires forall d | d in devices :: d in Keys(train)
    requires PlaceModules(train, devices, data, slots).Success?
    requires m < |slots| && k < |devices|
    requires PlacementOf(train, devices, data, |slots|, k) == Some(m)
    requires forall k' | k < k' < |devices| :: PlacementOf(train, devices, data, |slots|, k') != Some(m)
    ensures PlaceModules(train, devices, data, slots).value[m] == Some(Get(train, devices[k]).value[data].value)
  {
    var n := |devices| - 1;
    PlaceModulesStep(train, devices, data, slots, m);
    if k < n {
      assert forall j | 0 <= j < n :: devices[..n][j] == devices[j];
      assert forall j | 0 <= j < n :: PlacementOf(train, devices[..n], data, |slots|, j) == PlacementOf(train, devices, data, |slots|, j);
      PlaceModulesLastWins(train, devices[..n], data, slots, m, k);
    }
  }

  /** The initial module slots: `modules` of them, none filled. */
  function Unfilled(modules: nat): (r: seq<Option<Value>>)
    ensures |r| == modules && forall m | 0 <= m < modules :: r[m].None?
  {
    seq(modules, _ => None)
  }

  /** Every device of `devices` that fills a slot of a detector of `modules`
      modules holds a value of shape `shape`. For any other shape numpy's
      broadcasting rules decide what the slot assignment does, which the model
      does not cover. */
  ghost predicate PlacedFit(train: Record, devices: seq<string>, data: string, modules: nat, shape: seq<nat>)
  {
    forall k | 0 <= k < |devices| && devices[k] in Keys(train) && PlacementOf(train, devices, data, modules, k).Some? ::
      Shape(Get(train, devices[k]).value[data].value) == shape
  }

  /** `stack_detector_data(train, data, axis, modules, only, xcept)`. The
      reference scan raises first; without a reference shape there is nothing
      to stack; otherwise a negative `modules` raises, then the first selected
      device (in record order) whose value is a `metadata` dictionary, then an
      axis outside `[-(rank), rank)` of the stacked array, and else the stack
      is built. An unfilled module slot holds `None` where numpy holds the NaN
      fill cast to the data's dtype (NaN only for float data). */
  function StackDetectorData(train: Record, data: string, axis: int, modules: int, only: string, xcept: seq<string>)
    : (r: Result<Stack<Option<Value>>, Error>)
    requires Reference(train, data).Success? && Reference(train, data).value.Some? && modules >= 0 ==>
      PlacedFit(train, DetectorDevices(train, only, xcept), data, modules, Reference(train, data).value.value)
    ensures r.Success? <==>
      && Reference(train, data).Success?
      && (Reference(train, data).value.Some? ==>
            && modules >= 0 && NoneRaises(train, DetectorDevices(train, only, xcept), data)
            && -(|Reference(train, data).value.value| + 1) <= axis <= |Reference(train, data).value.value|)
    ensures Reference(train, data).Failure? ==> r == Failure(Reference(train, data).error)
    ensures Reference(train, data) == Success(None) ==> r == Success(Empty)
    ensures Reference(train, data).Success? && Reference(train, data).value.Some? ==>
      var shape := Reference(train, data).value.value;
      var devices := DetectorDevices(train, only, xcept);
      && (modules < 0 ==> r == Failure(NegativeModules(modules)))
      && (modules >= 0 ==> forall k | FirstRaising(train, devices, data, k) :: r == Failure(NotAnArray(devices[k])))
      && (modules >= 0 && NoneRaises(train, devices, data) && !(-(|shape| + 1) <= axis <= |shape|) ==>
            r == Failure(AxisOutOfRange(axis)))
      && (modules >= 0 && NoneRaises(train, devices, data) && -(|shape| + 1) <= axis <= |shape| ==>
            && r.Success? && r.value.Stacked?
            && r.value.itemShape == shape && |r.value.slots| == modules
            && r.value.axis == if axis < 0 then axis + |shape| + 1 else axis)
    ensures r.Success? && r.value.Stacked? ==>
      && modules >= 0 && |r.value.slots| == modules
      && Reference(train, data) == Success(Some(r.value.itemShape))
      && r.value.axis <= |r.value.itemShape|
      && PlaceModules(train, DetectorDevices(train, only, xcept), data, Unfilled(modules)) == Success(r.value.slots)
  {
    var reference :- Reference(train, data);
    match reference
    case None => Success(Empty)
    case Some(shape) =>
      if modules < 0 then Failure(NegativeModules(modules))
      else
        var devices := DetectorDevices(train, only, xcept);
        var slots :- PlaceModules(train, devices, data, Unfilled(modules));
        var ax :- TargetAxis(axis, |shape| + 1);
        Success(Stacked(slots, shape, ax))
  }

  /** In a detector stack, module slot `m` holds the value of the last selected
      device numbered `m`, and stays `None` when no selected device is. */
  lemma DetectorSlot(train: Record, data: string, axis: int, modules: int, only: string, xcept: seq<string>, m: nat)
    requires Reference(train, data).Success? && Reference(train, data).value.Some? && modules >= 0 ==>
      PlacedFit(train, DetectorDevices(train, only, xcept), data, modules, Reference(train, data).value.value)
    requires StackDetectorData(train, data, axis, modules, only, xcept).Success?
    requires StackDetectorData(train, data, axis, modules, only, xcept).value.Stacked?
    requires m < modules
    ensures var st := StackDetectorData(train, data, axis, modules, only, xcept).value;
      var devices := DetectorDevices(train, only, xcept);
      && ((forall k | 0 <= k < |devices| :: PlacementOf(train, devices, data, modules, k) != Some(m)) ==>
            st.slots[m].None?)
      && (forall k | 0 <= k < |devices| && PlacementOf(train, devices, data, modules, k) == Some(m)
            && (forall k' | k < k' < |devices| :: PlacementOf(train, devices, data, modules, k') != Some(m)) ::
            st.slots[m] == Some(Get(train, devices[k]).value[data].value))
  {
    var devices := DetectorDevices(train, only, xcept);
    var init := Unfilled(modules);
    if forall k | 0 <= k < |devices| :: PlacementOf(train, devices, data, modules, k) != Some(m) {
      PlaceModulesKeeps(train, devices, data, init, m);
    }
    forall k | 0 <= k < |devices| && PlacementOf(train, devices, data, modules, k) == Some(m)
        && (forall k' | k < k' < |devices| :: PlacementOf(train, devices, data, modules, k') != Some(m))
      ensures PlaceModules(train, devices, data, init).value[m] == Some(Get(train, devices[k]).value[data].value)
    {
      PlaceModulesLastWins(train, devices, data, init, m, k);
    }
  }

  /** The selected devices are those whose name contains `only` and is not
      excluded, each once, in record order: splitting the record's keys
      anywhere splits the selection there too. */
  lemma DetectorDevicesMeaning(train: Record, only: string, xcept: seq<string>)
    ensures forall d :: d in DetectorDevices(train, only, xcept) <==> d in Keys(train) && Contains(d, only) && d !in xcept
    ensures Distinct(DetectorDevices(train, only, xcept))
    ensures forall a, b | Keys(train) == a + b ::
      DetectorDevices(train, only, xcept) == Select(a, Picked(only, xcept)) + Select(b, Picked(only, xcept))
    ensures forall x :: Select([x], Picked(only, xcept)) == if Contains(x, only) && x !in xcept then [x] else []
  {
    assert Distinct(Keys(train));
    forall a, b | Keys(train) == a + b
      ensures DetectorDevices(train, only, xcept) == Select(a, Picked(only, xcept)) + Select(b, Picked(only, xcept))
    {
      SelectConcat(a, b, Picked(only, xcept));
    }
    forall x
      ensures Select([x], Picked(only, xcept)) == if Contains(x, only) && x !in xcept then [x] else []
    {
      SelectOne(x, Picked(only, xcept));
    }
  }
}
