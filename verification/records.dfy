/** The values a train read produces: array data sliced from datasets, the
    per-device `metadata` entry, the nested train record, and the exceptions
    the reader can raise. */
module Records {
  import opened OrderedDict

  /** A dataset value: a scalar, or an array whose items are its rows. */
  datatype Value = Scalar(x: int) | Array(items: seq<Value>)

  /** numpy's `.shape` of a value. A scalar has shape `()`; an array's leading
      dimension is its row count, followed by the shape of its rows. */
  function Shape(v: Value): seq<nat>
  {
    match v
    case Scalar(_) => []
    case Array(items) => [|items|] + (if items == [] then [] else Shape(items[0]))
  }

  /** `0 in value.shape`: the value holds no elements. */
  predicate ZeroSize(v: Value)
  {
    0 in Shape(v)
  }

  /** Every element of the value is zero. */
  predicate AllZero(v: Value)
  {
    match v
    case Scalar(x) => x == 0
    case Array(items) => forall i | 0 <= i < |items| :: AllZero(items[i])
  }

  /** `np.zeros(shape)`. */
  function Zeros(shape: seq<nat>): (r: Value)
    ensures 0 !in shape ==> Shape(r) == shape
    ensures AllZero(r)
  {
    if shape == [] then Scalar(0)
    else
      var row := Zeros(shape[1..]);
      assert 0 !in shape ==> 0 !in shape[1..];
      Array(seq(shape[0], _ => row))
  }

  /** The capture time attached to a read: `str(time()).split('.')` as integers. */
  datatype Timestamp = Timestamp(sec: nat, frac: nat)

  /** One entry of a device's record: a parameter value, or the `metadata`
      dictionary `{'source': ..., 'timestamp': {'tid': ..., 'sec': ..., 'frac': ...}}`. */
  datatype Entry = Param(value: Value) | Metadata(source: string, tid: nat, time: Timestamp)

  /** The key under which every device record carries its metadata. */
  const MetadataKey: string := "metadata"

  /** A device's record: parameter path to entry. The insertion order of its
      keys is not kept; values are only ever looked up by key. */
  type Device = map<string, Entry>

  /** A train record: device address to device record, in insertion order. */
  type Record = ODict<string, Device>

  /** The exceptions of the reader and of the stacking helpers. */
  datatype Error =
    | NoCategory(source: string)          // IndexError: `source.split('/', 1)[1]` on a name without '/'
    | MissingIndex(device: string)        // KeyError: `self.index[h5_device]`
    | MissingTable(source: string)        // KeyError: `self.file[source]`
    | MissingColumn(column: string)       // KeyError: a column of the index group
    | PositionOutOfRange(position: int)   // IndexError: a train position past the end
    | TrainNotFound(tid: int)             // KeyError: train id not in the file or run
    | NotAnArray(device: string)          // AttributeError: the `metadata` dictionary has no `.shape`
    | NegativeModules(modules: int)       // ValueError: `np.full` with a negative dimension
    | AxisOutOfRange(axis: int)           // AxisError: `np.moveaxis` target outside the array's rank
}
