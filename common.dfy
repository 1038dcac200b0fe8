/** Shared vocabulary of the model: bytes, the gap marker and Python slices. */
module Common {

  /** A byte value as Python exposes it when a `bytes` object is indexed. */
  type Byte = b: int | 0 <= b < 256

  /** One decoded input line. */
  type Row = seq<Byte>

  /** The ragged table of decoded rows. */
  type Table = seq<Row>

  /** `None` stands for Python's `None`, the gap a too-short row leaves in a column. */
  datatype Option<+T> = None | Some(value: T)

  /** Python's `slice(start, stop)` object as `get_longest_entry_slice` returns it. */
  datatype Slice = Slice(start: int, stop: int)
}
