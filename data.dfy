/** Values shared by the whole pipeline: bytes and byte strings (String8),
    the Batch view a source hands out, column descriptions, and the string
    arena (String8Block) that gives copied cell values their lifetime. */
module Data {

  /** One byte of a file or of a string value. */
  type byte = b: int | 0 <= b < 256

  /** A String8 is a run of bytes; here the bytes themselves, since the
      model has no pointers into shared buffers. */
  type String8 = seq<byte>

  datatype Option<+T> = None | Some(value: T)

  /** A Batch: a view over `storage` with an optional selection of indices
      into it, and the number of logical rows. */
  datatype DataBatch<T> = DataBatch(storage: seq<T>, selection: Option<seq<int>>, count: int)
  {
    /** `count` fits the selection (or the storage), and every selected index
        points into the storage. */
    ghost predicate Valid() {
      && 0 <= count
      && match selection
         case None => count <= |storage|
         case Some(indices) =>
           && count <= |indices|
           && forall k :: 0 <= k < count ==> 0 <= indices[k] < |storage|
    }

    /** The storage index of logical row `i`: the identity without a selection. */
    function Index(i: int): (r: int)
      requires Valid() && 0 <= i < count
      ensures 0 <= r < |storage|
      ensures selection.None? ==> r == i
    {
      match selection
      case None => i
      case Some(indices) => indices[i]
    }

    /** The logical rows of the batch, in logical order. */
    ghost function Rows(): (rows: seq<T>)
      requires Valid()
      ensures |rows| == count
      ensures forall i :: 0 <= i < count ==> rows[i] == storage[Index(i)]
    {
      seq(count, i requires 0 <= i < count => storage[Index(i)])
    }
  }

  /** A batch over the first `count` values of `storage` with no selection. */
  function All<T>(storage: seq<T>, count: int): (b: DataBatch<T>)
    requires 0 <= count <= |storage|
    ensures b.Valid() && b.Rows() == storage[..count]
  {
    DataBatch(storage, None, count)
  }

  /** The semantic type of a column; the tabular reader produces only strings. */
  datatype ScalarType = String8Type

  datatype ColumnDetails = ColumnDetails(name: string, columnType: ScalarType, isNullable: bool)

  /** The arena that owns copies of transient cell values for one batch.
      `Contents` is the arena's used bytes; `Clear` resets the write cursor. */
  class String8Block {
    var Contents: seq<byte>

    constructor ()
      ensures Contents == []
    {
      Contents := [];
    }

    method Clear()
      modifies this
      ensures Contents == []
    {
      Contents := [];
    }

    /** Copies `value` into the arena; the copy holds the same bytes. */
    method GetCopy(value: String8) returns (copy: String8)
      modifies this
      ensures copy == value
      ensures Contents == old(Contents) + value
    {
      Contents := Contents + value;
      copy := Contents[|Contents| - |value|..];
    }
  }
}
