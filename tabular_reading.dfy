/** The tabular file reader: a batch source over a row/cell tabular reader
    (TabularFileReader.cs). Every column is read as String8; each call to
    Next copies up to desiredCount rows, column by column, into one array
    per column, through an arena that is cleared per batch. */
module TabularReading {
  import opened Data
  import opened ColumnFormat

  /** A tabular text file as its tokenizer presents it: ordered column
      names and rows of cells. */
  datatype TabularFile = TabularFile(columns: seq<string>, rows: seq<seq<String8>>)
  {
    /** Every row has one cell per column. */
    ghost predicate Valid() {
      forall r :: 0 <= r < |rows| ==> |rows[r]| == |columns|
    }
  }

  /** Column `c` of every row, in row order. */
  function ColumnOf(rows: seq<seq<String8>>, c: int): (column: seq<String8>)
    requires 0 <= c
    requires forall r :: 0 <= r < |rows| ==> c < |rows[r]|
    ensures |column| == |rows|
    ensures forall r :: 0 <= r < |rows| ==> column[r] == rows[r][c]
  {
    seq(|rows|, r requires 0 <= r < |rows| => rows[r][c])
  }

  /** The cells of `rows` in row-major order. */
  function Flatten<T>(rows: seq<seq<T>>): seq<T>
  {
    if rows == [] then [] else rows[0] + Flatten(rows[1..])
  }

  /** The arena's bytes after copying every cell of `rows`, row by row. */
  function ArenaBytes(rows: seq<seq<String8>>): seq<byte>
  {
    if rows == [] then [] else ArenaBytes(rows[..|rows| - 1]) + Concat(rows[|rows| - 1])
  }

  /** Copying one more row appends that row's cells to the arena. */
  lemma ArenaStep(rows: seq<seq<String8>>, start: int, k: int)
    requires 0 <= start && 0 <= k && start + k < |rows|
    ensures ArenaBytes(rows[start..start + k + 1]) == ArenaBytes(rows[start..start + k]) + Concat(rows[start + k])
  {
    assert rows[start..start + k + 1][..k] == rows[start..start + k];
  }

  function Min(a: int, b: int): int
  {
    if a <= b then a else b
  }

  /** The batch size at which Next's loop stops when `remaining` rows are
      left: its break fires only when the count reaches a positive
      desiredCount, so a desiredCount of 0 or less reads to the end. */
  function Limit(desired: int, remaining: int): int
  {
    if 0 < desired then desired else remaining
  }

  /** The loop overruns no cell array exactly when the rows it copies fit
      the arrays' `capacity`: a positive desiredCount within the capacity
      caps the batch, and otherwise the remaining rows must fit. */
  lemma LimitFits(desired: int, remaining: int, capacity: int)
    requires 0 <= remaining && 0 <= capacity
    ensures (Min(Limit(desired, remaining), remaining) <= capacity)
        <==> (0 < desired <= capacity || remaining <= capacity)
  {
  }

  /** The rows one call of Next delivers when the underlying reader has
      consumed `cursor` rows: the next `desired` rows, or all that remain. */
  function TakeBatch(rows: seq<seq<String8>>, cursor: int, desired: int): (batch: seq<seq<String8>>)
    requires 0 <= cursor <= |rows| && 0 <= desired
    ensures |batch| <= desired
    ensures cursor + |batch| <= |rows|
    ensures |batch| == desired || cursor + |batch| == |rows|
    ensures batch == rows[cursor..cursor + |batch|]
    ensures 0 < desired ==> (batch == [] <==> cursor == |rows|)
  {
    rows[cursor..Min(|rows|, cursor + desired)]
  }

  /** The batches a consumer receives pulling with a fixed `desired` from
      `cursor` until Next returns 0. */
  function Drain(rows: seq<seq<String8>>, cursor: int, desired: int): seq<seq<seq<String8>>>
    requires 0 <= cursor <= |rows| && 0 < desired
    decreases |rows| - cursor
  {
    if cursor == |rows| then []
    else
      var batch := TakeBatch(rows, cursor, desired);
      [batch] + Drain(rows, cursor + |batch|, desired)
  }

  /** Pulling to the end delivers every remaining row exactly once, in file
      order; every batch is non-empty and all but the last are full. */
  lemma {:induction false} DrainReadsAll(rows: seq<seq<String8>>, cursor: int, desired: int)
    requires 0 <= cursor <= |rows| && 0 < desired
    ensures Flatten(Drain(rows, cursor, desired)) == rows[cursor..]
    ensures forall k :: 0 <= k < |Drain(rows, cursor, desired)| ==>
              0 < |Drain(rows, cursor, desired)[k]| <= desired
    ensures forall k :: 0 <= k < |Drain(rows, cursor, desired)| - 1 ==>
              |Drain(rows, cursor, desired)[k]| == desired
    decreases |rows| - cursor
  {
    if cursor < |rows| {
      var batch := TakeBatch(rows, cursor, desired);
      var next := cursor + |batch|;
      var rest := Drain(rows, next, desired);
      DrainReadsAll(rows, next, desired);
      var all := Drain(rows, cursor, desired);
      assert all == [batch] + rest;
      assert all[0] == batch && all[1..] == rest;
      assert Flatten(all) == batch + Flatten(rest);
      assert rows[cursor..] == batch + rows[next..];
      forall k | 0 <= k < |all|
        ensures 0 < |all[k]| <= desired
      {
        if k > 0 {
          assert all[k] == rest[k - 1];
        }
      }
      forall k | 0 <= k < |all| - 1
        ensures |all[k]| == desired
      {
        if k == 0 {
          assert next < |rows|;
        } else {
          assert all[k] == rest[k - 1];
        }
      }
    }
  }

  /** ITabularReader over one file: a cursor over its rows. */
  class RowReader {
    const file: TabularFile
    /** Rows consumed so far; the current row is file.rows[cursor - 1]. */
    var cursor: nat
    ghost var DisposeCount: nat

    ghost predicate Valid()
      reads this
    {
      file.Valid() && cursor <= |file.rows|
    }

    constructor (file: TabularFile)
      requires file.Valid()
      ensures Valid() && this.file == file && cursor == 0 && DisposeCount == 0
    {
      this.file := file;
      cursor := 0;
      DisposeCount := 0;
    }

    /** The ordered column names of the file. */
    function Columns(): seq<string>
    {
      file.columns
    }

    /** Advances to the next row; false once the rows are exhausted, and on
        every call after that. */
    method NextRow() returns (more: bool)
      requires Valid()
      modifies this`cursor
      ensures Valid()
      ensures more == (old(cursor) < |file.rows|)
      ensures cursor == if more then old(cursor) + 1 else old(cursor)
    {
      more := cursor < |file.rows|;
      if more {
        cursor := cursor + 1;
      }
    }

    /** Cell `column` of the current row. */
    function Current(column: int): String8
      requires Valid() && 0 < cursor && 0 <= column < |file.columns|
      reads this
    {
      file.rows[cursor - 1][column]
    }

    method Dispose()
      modifies this`DisposeCount
      ensures DisposeCount == old(DisposeCount) + 1
    {
      DisposeCount := DisposeCount + 1;
    }
  }

  /** The accessor ColumnGetter hands out: bound to its source and column,
      it yields that column's batch of the most recent Next. */
  datatype BatchGetter = BatchGetter(source: TabularFileReader, columnIndex: int)
  {
    function Invoke(): (batch: DataBatch<String8>)
      requires source.Valid() && 0 <= columnIndex < |source.file.columns|
      reads source, source.Opened, source.cells
      ensures batch.Valid() && batch.selection.None?
      ensures batch.count == source.currentBatchCount
      ensures batch.Rows() == source.ColumnRows(columnIndex)
    {
      if source.cells == null then All([], 0)
      else All(source.ColumnArray(columnIndex), source.currentBatchCount)
    }
  }

  class TabularFileReader {
    /** The file TabularFactory.BuildReader opens on every Reset. */
    const file: TabularFile
    /** The arena that owns the current batch's cell values. */
    const block: String8Block

    var reader: RowReader?
    var columns: seq<ColumnDetails>
    /** Row `c` is column `c`'s cell array; null until the first Next
        allocates every column with that call's desiredCount. */
    var cells: array2?<String8>
    var currentBatchCount: int

    /** The reader the last Reset opened; kept after Dispose clears `reader`. */
    ghost var Opened: RowReader?

    /** The cell storage and the batch in it: one array per column, and a
        batch that fits them (empty before the first Next). */
    ghost predicate Sized()
      reads this
    {
      && file.Valid()
      && (cells == null ==> currentBatchCount == 0)
      && (cells != null ==>
            cells.Length0 == |file.columns| && 0 <= currentBatchCount <= cells.Length1)
    }

    ghost predicate Valid()
      reads this, Opened
    {
      && Sized()
      && |columns| == |file.columns|
      && Opened != null
      && Opened.Valid() && Opened.file == file
      && (reader != null ==> reader == Opened && Opened.DisposeCount == 0)
      && (reader == null ==> Opened.DisposeCount == 1)
    }

    /** The whole cell array of column `c`. */
    function ColumnArray(c: int): (column: seq<String8>)
      requires Sized() && cells != null && 0 <= c < cells.Length0
      reads this, cells
      ensures |column| == cells.Length1
      ensures forall r :: 0 <= r < cells.Length1 ==> column[r] == cells[c, r]
    {
      var a := cells;
      seq(a.Length1, r requires 0 <= r < a.Length1 reads a => a[c, r])
    }

    /** Column `c` of the current batch. */
    ghost function ColumnRows(c: int): (column: seq<String8>)
      requires Sized() && 0 <= c < |file.columns|
      reads this, cells
      ensures |column| == currentBatchCount
      ensures forall r :: 0 <= r < currentBatchCount ==> column[r] == cells[c, r]
    {
      if cells == null then [] else ColumnArray(c)[..currentBatchCount]
    }

    /** What a call of Next with `desired` leaves of the cell arrays: the
        first call allocates them anew with `desired` slots per column, and
        every later call keeps the same arrays. */
    twostate predicate CellsKept(desired: int)
      reads this
    {
      && cells != null
      && (old(cells) == null ==> fresh(cells) && cells.Length1 == desired)
      && (old(cells) != null ==> cells == old(cells))
    }

    /** The current batch is `batch`: one row per slot, each as wide as the
        file, and column c of the batch is column c of those rows. */
    ghost predicate Shows(batch: seq<seq<String8>>)
      requires Sized()
      reads this, cells
    {
      && |batch| == currentBatchCount
      && (forall r :: 0 <= r < |batch| ==> |batch[r]| == |file.columns|)
      && forall c :: 0 <= c < |file.columns| ==> ColumnRows(c) == ColumnOf(batch, c)
    }

    constructor (file: TabularFile)
      requires file.Valid()
      ensures Valid() && this.file == file
      ensures fresh(Opened) && reader == Opened && Opened.cursor == 0
      ensures |columns| == |file.columns|
      ensures forall c :: 0 <= c < |columns| ==> columns[c] == ColumnDetails(file.columns[c], String8Type, false)
      ensures cells == null && currentBatchCount == 0
      ensures fresh(block) && block.Contents == []
    {
      this.file := file;
      reader := null;
      Opened := null;
      columns := [];
      block := new String8Block();
      cells := null;
      currentBatchCount := 0;
      new;
      Reset();
    }

    function ColumnGetter(columnIndex: int): BatchGetter
    {
      BatchGetter(this, columnIndex)
    }

    /** Reopens the file and rebuilds the schema: one non-nullable String8
        column per file column, in file order. The cell arrays and the last
        batch are kept, and the previous reader is not closed. */
    method Reset()
      requires Sized()
      modifies this`reader, this`Opened, this`columns
      ensures Valid()
      ensures fresh(Opened) && reader == Opened && Opened.cursor == 0
      ensures |columns| == |file.columns|
      ensures forall c :: 0 <= c < |columns| ==> columns[c] == ColumnDetails(file.columns[c], String8Type, false)
    {
      var r := new RowReader(file);
      reader := r;
      Opened := r;
      var names := r.Columns();
      var schema: seq<ColumnDetails> := [];
      var i := 0;
      while i < |names|
        invariant 0 <= i <= |names|
        invariant |schema| == i
        invariant forall c :: 0 <= c < i ==> schema[c] == ColumnDetails(names[c], String8Type, false)
      {
        schema := schema + [ColumnDetails(names[i], String8Type, false)];
        i := i + 1;
      }
      columns := schema;
    }

    /** The batch so far holds the rows after `start`, one per slot, and
        the arena holds their cells. */
    ghost predicate BatchFrom(start: int)
      requires Sized() && cells != null
      reads this, cells, block
    {
      && 0 <= start && start + currentBatchCount <= |file.rows|
      && (forall c, r :: 0 <= c < cells.Length0 && 0 <= r < currentBatchCount ==>
            cells[c, r] == file.rows[start + r][c])
      && block.Contents == ArenaBytes(file.rows[start..start + currentBatchCount])
    }

    /** A batch read from `start` with a given desiredCount is exactly the
        rows TakeBatch picks: column by column, and in the arena. */
    lemma BatchIsTakeBatch(start: int, desired: int)
      requires Sized() && cells != null && BatchFrom(start) && 0 <= desired
      requires start <= |file.rows| && currentBatchCount == Min(desired, |file.rows| - start)
      ensures Shows(TakeBatch(file.rows, start, desired))
      ensures block.Contents == ArenaBytes(TakeBatch(file.rows, start, desired))
    {
      var batch := TakeBatch(file.rows, start, desired);
      assert batch == file.rows[start..start + currentBatchCount];
      forall c | 0 <= c < |file.columns|
        ensures ColumnRows(c) == ColumnOf(batch, c)
      {
        assert forall r :: 0 <= r < currentBatchCount ==> ColumnRows(c)[r] == batch[r][c];
      }
    }

    /** Copies every cell of the reader's current row, through the arena,
        into slot `currentBatchCount` of its column's array. */
    method CopyCurrentRow()
      requires Valid() && cells != null && reader != null && 0 < Opened.cursor
      requires currentBatchCount < cells.Length1
      modifies block, cells
      ensures forall c :: 0 <= c < cells.Length0 ==>
                cells[c, currentBatchCount] == file.rows[Opened.cursor - 1][c]
      ensures forall c, r :: 0 <= c < cells.Length0 && 0 <= r < cells.Length1 && r != currentBatchCount ==>
                cells[c, r] == old(cells[c, r])
      ensures block.Contents == old(block.Contents) + Concat(file.rows[Opened.cursor - 1])
    {
      ghost var row := file.rows[Opened.cursor - 1];
      var i := 0;
      while i < cells.Length0
        invariant 0 <= i <= cells.Length0
        invariant forall c :: 0 <= c < i ==> cells[c, currentBatchCount] == row[c]
        invariant forall c, r :: 0 <= c < cells.Length0 && 0 <= r < cells.Length1 && (i <= c || r != currentBatchCount) ==>
                    cells[c, r] == old(cells[c, r])
        invariant block.Contents == old(block.Contents) + Concat(row[..i])
      {
        var value := block.GetCopy(reader.Current(i));
        cells[i, currentBatchCount] := value;
        assert row[..i + 1] == row[..i] + [row[i]];
        ConcatSnoc(row[..i], row[i]);
        i := i + 1;
      }
      assert row[..i] == row;
    }

    /** One step of Next's loop: copies the current row into the next free
        slot and counts it, so the batch still holds the rows after `start`. */
    method AddCurrentRow(ghost start: int)
      requires Valid() && cells != null && reader != null
      requires currentBatchCount < cells.Length1
      requires Opened.cursor == start + currentBatchCount + 1
      requires BatchFrom(start)
      modifies this`currentBatchCount, block, cells
      ensures Valid() && currentBatchCount == old(currentBatchCount) + 1
      ensures BatchFrom(start)
    {
      CopyCurrentRow();
      ArenaStep(file.rows, start, currentBatchCount);
      assert forall c, r :: 0 <= c < cells.Length0 && 0 <= r <= currentBatchCount ==>
               cells[c, r] == file.rows[start + r][c];
      currentBatchCount := currentBatchCount + 1;
    }

    /** Reads up to desiredCount rows (to the end of the file when
        desiredCount is 0 or less) into the cell arrays, which the first call
        sizes to its desiredCount. The rows read must fit those arrays, and
        a file without columns fails at the first call. */
    method Next(desiredCount: int) returns (count: int)
      requires Valid() && reader != null
      requires 0 < |file.columns|
      requires cells == null ==> 0 <= desiredCount
      requires var capacity := if cells == null then desiredCount else cells.Length1;
        0 < desiredCount <= capacity || |file.rows| - Opened.cursor <= capacity
      modifies this`cells, this`currentBatchCount, block, cells, Opened`cursor
      ensures Valid() && reader == old(reader)
      ensures CellsKept(desiredCount)
      ensures count == currentBatchCount
      ensures count == Min(Limit(desiredCount, |file.rows| - old(Opened.cursor)), |file.rows| - old(Opened.cursor))
      ensures Opened.cursor == old(Opened.cursor) + count
      ensures BatchFrom(old(Opened.cursor))
    {
      ghost var c0 := Opened.cursor;
      if cells == null {
        cells := new String8[|file.columns|, desiredCount];
      }
      block.Clear();
      currentBatchCount := 0;
      var more := reader.NextRow();
      while more
        modifies this`currentBatchCount, block, cells, Opened`cursor
        invariant Valid() && cells != null && reader == Opened
        invariant 0 <= currentBatchCount && (0 < desiredCount ==> currentBatchCount < desiredCount)
        invariant 0 < desiredCount <= cells.Length1 || |file.rows| - c0 <= cells.Length1
        invariant Opened.cursor == c0 + currentBatchCount + (if more then 1 else 0)
        invariant !more ==> Opened.cursor == |file.rows|
        invariant BatchFrom(c0)
        decreases |file.rows| - Opened.cursor + (if more then 1 else 0)
      {
        AddCurrentRow(c0);
        if currentBatchCount == desiredCount {
          break;
        }
        more := reader.NextRow();
      }
      count := currentBatchCount;
      assert Opened.cursor == c0 + count;
    }

    /** Releases the underlying reader once; later calls do nothing. */
    method Dispose()
      requires Valid()
      modifies this`reader, Opened`DisposeCount
      ensures Valid() && reader == null && Opened.DisposeCount == 1
    {
      if reader != null {
        reader.Dispose();
        reader := null;
      }
    }
  }
}
