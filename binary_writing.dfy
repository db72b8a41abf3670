/** The binary table writer (BinaryTableWriter.cs): a pass-through batch
    source that, on every Next, hands each column's current batch to a
    String8ColumnWriter, which appends the strings to the column's values
    file and their running end offsets to its positions file. */
module BinaryWriting {
  import opened Data
  import opened Files
  import opened ColumnFormat
  import opened TabularReading

  /** Buffer.BlockCopy of the first n words of `src` into `dst`: word k
      becomes bytes 4k .. 4k+3 of `dst`, least significant byte first. */
  method BlockCopy(src: array<int>, dst: array<byte>, n: int)
    requires 0 <= n <= src.Length && 4 * n <= dst.Length
    requires AllWords(src[..n])
    modifies dst
    ensures dst[..4 * n] == EncodeWords(old(src[..n]))
    ensures dst[4 * n..] == old(dst[4 * n..])
  {
    ghost var words := src[..n];
    forall j | 0 <= j < 4 * n {
      dst[j] := EncodeWord(src[j / 4])[j % 4];
    }
    forall j | 0 <= j < 4 * n
      ensures dst[j] == EncodeWords(words)[j]
    {
      EncodeWordsIndex(words, j);
    }
  }

  /** The writer of one String8 column. */
  class String8ColumnWriter {
    var bytesWriter: FileStream?
    var positionsWriter: FileStream?
    /** The running end offset: bytes written to the values file so far. */
    var position: int

    /** The values file (V.s.bin) and the positions file (Vp.i32.bin); they
        stay named here after Dispose clears the stream fields. */
    ghost const Values: FileStream
    ghost const Positions: FileStream
    /** Every string written so far, in order. */
    ghost var Written: seq<String8>

    /** The two files hold exactly the encoding of the strings written so
        far, and the running offset is the size of the values file. */
    ghost predicate Stored()
      reads this, Values, Positions
    {
      && position == |Concat(Written)| <= MaxInt32
      && Values.Contents == Concat(Written)
      && Positions.Contents == PositionsFile(Written)
    }

    /** A stream field is set while its file is open and cleared once the
        file has been closed, which happens once. */
    ghost predicate Streams()
      reads this, Values, Positions
    {
      && (bytesWriter != null ==> bytesWriter == Values && Values.DisposeCount == 0)
      && (bytesWriter == null ==> Values.DisposeCount == 1)
      && (positionsWriter != null ==> positionsWriter == Positions && Positions.DisposeCount == 0)
      && (positionsWriter == null ==> Positions.DisposeCount == 1)
    }

    ghost predicate Valid()
      reads this, Values, Positions
    {
      Values != Positions && Stored() && Streams()
    }

    /** Both streams are open. */
    ghost predicate Open()
      reads this
    {
      bytesWriter != null && positionsWriter != null
    }

    /** Both streams are closed and forgotten. */
    ghost predicate Closed()
      reads this
    {
      bytesWriter == null && positionsWriter == null
    }

    /** Creates both files of the column, empty. */
    constructor ()
      ensures Valid() && fresh(Values) && fresh(Positions) && Open() && Written == []
    {
      var values := new FileStream();
      var positions := new FileStream();
      bytesWriter := values;
      positionsWriter := positions;
      position := 0;
      Values := values;
      Positions := positions;
      Written := [];
    }

    /** The loop of Write: appends each string of the batch, in logical
        order, to the values file and records its end offset in
        `positionsBuffer`. */
    method WriteValues(batch: DataBatch<String8>, positionsBuffer: array<int>)
      requires batch.Valid() && bytesWriter == Values && batch.count <= positionsBuffer.Length
      modifies this`position, Values`Contents, positionsBuffer
      ensures Values.Contents == old(Values.Contents) + Concat(batch.Rows())
      ensures position == old(position) + |Concat(batch.Rows())|
      ensures positionsBuffer[..batch.count] == EndOffsetsFrom(old(position), batch.Rows())
    {
      ghost var rows := batch.Rows();
      ghost var offsets := EndOffsetsFrom(position, rows);
      var i := 0;
      while i < batch.count
        invariant 0 <= i <= batch.count
        invariant Values.Contents == old(Values.Contents) + Concat(rows[..i])
        invariant position == old(position) + |Concat(rows[..i])|
        invariant positionsBuffer[..i] == offsets[..i]
      {
        var value := batch.storage[batch.Index(i)];
        bytesWriter.Write(value);
        assert rows[..i + 1] == rows[..i] + [value];
        ConcatSnoc(rows[..i], value);
        position := position + |value|;
        positionsBuffer[i] := position;
        i := i + 1;
      }
      assert rows[..i] == rows;
    }

    /** Appends the batch's strings, in logical order, to the values file and
        their end offsets, counted on from every earlier batch, to the
        positions file: 4 bytes per row. */
    method Write(batch: DataBatch<String8>)
      requires Valid() && Open() && batch.Valid()
      requires |Concat(Written + batch.Rows())| <= MaxInt32
      modifies this, Values, Positions
      ensures Valid() && Open()
      ensures Written == old(Written) + batch.Rows()
      ensures Values.Contents == old(Values.Contents) + Concat(batch.Rows())
      ensures position == old(position) + |Concat(batch.Rows())|
      ensures AllWords(EndOffsetsFrom(old(position), batch.Rows()))
      ensures Positions.Contents == old(Positions.Contents) + EncodeWords(EndOffsetsFrom(old(position), batch.Rows()))
    {
      ghost var rows := batch.Rows();
      var positionsBuffer := new int[batch.count];
      var positionBytesBuffer := new byte[4 * batch.count];
      ConcatAppend(Written, rows);
      PositionsAppend(Written, rows);
      WriteValues(batch, positionsBuffer);
      ghost var offsets := EndOffsetsFrom(|Concat(Written)|, rows);
      BlockCopy(positionsBuffer, positionBytesBuffer, batch.count);
      positionsWriter.Write(positionBytesBuffer[..4 * batch.count]);
      Written := Written + rows;
    }

    /** Closes each stream that is still open, once, and forgets it. */
    method Dispose()
      requires Valid()
      modifies this, Values, Positions
      ensures Valid() && Closed() && Written == old(Written)
      ensures Values.DisposeCount == 1 && Positions.DisposeCount == 1
    {
      if bytesWriter != null {
        bytesWriter.Dispose();
        bytesWriter := null;
      }
      if positionsWriter != null {
        positionsWriter.Dispose();
        positionsWriter := null;
      }
    }
  }

  /** Every column of `rows` fits the writer's 32-bit running offset. */
  ghost predicate ColumnsFit(rows: seq<seq<String8>>, width: int)
  {
    && 0 <= width
    && (forall r :: 0 <= r < |rows| ==> |rows[r]| == width)
    && forall c :: 0 <= c < width ==> |Concat(ColumnOf(rows, c))| <= MaxInt32
  }

  /** Column c of the rows start .. end is column c of start .. mid followed
      by column c of mid .. end. */
  lemma ColumnOfSplit(rows: seq<seq<String8>>, start: int, mid: int, end: int, c: int)
    requires 0 <= start <= mid <= end <= |rows| && 0 <= c
    requires forall r :: 0 <= r < |rows| ==> c < |rows[r]|
    ensures ColumnOf(rows[start..end], c) == ColumnOf(rows[start..mid], c) + ColumnOf(rows[mid..end], c)
  {
    var lhs, rhs := ColumnOf(rows[start..end], c), ColumnOf(rows[start..mid], c) + ColumnOf(rows[mid..end], c);
    assert forall r :: 0 <= r < |lhs| ==> lhs[r] == rows[start + r][c] == rhs[r];
  }

  /** What any prefix of the remaining rows puts in a column fits as well. */
  lemma PrefixFits(rows: seq<seq<String8>>, start: int, end: int, width: int, c: int)
    requires 0 <= start <= end <= |rows| && 0 <= c < width
    requires ColumnsFit(rows[start..], width)
    ensures |Concat(ColumnOf(rows[start..end], c))| <= MaxInt32
  {
    var all := ColumnOf(rows[start..], c);
    assert ColumnOf(rows[start..end], c) == all[..end - start];
    ConcatSplit(all, end - start);
  }

  /** The column writers are distinct and no two of them share a file. */
  ghost predicate Separated(ws: seq<String8ColumnWriter>)
  {
    forall i, j :: 0 <= i < |ws| && 0 <= j < |ws| && i != j ==>
      && ws[i] != ws[j]
      && ws[i].Values != ws[j].Values && ws[i].Values != ws[j].Positions
      && ws[i].Positions != ws[j].Values && ws[i].Positions != ws[j].Positions
  }

  /** The constructor's loop: `count` new column writers, each empty and
      open, with files of its own. */
  method NewColumnWriters(count: int) returns (ws: seq<String8ColumnWriter>, ghost files: set<FileStream>)
    requires 0 <= count
    ensures |ws| == count && fresh(files) && Separated(ws)
    ensures forall j :: 0 <= j < count ==>
              && ws[j].Valid() && ws[j].Open() && ws[j].Written == [] && fresh(ws[j])
              && ws[j].Values in files && ws[j].Positions in files
  {
    ws, files := [], {};
    var i := 0;
    while i < count
      invariant 0 <= i <= count && |ws| == i && fresh(files) && Separated(ws)
      invariant forall j :: 0 <= j < i ==>
                  && ws[j].Valid() && ws[j].Open() && ws[j].Written == [] && fresh(ws[j])
                  && ws[j].Values in files && ws[j].Positions in files
    {
      var w := new String8ColumnWriter();
      ws, files := ws + [w], files + {w.Values, w.Positions};
      i := i + 1;
    }
  }

  /** BinaryTableWriter: a pass-through source over a tabular reader that
      writes every batch it forwards to one String8ColumnWriter per column. */
  class BinaryTableWriter {
    /** The wrapped source (_source). */
    const source: TabularFileReader
    /** One getter per source column, index-aligned with the writers. */
    const getters: array<BatchGetter>
    var writers: array?<String8ColumnWriter>

    /** The column writers, kept after Dispose clears `writers`. */
    ghost const Writers: seq<String8ColumnWriter>
    /** The files of every column writer. */
    ghost const Files: set<FileStream>
    /** Rows the source had consumed before this writer was built. */
    ghost const Start: int

    /** One getter per source column, index-aligned with distinct column
        writers, which keep their files while not disposed. */
    ghost predicate Linked()
      reads this`writers, getters, writers
    {
      && |Writers| == getters.Length == |source.file.columns|
      && (forall i :: 0 <= i < getters.Length ==> getters[i] == source.ColumnGetter(i))
      && (writers != null ==> writers[..] == Writers)
      && Separated(Writers)
      && (forall i :: 0 <= i < |Writers| ==> Writers[i].Values in Files && Writers[i].Positions in Files)
    }

    /** Every column writer is valid, and open until Dispose. */
    ghost predicate Healthy()
      reads this`writers, Writers, Files
    {
      && (forall i :: 0 <= i < |Writers| ==> Writers[i].Values in Files && Writers[i].Positions in Files)
      && (forall i :: 0 <= i < |Writers| ==> Writers[i].Valid())
      && (writers != null ==> forall i :: 0 <= i < |Writers| ==> Writers[i].Open())
      && (writers == null ==> forall i :: 0 <= i < |Writers| ==> Writers[i].Closed())
    }

    /** Column i's writer has written column i of every row the source has
        delivered since this writer was built, and every column of the rows
        still to come fits the running offset. */
    ghost predicate Delivered()
      reads this, Writers, source, source.Opened
    {
      && source.Valid()
      && |Writers| == |source.file.columns|
      && 0 <= Start <= source.Opened.cursor
      && ColumnsFit(source.file.rows[Start..], |source.file.columns|)
      && forall i :: 0 <= i < |Writers| ==>
           Writers[i].Written == ColumnOf(source.file.rows[Start..source.Opened.cursor], i)
    }

    ghost predicate Valid()
      reads this, getters, writers, Writers, Files, source, source.Opened
    {
      Linked() && Healthy() && Delivered()
    }

    /** A freshly wired writer whose column writers are all open and empty
        satisfies the invariant: nothing has been delivered yet. */
    lemma EmptyIsValid()
      requires Linked() && writers != null && source.Valid() && Start == source.Opened.cursor
      requires ColumnsFit(source.file.rows[Start..], |source.file.columns|)
      requires forall i :: 0 <= i < |Writers| ==> Writers[i].Valid() && Writers[i].Open() && Writers[i].Written == []
      ensures Valid()
    {
      assert source.file.rows[Start..source.Opened.cursor] == [];
    }

    /** One getter and one new, empty column writer per source column. */
    constructor (source: TabularFileReader)
      requires source.Valid()
      requires ColumnsFit(source.file.rows[source.Opened.cursor..], |source.file.columns|)
      ensures Valid() && fresh(Files) && writers != null
      ensures this.source == source && Start == source.Opened.cursor
      ensures |Writers| == |source.columns|
      ensures forall i :: 0 <= i < |Writers| ==>
                getters[i] == source.ColumnGetter(i) && Writers[i].Written == [] && fresh(Writers[i])
    {
      var columnCount := |source.columns|;
      var ws;
      ghost var files;
      ws, files := NewColumnWriters(columnCount);
      this.source := source;
      getters := new BatchGetter[columnCount](j requires 0 <= j => source.ColumnGetter(j));
      writers := new String8ColumnWriter[columnCount](j requires 0 <= j < columnCount => ws[j]);
      Writers := ws;
      Files := files;
      Start := source.Opened.cursor;
      new;
      EmptyIsValid();
    }

    /** One step of Next's loop: writer i writes `batch`; the other
        writers are untouched. */
    method WriteColumn(i: int, batch: DataBatch<String8>)
      requires Linked() && Healthy() && writers != null && 0 <= i < |Writers|
      requires batch.Valid() && |Concat(Writers[i].Written + batch.Rows())| <= MaxInt32
      modifies Writers[i], Writers[i].Values, Writers[i].Positions
      ensures Healthy()
      ensures Writers[i].Written == old(Writers[i].Written) + batch.Rows()
      ensures forall j :: 0 <= j < |Writers| && j != i ==> Writers[j].Written == old(Writers[j].Written)
    {
      writers[i].Write(batch);
    }

    /** The loop of Next: hands column i's batch, column i of `batch`, to
        writer i, in column order. */
    method WriteColumns(ghost batch: seq<seq<String8>>)
      requires Linked() && Healthy() && writers != null && source.Valid()
      requires source.Shows(batch)
      requires forall i :: 0 <= i < |Writers| ==>
                 |Concat(Writers[i].Written + ColumnOf(batch, i))| <= MaxInt32
      modifies Writers, Files
      ensures Healthy()
      ensures forall i :: 0 <= i < |Writers| ==> Writers[i].Written == old(Writers[i].Written) + ColumnOf(batch, i)
    {
      var i := 0;
      while i < getters.Length
        invariant 0 <= i <= getters.Length && Healthy()
        invariant forall j :: 0 <= j < i ==> Writers[j].Written == old(Writers[j].Written) + ColumnOf(batch, j)
        invariant forall j :: i <= j < |Writers| ==> Writers[j].Written == old(Writers[j].Written)
      {
        WriteColumn(i, getters[i].Invoke());
        i := i + 1;
      }
    }

    /** The source half of Next: the source reads its next batch; the
        column writers are untouched. */
    method Pull(desiredCount: int) returns (count: int)
      requires Valid() && writers != null && source.reader != null
      requires 0 < |source.file.columns|
      requires source.cells == null ==> 0 <= desiredCount
      requires var capacity := if source.cells == null then desiredCount else source.cells.Length1;
        0 < desiredCount <= capacity || |source.file.rows| - source.Opened.cursor <= capacity
      modifies source`cells, source`currentBatchCount, source.block, source.cells, source.Opened`cursor
      ensures source.Valid() && source.Opened == old(source.Opened) && source.reader == old(source.reader)
      ensures Linked() && Healthy() && 0 <= Start <= old(source.Opened.cursor)
      ensures ColumnsFit(source.file.rows[Start..], |Writers|)
      ensures forall i :: 0 <= i < |Writers| ==>
                Writers[i].Written == ColumnOf(source.file.rows[Start..old(source.Opened.cursor)], i)
      ensures count == Min(Limit(desiredCount, |source.file.rows| - old(source.Opened.cursor)),
                           |source.file.rows| - old(source.Opened.cursor))
      ensures source.Opened.cursor == old(source.Opened.cursor) + count
      ensures source.CellsKept(desiredCount)
      ensures source.Shows(TakeBatch(source.file.rows, old(source.Opened.cursor),
                                     Limit(desiredCount, |source.file.rows| - old(source.Opened.cursor))))
    {
      ghost var c0 := source.Opened.cursor;
      count := source.Next(desiredCount);
      source.BatchIsTakeBatch(c0, Limit(desiredCount, |source.file.rows| - c0));
    }

    /** Before a batch of rows c0 .. cursor is written: every column
        writer has room for its column of them. */
    lemma BatchFits(c0: int)
      requires Linked() && source.Valid() && 0 <= Start <= c0 <= source.Opened.cursor
      requires ColumnsFit(source.file.rows[Start..], |Writers|)
      requires forall i :: 0 <= i < |Writers| ==> Writers[i].Written == ColumnOf(source.file.rows[Start..c0], i)
      ensures forall i :: 0 <= i < |Writers| ==>
                |Concat(Writers[i].Written + ColumnOf(source.file.rows[c0..source.Opened.cursor], i))| <= MaxInt32
    {
      var rows, end := source.file.rows, source.Opened.cursor;
      forall i | 0 <= i < |Writers|
        ensures |Concat(Writers[i].Written + ColumnOf(rows[c0..end], i))| <= MaxInt32
      {
        ColumnOfSplit(rows, Start, c0, end, i);
        PrefixFits(rows, Start, end, |Writers|, i);
      }
    }

    /** After a batch of rows c0 .. cursor is written: the invariant holds
        again, now up to the cursor. */
    lemma BatchDelivered(c0: int)
      requires Linked() && Healthy() && source.Valid() && 0 <= Start <= c0 <= source.Opened.cursor
      requires ColumnsFit(source.file.rows[Start..], |Writers|)
      requires forall i :: 0 <= i < |Writers| ==>
                 Writers[i].Written
                   == ColumnOf(source.file.rows[Start..c0], i) + ColumnOf(source.file.rows[c0..source.Opened.cursor], i)
      ensures Valid()
    {
      var rows, end := source.file.rows, source.Opened.cursor;
      forall i | 0 <= i < |Writers|
        ensures Writers[i].Written == ColumnOf(rows[Start..end], i)
      {
        ColumnOfSplit(rows, Start, c0, end, i);
      }
    }

    /** An empty batch leaves the invariant as it was: the rows delivered
        are still those before the cursor. */
    lemma NothingDelivered()
      requires Linked() && Healthy() && source.Valid() && 0 <= Start <= source.Opened.cursor
      requires ColumnsFit(source.file.rows[Start..], |Writers|)
      requires forall i :: 0 <= i < |Writers| ==>
                 Writers[i].Written == ColumnOf(source.file.rows[Start..source.Opened.cursor], i)
      ensures Valid()
    {
    }

    /** The writers' half of Next: the source has just read the `count`
        rows c0 .. cursor; when there are none nothing is written, and
        otherwise each writer takes its column of them. */
    method Deliver(ghost c0: int, count: int)
      requires Linked() && Healthy() && writers != null && source.Valid()
      requires 0 <= Start <= c0 <= source.Opened.cursor == c0 + count
      requires ColumnsFit(source.file.rows[Start..], |Writers|)
      requires source.Shows(source.file.rows[c0..source.Opened.cursor])
      requires forall i :: 0 <= i < |Writers| ==> Writers[i].Written == ColumnOf(source.file.rows[Start..c0], i)
      modifies Writers, Files
      ensures Valid() && writers != null
      ensures forall i :: 0 <= i < |Writers| ==>
                Writers[i].Written == old(Writers[i].Written) + ColumnOf(source.file.rows[c0..source.Opened.cursor], i)
    {
      if count == 0 {
        forall i | 0 <= i < |Writers|
          ensures ColumnOf(source.file.rows[c0..source.Opened.cursor], i) == []
        {
        }
        NothingDelivered();
        return;
      }
      BatchFits(c0);
      WriteColumns(source.file.rows[c0..source.Opened.cursor]);
      BatchDelivered(c0);
    }

    /** Forwards Next to the source and returns its count. Unless that is 0,
        hands each column's batch to that column's writer, in column order. */
    method Next(desiredCount: int) returns (count: int)
      requires Valid() && writers != null && source.reader != null
      requires 0 < |source.file.columns|
      requires source.cells == null ==> 0 <= desiredCount
      requires var capacity := if source.cells == null then desiredCount else source.cells.Length1;
        0 < desiredCount <= capacity || |source.file.rows| - source.Opened.cursor <= capacity
      modifies Writers, Files
      modifies source`cells, source`currentBatchCount, source.block, source.cells, source.Opened`cursor
      ensures Valid() && writers != null
      ensures count == Min(Limit(desiredCount, |source.file.rows| - old(source.Opened.cursor)),
                           |source.file.rows| - old(source.Opened.cursor))
      ensures source.Opened.cursor == old(source.Opened.cursor) + count
      ensures source.CellsKept(desiredCount)
      ensures source.Shows(TakeBatch(source.file.rows, old(source.Opened.cursor),
                                     Limit(desiredCount, |source.file.rows| - old(source.Opened.cursor))))
      ensures forall i :: 0 <= i < |Writers| ==>
                Writers[i].Written == old(Writers[i].Written)
                  + ColumnOf(TakeBatch(source.file.rows, old(source.Opened.cursor),
                                       Limit(desiredCount, |source.file.rows| - old(source.Opened.cursor))), i)
    {
      ghost var rows, c0 := source.file.rows, source.Opened.cursor;
      count := Pull(desiredCount);
      ghost var batch := TakeBatch(rows, c0, Limit(desiredCount, |rows| - c0));
      assert batch == rows[c0..c0 + count];
      Deliver(c0, count);
    }

    /** The loop of Dispose: closes every column writer. */
    method DisposeWriters()
      requires Linked() && Healthy() && writers != null
      modifies Writers, Files
      ensures forall i :: 0 <= i < |Writers| ==>
                Writers[i].Valid() && Writers[i].Closed() && Writers[i].Written == old(Writers[i].Written)
    {
      var i := 0;
      while i < writers.Length
        invariant 0 <= i <= writers.Length
        invariant forall j :: 0 <= j < |Writers| ==>
                    Writers[j].Valid() && Writers[j].Written == old(Writers[j].Written)
        invariant forall j :: 0 <= j < i ==> Writers[j].Closed()
        invariant forall j :: i <= j < |Writers| ==> Writers[j].Open()
      {
        writers[i].Dispose();
        i := i + 1;
      }
    }

    /** The writers' half of Dispose: closes every column writer and
        forgets the writers. */
    method CloseWriters()
      requires Linked() && Healthy() && writers != null
      modifies this`writers, Writers, Files
      ensures Linked() && Healthy() && writers == null
      ensures forall i :: 0 <= i < |Writers| ==> Writers[i].Written == old(Writers[i].Written)
    {
      DisposeWriters();
      writers := null;
    }

    /** Disposes the source, then, on the first call only, every column
        writer, and forgets the writers. */
    method Dispose()
      requires Valid()
      modifies this`writers, Writers, Files, source`reader, source.Opened`DisposeCount
      ensures Valid() && writers == null && source.reader == null && source.Opened.DisposeCount == 1
      ensures forall i :: 0 <= i < |Writers| ==>
                && Writers[i].Values.DisposeCount == 1 && Writers[i].Positions.DisposeCount == 1
                && Writers[i].Written == old(Writers[i].Written)
    {
      source.Dispose();
      if writers != null {
        CloseWriters();
      }
    }
  }
}
