# XForm binary table writing, tabular reading and comparer selection

This project models three parts of XForm, a batch-oriented query engine.

- **The tabular file reader** (`TabularFileReader`) reads a delimited text file as a source of batches. Every column is a String8 byte string. Each `Next(desiredCount)` copies up to `desiredCount` rows into one cell array per column. The cell values are copied through a string arena, and the arena is cleared at the start of every batch.
- **The binary table writer** (`BinaryTableWriter`) wraps a source and passes its batches through. On every non-empty `Next` it gives each column's batch to that column's `String8ColumnWriter`. The column writer appends the strings' bytes to the column's values file (`V.s.bin`). It appends each row's cumulative end offset, as a little-endian 32-bit word, to the positions file (`Vp.i32.bin`). Row k is therefore `values[pos[k-1] .. pos[k]]`, with 0 taking the place of `pos[-1]`.
- **`DataBatchComparerExtensions.TryBuild`** picks a comparer's `Where*` method for a comparison operator. It fails with a not-implemented error for any other operator.

What is proved:
- **The file format.** The offset law, monotonic offsets, and round trips in both directions between rows and the file pair, including the 4-byte word encoding. See module `ColumnFormat`.
- **The column writer.** After any sequence of writes, the two files are exactly the encoding of every string written, in order. The running offset carries over across batches.
- **The table writer.** Column writer i holds exactly column i of every row the source has delivered since the table writer was built. Dispose closes every file exactly once.
- **The reader.** Each `Next` delivers exactly the next `min(desiredCount, remaining)` rows (every remaining row when `desiredCount` is 0 or less), column by column, and the arena holds their bytes. Draining the reader delivers every row once, in order.
- **`TryBuild`.** It succeeds exactly for the six relational operators. The chosen method keeps exactly the rows the operator selects, and the choice is injective.

Files and streams are modelled as objects whose contents are byte sequences. The row/cell text reader is modelled as a cursor over an already tokenized file (`TabularReading.RowReader`).

## Model

| member | source | states |
|---|---|---|
| `BinaryWriting.BlockCopy` | XForm/XForm/IO/BinaryTableWriter.cs:45 | the first 4n bytes of the byte buffer are the first n words of the int buffer, four bytes each, least significant first; the bytes after them are untouched |
| `BinaryWriting.String8ColumnWriter.constructor` | XForm/XForm/IO/BinaryTableWriter.cs:22-29 | the writer opens two new, distinct, empty files; nothing has been written and the file invariant holds |
| `BinaryWriting.String8ColumnWriter.WriteValues` | XForm/XForm/IO/BinaryTableWriter.cs:36-43 | the values file gains the batch's strings in logical order, through the selection if there is one; the running offset grows by their total length; buffer slot i holds row i's end offset, counted on from the offset before the call |
| `BinaryWriting.String8ColumnWriter.Write` | XForm/XForm/IO/BinaryTableWriter.cs:31-47 | the written rows grow by the batch; the values file grows by the batch's bytes; the positions file grows by 4 bytes per row, the rows' end offsets continuing from every earlier batch; afterwards both files are still exactly the encoding of everything written |
| `BinaryWriting.String8ColumnWriter.Dispose` | XForm/XForm/IO/BinaryTableWriter.cs:49-62 | both streams end up closed, each exactly once even across repeated calls, and both fields are cleared; the files' contents are untouched |
| `BinaryWriting.NewColumnWriters` | XForm/XForm/IO/BinaryTableWriter.cs:79-84 | one new, open, empty column writer per column; no two writers share a file |
| `BinaryWriting.BinaryTableWriter.constructor` | XForm/XForm/IO/BinaryTableWriter.cs:71-87 | getter i is the source's getter for column i; writer i is new and empty; the writers-hold-the-delivered-rows invariant holds from the source's current position |
| `BinaryWriting.BinaryTableWriter.WriteColumn` | XForm/XForm/IO/BinaryTableWriter.cs:96 | writer i appends the batch; every other writer is unchanged |
| `BinaryWriting.BinaryTableWriter.WriteColumns` | XForm/XForm/IO/BinaryTableWriter.cs:94-97 | in column order, writer i appends column i of the source's current batch, for every i |
| `BinaryWriting.BinaryTableWriter.Pull` | XForm/XForm/IO/BinaryTableWriter.cs:91 | forwards Next to the source: the count is the source's (min(desiredCount, remaining rows), or all remaining rows for a desiredCount of 0 or less), the source advances by it, every column's batch is that column of exactly those rows, the source's cell arrays are allocated with desiredCount slots on the first call and kept on later ones, and the writers are untouched |
| `BinaryWriting.BinaryTableWriter.Deliver` | XForm/XForm/IO/BinaryTableWriter.cs:92-97 | after the source has read a batch, nothing is written when it is empty, and otherwise each writer appends its column of exactly those rows; either way the invariant holds again |
| `BinaryWriting.BinaryTableWriter.Next` | XForm/XForm/IO/BinaryTableWriter.cs:89-100 | returns the source's count, min(desiredCount, remaining rows), or all remaining rows for a desiredCount of 0 or less; the source's current batch, which downstream reads through the getters, is column by column exactly those rows; the source's cell arrays are allocated with desiredCount slots on the first call and kept on later ones, so later calls know their capacity; each writer i appends column i of the same rows (nothing when the count is 0); the invariant is kept, so every column file pair encodes column i of every row delivered since construction |
| `BinaryWriting.BinaryTableWriter.DisposeWriters` | XForm/XForm/IO/BinaryTableWriter.cs:106-111 | every column writer is closed and its rows are unchanged |
| `BinaryWriting.BinaryTableWriter.CloseWriters` | XForm/XForm/IO/BinaryTableWriter.cs:106-114 | every column writer is closed and the writers array is cleared |
| `BinaryWriting.BinaryTableWriter.Dispose` | XForm/XForm/IO/BinaryTableWriter.cs:102-115 | the source's reader is released once; every column file is closed exactly once, even when Dispose is called again; the written contents are kept |
| `ColumnFormat.EndOffsetsStep` | XForm/XForm/IO/BinaryTableWriter.cs:41-42 | each end offset is the previous one (the running offset, for the first row) plus that row's length |
| `ColumnFormat.EndOffsetsAppend` | XForm/XForm/IO/BinaryTableWriter.cs:20-46 | the offsets written over two batches are the offsets of all their rows, because the running offset carries over between calls |
| `ColumnFormat.DecodingLaw` | XForm/XForm/IO/BinaryTableWriter.cs:39-42 | row k lies inside the values file, between its start offset and its end offset, and slicing there gives back row k |
| `ColumnFormat.OffsetsMonotonic` | XForm/XForm/IO/BinaryTableWriter.cs:41-42 | one offset per row; offsets never decrease; a row adds no bytes exactly when it is empty; the last offset is the size of the values file |
| `ColumnFormat.RoundTrip` | XForm/XForm/IO/BinaryTableWriter.cs:37-43 | the offsets slice the values file well, and decoding them recovers every row in order |
| `ColumnFormat.DecodedPrefix` | XForm/XForm/IO/BinaryTableWriter.cs:37-43 | the rows decoded before row k are exactly the values bytes before row k's start |
| `ColumnFormat.EncodeDecoded` | XForm/XForm/IO/BinaryTableWriter.cs:37-43 | the converse round trip: well-formed offsets covering the values file are exactly what the writer produces for the rows they decode to |
| `ColumnFormat.WordRoundTrip` | XForm/XForm/IO/BinaryTableWriter.cs:45 | decoding a word's four bytes gives back the word |
| `ColumnFormat.WordBytesRoundTrip` | XForm/XForm/IO/BinaryTableWriter.cs:45 | any four bytes decode to a 32-bit word whose encoding is those bytes |
| `ColumnFormat.EncodeWords` | XForm/XForm/IO/BinaryTableWriter.cs:45-46 | the positions bytes of a batch are exactly 4 times its row count |
| `ColumnFormat.EncodeWordsAppend` | XForm/XForm/IO/BinaryTableWriter.cs:46 | encoding two word sequences one after the other equals encoding their concatenation |
| `ColumnFormat.EncodeWordsIndex` | XForm/XForm/IO/BinaryTableWriter.cs:45 | byte j of the encoding is byte j mod 4 of word j div 4, the layout of a byte-wise block copy |
| `ColumnFormat.WordsRoundTrip` | XForm/XForm/IO/BinaryTableWriter.cs:45-46 | decoding the positions bytes gives back every offset |
| `ColumnFormat.OffsetsAreWords` | XForm/XForm/IO/BinaryTableWriter.cs:20 | when the values file fits the 32-bit running offset, every offset fits a 32-bit word |
| `ColumnFormat.PositionsAppend` | XForm/XForm/IO/BinaryTableWriter.cs:41-46 | the positions file after two batches is the first batch's file followed by the second batch's words, counted on from the bytes already written |
| `ColumnFormat.ReadBackColumn` | XForm/XForm/IO/BinaryTableWriter.cs:31-47 | reading both files back with the offset law gives every string, empty ones included, in the original order |
| `TabularReading.TakeBatch` | XForm/XForm/IO/TabularFileReader.cs:78-87 | one batch is the next rows in file order: at most desiredCount of them, exactly that many unless the file ends first, and empty exactly at the end of the file |
| `TabularReading.LimitFits` | XForm/XForm/IO/TabularFileReader.cs:65-86 | the loop copies no more rows than the cell arrays hold exactly when a positive desiredCount is within their capacity or the remaining rows fit it, which is the condition the reader's `Next` requires |
| `TabularReading.ArenaStep` | XForm/XForm/IO/TabularFileReader.cs:82 | copying one more row appends exactly that row's cells to the arena |
| `TabularReading.DrainReadsAll` | XForm/XForm/IO/TabularFileReader.cs:78-89 | pulling until Next returns 0 delivers every remaining row exactly once, in order; every batch is non-empty and at most desiredCount, and all but the last are full |
| `TabularReading.RowReader.constructor` | XForm/XForm/IO/TabularFileReader.cs:54 | a new reader is open and has consumed no rows |
| `TabularReading.RowReader.NextRow` | XForm/XForm/IO/TabularFileReader.cs:78 | advances exactly while rows remain, and reports whether it did |
| `TabularReading.RowReader.Dispose` | XForm/XForm/IO/TabularFileReader.cs:96 | the reader is disposed once more |
| `TabularReading.BatchGetter.Invoke` | XForm/XForm/IO/TabularFileReader.cs:46-49 | the getter's batch has no selection, holds currentBatchCount rows, and they are column c of the current batch |
| `TabularReading.TabularFileReader.constructor` | XForm/XForm/IO/TabularFileReader.cs:25-32 | opens the file at its first row; the schema has one String8 column per file column; no cell arrays yet and an empty batch; the arena is new and empty |
| `TabularReading.TabularFileReader.Reset` | XForm/XForm/IO/TabularFileReader.cs:52-61 | opens a new reader at the first row; the schema is one non-nullable String8 column per file column, with the same names in file order |
| `TabularReading.TabularFileReader.BatchIsTakeBatch` | XForm/XForm/IO/TabularFileReader.cs:63-90 | a batch read from a cursor holds, column by column and in the arena, exactly the rows TakeBatch picks, each as wide as the file |
| `TabularReading.TabularFileReader.CopyCurrentRow` | XForm/XForm/IO/TabularFileReader.cs:80-83 | every column's next slot holds that column's cell of the current row; all other slots are unchanged; the arena grows by the row's bytes |
| `TabularReading.TabularFileReader.AddCurrentRow` | XForm/XForm/IO/TabularFileReader.cs:80-85 | one row is added to the batch, and the batch still holds the rows after its start |
| `TabularReading.TabularFileReader.Next` | XForm/XForm/IO/TabularFileReader.cs:63-90 | the first call allocates every column with desiredCount slots and later calls reuse them; the count is min(desiredCount, remaining rows) for a positive desiredCount, and all the remaining rows otherwise, because the break is tested only after a row is counted; the reader advances by the count; slot r of column c holds cell c of the r-th row read, and the arena holds exactly those rows' bytes |
| `TabularReading.TabularFileReader.Dispose` | XForm/XForm/IO/TabularFileReader.cs:92-99 | the underlying reader is released exactly once, however often Dispose is called |
| `Data.DataBatch.Index` | XForm/XForm/IO/BinaryTableWriter.cs:39 | a logical row maps into the storage, and to itself when there is no selection |
| `Data.All` | XForm/XForm/IO/TabularFileReader.cs:48 | a selection-free batch whose rows are the first count values of the array |
| `Data.String8Block.constructor` | XForm/XForm/IO/TabularFileReader.cs:30 | a new arena is empty |
| `Data.String8Block.Clear` | XForm/XForm/IO/TabularFileReader.cs:75 | the arena is emptied |
| `Data.String8Block.GetCopy` | XForm/XForm/IO/TabularFileReader.cs:82 | the copy has the same bytes as the value, and the arena grows by them |
| `Files.FileStream.constructor` | XForm/XForm/IO/BinaryTableWriter.cs:27-28 | a created file is empty and open |
| `Files.FileStream.Write` | XForm/XForm/IO/BinaryTableWriter.cs:46 | the file grows by exactly the bytes written |
| `Files.FileStream.Dispose` | XForm/XForm/IO/BinaryTableWriter.cs:53 | the stream is disposed once more |
| `Comparers.OperatorOf` | XForm/XForm/Types/IDataBatchComparer.cs:29-40 | every comparer method implements one of the six relational operators |
| `Comparers.TryBuild` | XForm/XForm/Types/IDataBatchComparer.cs:24-44 | succeeds exactly for the six relational operators and binds the given comparer; any other operator fails with a not-implemented error whose message is the operator's name |
| `Comparers.TryBuildKeepsMeaning` | XForm/XForm/Types/IDataBatchComparer.cs:29-40 | the chosen method keeps a row exactly when the operator holds for the row's comparison sign |
| `Comparers.TryBuildOperatorOf` | XForm/XForm/Types/IDataBatchComparer.cs:29-40 | each of the six methods is chosen for its own operator |
| `Comparers.OperatorOfTryBuild` | XForm/XForm/Types/IDataBatchComparer.cs:29-40 | the operator can be recovered from the method chosen for it |
| `Comparers.TryBuildInjective` | XForm/XForm/Types/IDataBatchComparer.cs:29-40 | two operators that choose the same method are the same operator |

## Left out

- File-system paths, `Directory.CreateDirectory` and the file names are not modelled. Files are in-memory byte sequences, and opening a `FileStream` creates an empty file.
- `SchemaSerializer.Write` is not part of this model (BinaryTableWriter.cs:86). Neither is `TabularFactory.BuildReader`, which is modelled as opening a cursor over an already tokenized file (`TabularReading.TabularFile`). The CSV/TSV tokenizer and `ToString8` are not modelled.
- `BinaryWriting.String8ColumnWriter.Write`: the two buffers are allocated per call, sized to the batch. The source keeps them in fields and grows them with `Allocator.AllocateToSize`. The bytes written to both files are the same.
- `BinaryWriting.BlockCopy`: the copy is little-endian. `Buffer.BlockCopy` follows the host's byte order, and other byte orders are not modelled.
- `BinaryWriting.BinaryTableWriter.constructor`: the source's `_position` is a 32-bit `int` that would wrap once a column's values file passed 2^31 - 1 bytes. The model requires every column of the remaining rows to fit (`ColumnsFit`), and `String8ColumnWriter.Write` requires the same of its column.
- `TabularReading.TabularFileReader.Next` requires what keeps the source's `Next` from throwing:
  - at least one column, because it reads `_cells[0]`;
  - a non-negative `desiredCount` on the first call, which sizes the arrays;
  - rows that fit the arrays, since otherwise the loop writes past them. That is, `desiredCount` is positive and within the arrays' length, or the remaining rows fit that length (see `LimitFits`);
  - a reader that has not been disposed.
  All other inputs are modelled, including a larger `desiredCount` on a later call and a `desiredCount` of 0 or less, for which the loop reads to the end of the file.
- `BinaryWriting.BinaryTableWriter.Next` has the same requirements as the reader's `Next`, which it forwards to. It also requires the writer not to be disposed, since the source dereferences `_writers`.
- The jagged `String8[][] _cells` is modelled as a two-dimensional array (`array2`). Row c of it is column c's cell array. All columns are allocated together by the first `Next`, as the source's loop at TabularFileReader.cs:67-70 does, so the arrays always have equal length.
- `BinaryWriting.BinaryTableWriter.constructor` gives every column writer two new files of its own. In the source, the file paths come from the column names (BinaryTableWriter.cs:24, 27-28, 83), so two columns with the same name open the same `V.s.bin` twice. The second open, with write access and sharing limited to read and delete, fails with a sharing violation. The model does not capture this failure: its constructor succeeds for duplicate names.
- `TabularReading.BatchGetter.Invoke` returns the batch as a value: a snapshot of the column's cells when it is invoked. The source's `DataBatch.All` at TabularFileReader.cs:48 is a view over `_cells[c]`, so a batch kept past the next `Next` sees that call's rows overwrite it. The model does not capture this aliasing. Within one `Next`, which is how `BinaryTableWriter.Next` uses the getters, the view and the snapshot agree.
- Before the first `Next`, the source's getter would build a batch over a null array with count 0. The model's `BatchGetter.Invoke` returns an empty batch.
- `TabularReading.TabularFileReader.ColumnGetter` returns the bound getter and has no contract of its own. What the getter yields is stated by `BatchGetter.Invoke`.
- `Reset` does not dispose the previous reader, as in the source.
- The base class `DataBatchEnumeratorWrapper` is not part of this model. Its `Dispose` is modelled as disposing the source, and its source is concretely a `TabularFileReader` rather than any `IDataBatchEnumerator`.
- The six `Where*` comparison methods are represented only by which rows they keep for a given comparison sign. The comparison of String8 values and the `RowRemapper` output are not part of this model.
- The string arena's memory reuse, and the sharing between cell values and the arena, are not modelled. A copy is a value equal to the original, and the arena's contents are the bytes copied since the last `Clear`.
