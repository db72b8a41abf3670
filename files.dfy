/** The output files a column writer owns, seen from the writer: bytes are
    appended until the stream is disposed. */
module Files {
  import opened Data

  class FileStream {
    /** Everything written to the file so far. */
    var Contents: seq<byte>
    /** How many times the stream has been disposed (closed). */
    ghost var DisposeCount: nat

    /** A newly created, empty file (FileMode.Create). */
    constructor ()
      ensures Contents == [] && DisposeCount == 0
    {
      Contents := [];
      DisposeCount := 0;
    }

    method Write(bytes: seq<byte>)
      modifies this`Contents
      ensures Contents == old(Contents) + bytes
    {
      Contents := Contents + bytes;
    }

    method Dispose()
      modifies this`DisposeCount
      ensures DisposeCount == old(DisposeCount) + 1
    {
      DisposeCount := DisposeCount + 1;
    }
  }
}
