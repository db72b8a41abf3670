/** The on-disk layout of a string column: a values file holding every
    string's bytes back to back (V.s.bin) and a positions file holding one
    cumulative 32-bit end offset per row (Vp.i32.bin), little-endian.
    Row k's bytes are values[start .. pos[k]], where start is pos[k-1],
    or 0 for the first row. */
module ColumnFormat {
  import opened Data

  /** The largest value of the 32-bit signed running offset. */
  const MaxInt32: int := 0x7FFF_FFFF

  /** The values stream for `rows`: their bytes concatenated in row order. */
  function Concat(rows: seq<String8>): seq<byte>
  {
    if rows == [] then [] else rows[0] + Concat(rows[1..])
  }

  lemma {:induction false} ConcatAppend(a: seq<String8>, b: seq<String8>)
    ensures Concat(a + b) == Concat(a) + Concat(b)
  {
    if a == [] {
      assert a + b == b;
    } else {
      assert (a + b)[1..] == a[1..] + b;
      ConcatAppend(a[1..], b);
    }
  }

  /** Appending one string appends exactly its bytes. */
  lemma ConcatSnoc(rows: seq<String8>, value: String8)
    ensures Concat(rows + [value]) == Concat(rows) + value
  {
    ConcatAppend(rows, [value]);
    assert [value][1..] == [];
  }

  /** Splitting the rows at `k` splits the values stream at the end of row k-1. */
  lemma ConcatSplit(rows: seq<String8>, k: int)
    requires 0 <= k <= |rows|
    ensures Concat(rows) == Concat(rows[..k]) + Concat(rows[k..])
  {
    assert rows == rows[..k] + rows[k..];
    ConcatAppend(rows[..k], rows[k..]);
  }

  /** The positions a writer appends for `rows` when its running offset is
      `start`: each row's end offset, counted from `start`. */
  function EndOffsetsFrom(start: int, rows: seq<String8>): seq<int>
  {
    seq(|rows|, k requires 0 <= k < |rows| => start + |Concat(rows[..k + 1])|)
  }

  /** Each end offset is the previous one, or the running offset `start`
      for the first row, plus the length of that row. */
  lemma EndOffsetsStep(start: int, rows: seq<String8>, k: int)
    requires 0 <= k < |rows|
    ensures EndOffsetsFrom(start, rows)[k]
              == (if k == 0 then start else EndOffsetsFrom(start, rows)[k - 1]) + |rows[k]|
  {
    assert rows[..k + 1] == rows[..k] + [rows[k]];
    ConcatSnoc(rows[..k], rows[k]);
    if k > 0 {
      assert rows[..k - 1 + 1] == rows[..k];
    }
  }

  /** The positions stream of a column holding `rows`. */
  function EndOffsets(rows: seq<String8>): seq<int>
  {
    EndOffsetsFrom(0, rows)
  }

  /** Where row k starts: the previous row's end offset, or 0 for the first row
      (k == |pos| gives the end of the last row). */
  function RowStart(pos: seq<int>, k: int): int
    requires 0 <= k <= |pos|
  {
    if k == 0 then 0 else pos[k - 1]
  }

  /** A positions sequence that slices `values` into rows: every row's
      start and end lie inside the values stream, in order. */
  ghost predicate WellFormed(values: seq<byte>, pos: seq<int>)
  {
    forall k :: 0 <= k < |pos| ==> 0 <= RowStart(pos, k) <= pos[k] <= |values|
  }

  /** The reader's side of the offset law: row k is values[RowStart(pos, k) .. pos[k]]. */
  function DecodeColumn(values: seq<byte>, pos: seq<int>): seq<String8>
    requires WellFormed(values, pos)
  {
    seq(|pos|, k requires 0 <= k < |pos| => values[RowStart(pos, k)..pos[k]])
  }

  /** Positions written in two sessions of one writer are the positions of
      all the rows: the running offset carries over. */
  lemma EndOffsetsAppend(a: seq<String8>, b: seq<String8>)
    ensures EndOffsets(a + b) == EndOffsets(a) + EndOffsetsFrom(|Concat(a)|, b)
  {
    var lhs, rhs := EndOffsets(a + b), EndOffsets(a) + EndOffsetsFrom(|Concat(a)|, b);
    forall k | 0 <= k < |a + b|
      ensures lhs[k] == rhs[k]
    {
      if k < |a| {
        assert (a + b)[..k + 1] == a[..k + 1];
      } else {
        assert (a + b)[..k + 1] == a + b[..k - |a| + 1];
        ConcatAppend(a, b[..k - |a| + 1]);
      }
    }
  }

  /** The start of row k in the positions stream is the length of the bytes
      of the rows before it. */
  lemma RowStartIsPrefixLength(rows: seq<String8>, k: int)
    requires 0 <= k <= |rows|
    ensures RowStart(EndOffsets(rows), k) == |Concat(rows[..k])|
  {
    if k > 0 {
      assert rows[..k - 1 + 1] == rows[..k];
    }
  }

  /** The offset law: slicing the values stream between row k's start and
      end offsets gives back row k exactly. */
  lemma {:induction false} DecodingLaw(rows: seq<String8>, k: int)
    requires 0 <= k < |rows|
    ensures 0 <= RowStart(EndOffsets(rows), k) <= EndOffsets(rows)[k] <= |Concat(rows)|
    ensures Concat(rows)[RowStart(EndOffsets(rows), k)..EndOffsets(rows)[k]] == rows[k]
  {
    RowStartIsPrefixLength(rows, k);
    ConcatSplit(rows, k + 1);
    assert rows[..k + 1] == rows[..k] + [rows[k]];
    ConcatSnoc(rows[..k], rows[k]);
  }

  /** Positions are non-decreasing, a row adds nothing exactly when its
      value is empty, and the last position is the size of the values stream. */
  lemma OffsetsMonotonic(rows: seq<String8>)
    ensures |EndOffsets(rows)| == |rows|
    ensures forall k :: 0 < k < |rows| ==> EndOffsets(rows)[k - 1] <= EndOffsets(rows)[k]
    ensures forall k :: 0 <= k < |rows| ==>
              (EndOffsets(rows)[k] == RowStart(EndOffsets(rows), k) <==> rows[k] == [])
    ensures |rows| > 0 ==> EndOffsets(rows)[|rows| - 1] == |Concat(rows)|
  {
    var pos := EndOffsets(rows);
    forall k | 0 <= k < |rows|
      ensures pos[k] == RowStart(pos, k) + |rows[k]|
    {
      EndOffsetsStep(0, rows, k);
    }
    forall k | 0 < k < |rows|
      ensures pos[k - 1] <= pos[k]
    {
      assert pos[k] == RowStart(pos, k) + |rows[k]|;
    }
    forall k | 0 <= k < |rows|
      ensures pos[k] == RowStart(pos, k) <==> rows[k] == []
    {
      assert pos[k] == RowStart(pos, k) + |rows[k]|;
    }
    if |rows| > 0 {
      assert rows[..|rows| - 1 + 1] == rows;
    }
  }

  /** Round trip: decoding what the writer produced recovers every string, in order. */
  lemma RoundTrip(rows: seq<String8>)
    ensures WellFormed(Concat(rows), EndOffsets(rows))
    ensures DecodeColumn(Concat(rows), EndOffsets(rows)) == rows
  {
    forall k | 0 <= k < |rows|
      ensures 0 <= RowStart(EndOffsets(rows), k) <= EndOffsets(rows)[k] <= |Concat(rows)|
      ensures Concat(rows)[RowStart(EndOffsets(rows), k)..EndOffsets(rows)[k]] == rows[k]
    {
      DecodingLaw(rows, k);
    }
  }

  /** The decoded rows before row k are exactly the values bytes before row k's start. */
  lemma {:induction false} DecodedPrefix(values: seq<byte>, pos: seq<int>, k: int)
    requires WellFormed(values, pos)
    requires 0 <= k <= |pos|
    ensures 0 <= RowStart(pos, k) <= |values|
    ensures Concat(DecodeColumn(values, pos)[..k]) == values[..RowStart(pos, k)]
  {
    var rows := DecodeColumn(values, pos);
    if k == 0 {
      assert rows[..0] == [];
    } else {
      DecodedPrefix(values, pos, k - 1);
      assert rows[..k] == rows[..k - 1] + [rows[k - 1]];
      ConcatSnoc(rows[..k - 1], rows[k - 1]);
      assert values[..RowStart(pos, k - 1)] + values[RowStart(pos, k - 1)..pos[k - 1]]
          == values[..pos[k - 1]];
    }
  }

  /** The other direction: a positions stream that slices the whole values
      stream is exactly what the writer produces for the rows it decodes to. */
  lemma EncodeDecoded(values: seq<byte>, pos: seq<int>)
    requires WellFormed(values, pos)
    requires RowStart(pos, |pos|) == |values|
    ensures Concat(DecodeColumn(values, pos)) == values
    ensures EndOffsets(DecodeColumn(values, pos)) == pos
  {
    var rows := DecodeColumn(values, pos);
    DecodedPrefix(values, pos, |pos|);
    assert rows[..|pos|] == rows;
    forall k | 0 <= k < |pos|
      ensures EndOffsets(rows)[k] == pos[k]
    {
      DecodedPrefix(values, pos, k + 1);
    }
  }

  // ---- The positions file: 32-bit words, little-endian ----

  /** A value that fits an unsigned 32-bit word. */
  predicate IsWord(w: int)
  {
    0 <= w < 0x1_0000_0000
  }

  /** The four bytes of a word, least significant first. */
  function EncodeWord(w: int): seq<byte>
    requires IsWord(w)
  {
    [w % 256, w / 256 % 256, w / 256 / 256 % 256, w / 256 / 256 / 256]
  }

  function DecodeWord(b: seq<byte>): int
    requires |b| == 4
  {
    var b0, b1, b2, b3: int := b[0], b[1], b[2], b[3];
    b0 + 256 * (b1 + 256 * (b2 + 256 * b3))
  }

  lemma WordRoundTrip(w: int)
    requires IsWord(w)
    ensures DecodeWord(EncodeWord(w)) == w
  {
    var q1 := w / 256;
    var q2 := q1 / 256;
    assert w == w % 256 + 256 * q1;
    assert q1 == q1 % 256 + 256 * q2;
    assert q2 == q2 % 256 + 256 * (q2 / 256);
  }

  /** Every four bytes decode to a word that encodes back to those bytes. */
  lemma WordBytesRoundTrip(b: seq<byte>)
    requires |b| == 4
    ensures IsWord(DecodeWord(b)) && EncodeWord(DecodeWord(b)) == b
  {
    var w := DecodeWord(b);
    var b0, b1, b2, b3: int := b[0], b[1], b[2], b[3];
    var q2 := b2 + 256 * b3;
    var q1 := b1 + 256 * q2;
    assert w == b0 + 256 * q1;
    assert w % 256 == b[0] && w / 256 == q1;
    assert q1 % 256 == b[1] && q1 / 256 == q2;
    assert q2 % 256 == b[2] && q2 / 256 == b[3];
  }

  predicate AllWords(ws: seq<int>)
  {
    forall k :: 0 <= k < |ws| ==> IsWord(ws[k])
  }

  /** The bytes of a positions buffer, four per word, in order. */
  function EncodeWords(ws: seq<int>): (bytes: seq<byte>)
    requires AllWords(ws)
    ensures |bytes| == 4 * |ws|
  {
    if ws == [] then [] else EncodeWord(ws[0]) + EncodeWords(ws[1..])
  }

  function DecodeWords(bytes: seq<byte>): (ws: seq<int>)
    requires |bytes| % 4 == 0
    ensures |ws| == |bytes| / 4
  {
    if |bytes| == 0 then [] else [DecodeWord(bytes[..4])] + DecodeWords(bytes[4..])
  }

  lemma {:induction false} EncodeWordsAppend(a: seq<int>, b: seq<int>)
    requires AllWords(a) && AllWords(b)
    ensures AllWords(a + b)
    ensures EncodeWords(a + b) == EncodeWords(a) + EncodeWords(b)
  {
    if a == [] {
      assert a + b == b;
    } else {
      var c := a + b;
      assert c[0] == a[0] && c[1..] == a[1..] + b;
      EncodeWordsAppend(a[1..], b);
      assert EncodeWords(c) == EncodeWord(a[0]) + (EncodeWords(a[1..]) + EncodeWords(b));
    }
  }

  /** Byte j of an encoded buffer is byte j % 4 of word j / 4: the layout a
      byte-wise copy of the word buffer produces. */
  lemma {:induction false} EncodeWordsIndex(ws: seq<int>, j: int)
    requires AllWords(ws) && 0 <= j < 4 * |ws|
    ensures EncodeWords(ws)[j] == EncodeWord(ws[j / 4])[j % 4]
  {
    if 4 <= j {
      assert ws[1..][(j - 4) / 4] == ws[j / 4];
      EncodeWordsIndex(ws[1..], j - 4);
    }
  }

  lemma {:induction false} WordsRoundTrip(ws: seq<int>)
    requires AllWords(ws)
    ensures DecodeWords(EncodeWords(ws)) == ws
  {
    if ws != [] {
      var bytes := EncodeWords(ws);
      assert bytes[..4] == EncodeWord(ws[0]);
      assert bytes[4..] == EncodeWords(ws[1..]);
      WordRoundTrip(ws[0]);
      WordsRoundTrip(ws[1..]);
    }
  }

  /** Positions of a column whose values stream fits the 32-bit offset are words. */
  lemma OffsetsAreWords(rows: seq<String8>)
    requires |Concat(rows)| <= MaxInt32
    ensures AllWords(EndOffsets(rows))
  {
    forall k | 0 <= k < |rows|
      ensures IsWord(EndOffsets(rows)[k])
    {
      DecodingLaw(rows, k);
    }
  }

  /** The positions file of a column holding `rows`. */
  function PositionsFile(rows: seq<String8>): seq<byte>
    requires |Concat(rows)| <= MaxInt32
  {
    OffsetsAreWords(rows);
    EncodeWords(EndOffsets(rows))
  }

  /** Writing `b` after `a` appends to the positions file the words of b's
      end offsets counted from the bytes already written. */
  lemma PositionsAppend(a: seq<String8>, b: seq<String8>)
    requires |Concat(a + b)| <= MaxInt32
    ensures |Concat(a)| <= MaxInt32
    ensures AllWords(EndOffsetsFrom(|Concat(a)|, b))
    ensures PositionsFile(a + b) == PositionsFile(a) + EncodeWords(EndOffsetsFrom(|Concat(a)|, b))
  {
    ConcatAppend(a, b);
    EndOffsetsAppend(a, b);
    OffsetsAreWords(a + b);
    var x, y := EndOffsets(a), EndOffsetsFrom(|Concat(a)|, b);
    assert forall k :: 0 <= k < |y| ==> y[k] == (x + y)[|x| + k];
    assert forall k :: 0 <= k < |x| ==> x[k] == (x + y)[k];
    EncodeWordsAppend(x, y);
  }

  /** Reading both files of a column back with the offset law reproduces the
      original strings, including empty ones, in their original order. */
  lemma ReadBackColumn(rows: seq<String8>)
    requires |Concat(rows)| <= MaxInt32
    ensures |PositionsFile(rows)| == 4 * |rows|
    ensures WellFormed(Concat(rows), DecodeWords(PositionsFile(rows)))
    ensures DecodeColumn(Concat(rows), DecodeWords(PositionsFile(rows))) == rows
  {
    OffsetsAreWords(rows);
    WordsRoundTrip(EndOffsets(rows));
    RoundTrip(rows);
  }
}
