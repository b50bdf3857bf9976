/**
  The upload body of ImgurUploader: `StreamProgressContent` copies an input
  stream into the transport's output stream through a fixed 4096-byte buffer,
  reporting the percentage of the input sent after every chunk.

  The input stream, the output stream and the progress sink are modelled as
  small classes whose only state is what the copy loop observes: the input's
  bytes and read position, the bytes written to the output, and the list of
  percentages reported.
*/
module StreamProgress {

  newtype byte = b: int | 0 <= b < 256

  /** Size of the copy buffer `buf`. */
  const BufferSize: nat := 4096

  // ---------------------------------------------------------------------------
  // Specification functions
  // ---------------------------------------------------------------------------

  /** The concatenation of a list of chunks, in order. */
  function Flatten<T>(chunks: seq<seq<T>>): seq<T>
    decreases |chunks|
  {
    if chunks == [] then [] else Flatten(chunks[..|chunks| - 1]) + chunks[|chunks| - 1]
  }

  /** Every chunk holds at least one byte and fits in the copy buffer. */
  predicate ChunksFit<T>(chunks: seq<seq<T>>)
  {
    forall i :: 0 <= i < |chunks| ==> 0 < |chunks[i]| <= BufferSize
  }

  /**
    The value reported after `total` bytes of a `length`-byte input:
    `(int) (100 * total / input.Length)` with C#'s `long` division, which
    truncates; both operands are non-negative here, so truncation and
    Dafny's Euclidean division agree. The precondition is the absence of a
    division by zero.
  */
  function Percent(total: nat, length: nat): (p: int)
    requires length > 0
    ensures p * length <= 100 * total < (p + 1) * length
    ensures 0 <= p
    ensures total <= length ==> p <= 100
  {
    100 * total / length
  }

  /**
    The reports the copy loop makes while it copies `chunks` out of an input
    of `length` bytes: one per chunk, the percentage of bytes copied so far.
  */
  function Reports(chunks: seq<seq<byte>>, length: nat): (r: seq<int>)
    requires ChunksFit(chunks)
    requires |Flatten(chunks)| <= length
    ensures |r| == |chunks|
    decreases |chunks|
  {
    if chunks == [] then []
    else Reports(chunks[..|chunks| - 1], length) + [Percent(|Flatten(chunks)|, length)]
  }

  // ---------------------------------------------------------------------------
  // Lemmas about the specification functions
  // ---------------------------------------------------------------------------

  /** More bytes sent never gives a smaller percentage. */
  lemma PercentMonotone(t1: nat, t2: nat, length: nat)
    requires length > 0 && t1 <= t2
    ensures Percent(t1, length) <= Percent(t2, length)
  {
  }

  /** Multiplying by a natural number keeps the order. */
  lemma MulMonotone(a: int, b: int, c: nat)
    requires a <= b
    ensures a * c <= b * c
  {
  }

  /** Sending the whole input reports exactly 100. */
  lemma PercentOfAll(length: nat)
    requires length > 0
    ensures Percent(length, length) == 100
  {
    var p := Percent(length, length);
    if p > 100 {
      MulMonotone(101, p, length);
      assert false;
    } else if p < 100 {
      MulMonotone(p + 1, 100, length);
      assert false;
    }
  }

  /** The flattening of a prefix of the chunks is a prefix of the flattening. */
  lemma {:induction false} FlattenPrefix<T>(chunks: seq<seq<T>>, k: nat)
    requires k <= |chunks|
    ensures Flatten(chunks[..k]) <= Flatten(chunks)
    decreases |chunks|
  {
    if k < |chunks| {
      var front := chunks[..|chunks| - 1];
      assert front[..k] == chunks[..k];
      FlattenPrefix(front, k);
    } else {
      assert chunks[..k] == chunks;
    }
  }

  /**
    Chunk `i` is exactly the slice of the flattening that starts where the
    first `i` chunks end: every chunk is written right after the one before.
  */
  lemma {:induction false} ChunkIsSlice<T>(chunks: seq<seq<T>>, i: nat)
    requires i < |chunks|
    ensures |Flatten(chunks[..i])| + |chunks[i]| <= |Flatten(chunks)|
    ensures chunks[i] == Flatten(chunks)[|Flatten(chunks[..i])|..|Flatten(chunks[..i])| + |chunks[i]|]
    decreases |chunks|
  {
    var n := |chunks|;
    var front := chunks[..n - 1];
    if i == n - 1 {
      assert chunks[..i] == front;
    } else {
      assert front[..i] == chunks[..i];
      ChunkIsSlice(front, i);
    }
  }

  /**
    Chunks that fit the buffer hold at least one byte each and at most a
    buffer's worth each; in particular an empty input yields no chunk.
  */
  lemma {:induction false} FlattenLength<T>(chunks: seq<seq<T>>)
    requires ChunksFit(chunks)
    ensures |chunks| <= |Flatten(chunks)| <= BufferSize * |chunks|
    decreases |chunks|
  {
    if chunks != [] {
      FlattenLength(chunks[..|chunks| - 1]);
    }
  }

  /** Flattening after one more chunk appends that chunk. */
  lemma FlattenAppend(chunks: seq<seq<byte>>, chunk: seq<byte>)
    ensures Flatten(chunks + [chunk]) == Flatten(chunks) + chunk
  {
    var next := chunks + [chunk];
    assert next[..|next| - 1] == chunks;
  }

  /** One more chunk adds one report: the percentage of all bytes copied so far. */
  lemma ReportsAppend(chunks: seq<seq<byte>>, chunk: seq<byte>, length: nat)
    requires ChunksFit(chunks + [chunk])
    requires |Flatten(chunks + [chunk])| <= length
    ensures ChunksFit(chunks) && |Flatten(chunks)| <= length
    ensures Reports(chunks + [chunk], length)
         == Reports(chunks, length) + [Percent(|Flatten(chunks)| + |chunk|, length)]
  {
    var next := chunks + [chunk];
    assert next[..|next| - 1] == chunks;
    FlattenAppend(chunks, chunk);
  }

  /**
    One pass of the copy loop: after one more chunk is read, written and
    reported, the output and the progress log are again those of the chunks
    read so far.
  */
  lemma AppendChunk(chunks: seq<seq<byte>>, chunk: seq<byte>, length: nat,
                    written0: seq<byte>, reports0: seq<int>)
    requires ChunksFit(chunks) && 0 < |chunk| <= BufferSize
    requires |Flatten(chunks)| + |chunk| <= length
    ensures ChunksFit(chunks + [chunk])
    ensures Flatten(chunks + [chunk]) == Flatten(chunks) + chunk
    ensures written0 + Flatten(chunks) + chunk == written0 + Flatten(chunks + [chunk])
    ensures reports0 + Reports(chunks, length) + [Percent(|Flatten(chunks)| + |chunk|, length)]
         == reports0 + Reports(chunks + [chunk], length)
  {
    FlattenAppend(chunks, chunk);
    assert ChunksFit(chunks + [chunk]) by {
      var next := chunks + [chunk];
      forall i | 0 <= i < |next| ensures 0 < |next[i]| <= BufferSize {
        if i < |chunks| { assert next[i] == chunks[i]; }
      }
    }
    ReportsAppend(chunks, chunk, length);
  }

  /** Report `i` is the percentage of bytes sent once chunk `i` is written. */
  lemma {:induction false} ReportsAt(chunks: seq<seq<byte>>, length: nat, i: nat)
    requires ChunksFit(chunks)
    requires |Flatten(chunks)| <= length
    requires i < |chunks|
    ensures length > 0
    ensures |Flatten(chunks[..i + 1])| <= length
    ensures Reports(chunks, length)[i] == Percent(|Flatten(chunks[..i + 1])|, length)
    decreases |chunks|
  {
    var n := |chunks|;
    var front := chunks[..n - 1];
    if i == n - 1 {
      assert chunks[..i + 1] == chunks;
    } else {
      assert front[..i + 1] == chunks[..i + 1];
      ReportsAt(front, length, i);
    }
  }

  /**
    Every report lies in 0..100 and none exceeds the last one, which is the
    percentage of all the bytes the chunks hold.
  */
  lemma {:induction false} ReportsBounded(chunks: seq<seq<byte>>, length: nat)
    requires ChunksFit(chunks)
    requires |Flatten(chunks)| <= length
    ensures forall i :: 0 <= i < |chunks| ==> 0 <= Reports(chunks, length)[i] <= 100
    ensures chunks != [] ==>
      forall i :: 0 <= i < |chunks| ==>
        Reports(chunks, length)[i] <= Reports(chunks, length)[|chunks| - 1]
    decreases |chunks|
  {
    if chunks != [] {
      var n := |chunks|;
      var front := chunks[..n - 1];
      ReportsBounded(front, length);
      if front != [] {
        PercentMonotone(|Flatten(front)|, |Flatten(chunks)|, length);
      }
    }
  }

  /** The reports never go down. */
  lemma {:induction false} ReportsNonDecreasing(chunks: seq<seq<byte>>, length: nat)
    requires ChunksFit(chunks)
    requires |Flatten(chunks)| <= length
    ensures forall i, j :: 0 <= i <= j < |chunks| ==>
      Reports(chunks, length)[i] <= Reports(chunks, length)[j]
    decreases |chunks|
  {
    if chunks != [] {
      var n := |chunks|;
      var front := chunks[..n - 1];
      ReportsNonDecreasing(front, length);
      ReportsBounded(chunks, length);
      var r := Reports(chunks, length);
      assert r[..n - 1] == Reports(front, length);
    }
  }

  /**
    Copying a non-empty input from its first byte to its end reports at
    least once, and the last report is 100.
  */
  lemma ReportsReachHundred(chunks: seq<seq<byte>>, length: nat)
    requires ChunksFit(chunks)
    requires |Flatten(chunks)| == length > 0
    ensures chunks != []
    ensures Reports(chunks, length)[|chunks| - 1] == 100
  {
    PercentOfAll(length);
  }

  // ---------------------------------------------------------------------------
  // The streams and the progress sink
  // ---------------------------------------------------------------------------

  /** A readable, seekable stream of known length (a `FileStream` or a `MemoryStream`). */
  class InputStream {
    const data: seq<byte>
    var position: nat
    var disposed: bool

    ghost predicate Valid()
      reads this
    {
      position <= |data|
    }

    constructor (data: seq<byte>)
      ensures this.data == data && position == 0 && !disposed
    {
      this.data := data;
      position := 0;
      disposed := false;
    }

    /**
      `Stream.Length`: the number of bytes the stream holds. It reads no
      mutable state, so reading the stream never changes it.
    */
    function Length(): (n: nat)
      ensures n == |data|
    {
      |data|
    }

    /**
      `Stream.ReadAsync(buf, offset, count)`: copies the next `n` bytes into
      `buf[offset..offset + n]` and advances the position. A read may return
      fewer bytes than asked for; it returns 0 only at the end of the stream
      (or when asked for nothing).
    */
    method Read(buf: array<byte>, offset: nat, count: nat) returns (n: nat)
      requires Valid() && !disposed
      requires offset + count <= buf.Length
      modifies this`position, buf
      ensures Valid()
      ensures n <= count
      ensures n == 0 <==> count == 0 || old(position) == |data|
      ensures position == old(position) + n
      ensures buf[offset..offset + n] == data[old(position)..position]
      ensures buf[..offset] == old(buf[..offset])
      ensures buf[offset + n..] == old(buf[offset + n..])
    {
      var available := |data| - position;
      var most := if count < available then count else available;
      if most == 0 {
        n := 0;
      } else {
        n :| 0 < n <= most;
      }
      forall i | offset <= i < offset + n {
        buf[i] := data[position + i - offset];
      }
      position := position + n;
    }

    /** `Stream.Dispose()`: releases the stream; disposing twice is harmless. */
    method Dispose()
      modifies this`disposed
      ensures disposed
    {
      disposed := true;
    }
  }

  /** The transport's request stream: everything written is appended. */
  class OutputStream {
    var written: seq<byte>

    constructor ()
      ensures written == []
    {
      written := [];
    }

    /** `Stream.WriteAsync(buf, offset, count)`. */
    method Write(buf: array<byte>, offset: nat, count: nat)
      requires offset + count <= buf.Length
      modifies this
      ensures written == old(written) + buf[offset..offset + count]
    {
      written := written + buf[offset..offset + count];
    }
  }

  /** An `IProgress<int>`: the log of the values passed to `Report`, in order. */
  class ProgressSink {
    var reports: seq<int>

    constructor ()
      ensures reports == []
    {
      reports := [];
    }

    method Report(value: int)
      modifies this
      ensures reports == old(reports) + [value]
    {
      reports := reports + [value];
    }
  }

  // ---------------------------------------------------------------------------
  // StreamProgressContent
  // ---------------------------------------------------------------------------

  /** An HTTP request body that forwards `input` and reports progress to `progress`. */
  class StreamProgressContent {
    const input: InputStream
    const progress: ProgressSink

    constructor (stream: InputStream, progress: ProgressSink)
      ensures input == stream && this.progress == progress
    {
      input := stream;
      this.progress := progress;
    }

    /**
      `TryComputeLength`: the body's length is known up front; it is the
      input's whole length, and computing it reads no bytes.
    */
    function TryComputeLength(): (r: (bool, nat))
      ensures r.0
      ensures r.1 == input.Length()
    {
      (true, input.Length())
    }

    /**
      `SerializeToStreamAsync`: drains the input into `stream` chunk by chunk.
      The ghost result `chunks` lists the chunks in the order they were read
      and written. Every chunk fits the buffer, together they are exactly the
      rest of the input, the output grows by exactly them, and the sink gets
      one report per chunk, the percentage of the input sent so far.
    */
    method SerializeToStream(stream: OutputStream) returns (ghost chunks: seq<seq<byte>>)
      requires input.Valid() && !input.disposed
      modifies input`position, stream, progress
      ensures input.Valid() && input.position == |input.data|
      ensures ChunksFit(chunks)
      ensures Flatten(chunks) == input.data[old(input.position)..]
      ensures stream.written == old(stream.written) + Flatten(chunks)
      ensures |Flatten(chunks)| <= input.Length()
      ensures progress.reports == old(progress.reports) + Reports(chunks, input.Length())
      ensures old(input.position) == 0 ==>
        |stream.written| == |old(stream.written)| + TryComputeLength().1
      ensures input.Length() == 0 ==> chunks == [] && progress.reports == old(progress.reports)
    {
      var buf := new byte[BufferSize];
      var total: nat := 0;
      ghost var data, start := input.data, input.position;
      ghost var written0, reports0 := stream.written, progress.reports;
      chunks := [];
      while true
        invariant input.Valid() && !input.disposed
        invariant start <= input.position
        invariant total == input.position - start
        invariant ChunksFit(chunks)
        invariant Flatten(chunks) == data[start..input.position]
        invariant stream.written == written0 + Flatten(chunks)
        invariant progress.reports == reports0 + Reports(chunks, |data|)
        decreases |data| - input.position
      {
        var read := input.Read(buf, 0, buf.Length);
        if read == 0 {
          break;
        }
        ghost var chunk := buf[0..read];
        assert data[start..input.position] == Flatten(chunks) + chunk;
        AppendChunk(chunks, chunk, |data|, written0, reports0);
        stream.Write(buf, 0, read);
        total := total + read;
        progress.Report(Percent(total, input.Length()));
        chunks := chunks + [chunk];
      }
      FlattenLength(chunks);
    }

    /**
      `Dispose(disposing)`: the input stream is disposed when, and only
      when, `disposing` is true.
    */
    method Dispose(disposing: bool)
      modifies input`disposed
      ensures input.disposed == (old(input.disposed) || disposing)
    {
      if disposing {
        input.Dispose();
      }
    }
  }
}
