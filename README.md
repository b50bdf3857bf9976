# ImgurUploader, modelled in Dafny

ImgurUploader is a small desktop tool that uploads dropped or pasted images to
an image host and lists the links it gets back. Nearly all of it is window and
event wiring. This project models the two parts of `ImgurUploader/MainForm.cs`
that have behaviour worth stating:

* **`StreamProgressContent`** is the HTTP request body. It copies the input
  stream into the transport's stream through a 4096-byte buffer. After every
  non-empty chunk it reports `100 * total / input.Length` to an
  `IProgress<int>`, and it stops at the first read that returns 0 bytes. It
  states its length up front (`TryComputeLength`) and disposes the input
  when it is disposed. The model is `StreamProgress.StreamProgressContent`,
  a class over three small classes: an input stream (bytes, read position,
  disposed flag), an output stream (the bytes written) and a progress sink
  (the values reported). The input's reads may return any number of bytes
  from 1 to the amount asked for, and 0 only at the end. The copy loop is a
  method with invariants. Its ghost result lists the chunks it moved. The
  specification functions `Flatten`, `Percent` and `Reports` describe the
  output and the progress log in terms of those chunks, and lemmas prove
  the properties that follow from them.
* **`ImgurUploader.Upload`** posts that body and reduces what comes back.
  An `HttpRequestException` gives `null`. A decoded envelope with
  `success == false` gives `null`. With `success == true` it gives
  `Result { Link = data.link }`. Every other exception escapes. The model
  is the function `ImgurUploader.UploadOutcome`, defined over an abstract
  `Outcome`. The method `ImgurUploader.Upload` composes it with the body:
  the transport may drive the copy, and the `using` block disposes the
  input on every path.

The code leaves error handling as a TODO (MainForm.cs:134 and :139): a
decoding exception is not caught, and a refused upload returns `null`. The
model follows the code. The code also reads
`imgur.data.link` without a null check, so an envelope with `success == true`
and no `data` throws a `NullReferenceException`. The model keeps this as
`Propagated(NullReference)`.

The response shapes of MainForm.cs:144-161 are datatypes in
`ImgurUploader`: `Result(link)` for `Result`, `Data(id, description,
datetime, deletehash, name, link)` for `Data`, and `ImgurResponse(data,
success, status)` for `ImgurResponse`. The envelope's `data` is an `Option`,
because the source dereferences it without a null check. `description` is an
`object` in the source; the model gives it the type `Option<string>`, which
stands for any JSON value or null, since nothing ever reads it.

## Model

| member | source | states |
|---|---|---|
| `StreamProgress.Percent` | ImgurUploader/MainForm.cs:104 | the reported value is the floor of 100·total/length (`p·length <= 100·total < (p+1)·length`); it needs a non-zero length, and it lies in 0..100 whenever total <= length |
| `StreamProgress.Reports` | ImgurUploader/MainForm.cs:98-105 | the progress log of a copy: exactly one report per chunk read, so the log is as long as the chunk list |
| `StreamProgress.PercentMonotone` | ImgurUploader/MainForm.cs:103-104 | sending more bytes never reports a smaller percentage |
| `StreamProgress.PercentOfAll` | ImgurUploader/MainForm.cs:104 | once every byte of a non-empty input is sent, the report is exactly 100 |
| `StreamProgress.FlattenPrefix` | ImgurUploader/MainForm.cs:98-101 | what the first k chunks wrote is a prefix of what all the chunks wrote: writes only append, in order |
| `StreamProgress.ChunkIsSlice` | ImgurUploader/MainForm.cs:99-101 | each chunk is the slice of the output that starts where the chunks before it end, so each write holds exactly the bytes just read |
| `StreamProgress.FlattenLength` | ImgurUploader/MainForm.cs:96-101 | chunks that fit the buffer carry at least one and at most 4096 bytes each; an empty input therefore yields no chunk |
| `StreamProgress.InputStream.Length` | ImgurUploader/MainForm.cs:104 | the stream's length is the number of bytes it holds, fixed however far it has been read; it is both the divisor of the progress value and the length declared at MainForm.cs:114. The postconditions of `SerializeToStream` prove that it bounds the bytes copied and, from position 0, equals the bytes written |
| `StreamProgress.FlattenAppend` | ImgurUploader/MainForm.cs:101 | loop-step helper: writing one more chunk appends exactly that chunk to what was written before |
| `StreamProgress.ReportsAppend` | ImgurUploader/MainForm.cs:103-104 | loop-step helper: one more chunk adds exactly one report at the end of the log: the percentage of all bytes copied so far, that chunk included |
| `StreamProgress.AppendChunk` | ImgurUploader/MainForm.cs:99-104 | loop-step helper for `SerializeToStream`: a chunk of 1..4096 bytes keeps every chunk within the buffer, extends the output by exactly that chunk, and extends the progress log by the one report for the new total |
| `StreamProgress.ReportsAt` | ImgurUploader/MainForm.cs:103-104 | report i is `100 * total / Length`, where total is the number of bytes in chunks 0..i; a report exists only when the length is non-zero |
| `StreamProgress.ReportsBounded` | ImgurUploader/MainForm.cs:103-104 | while total <= Length, every report lies in 0..100 and none exceeds the last |
| `StreamProgress.ReportsNonDecreasing` | ImgurUploader/MainForm.cs:103-104 | the reports never go down |
| `StreamProgress.ReportsReachHundred` | ImgurUploader/MainForm.cs:103-104 | copying a non-empty input from position 0 to its end reports at least once, and the last report is 100 |
| `StreamProgress.InputStream.Read` | ImgurUploader/MainForm.cs:99 | a read copies the next n <= count bytes of the input into the buffer and advances the position by n; n is 0 exactly at the end of the input or when nothing is asked for |
| `StreamProgress.InputStream.Dispose` | ImgurUploader/MainForm.cs:109 | disposing the input marks it disposed |
| `StreamProgress.OutputStream.Write` | ImgurUploader/MainForm.cs:101 | a write appends `buf[offset..offset+count]` to the output and changes nothing else |
| `StreamProgress.ProgressSink.Report` | ImgurUploader/MainForm.cs:104 | a report appends its value to the sink's log |
| `StreamProgress.StreamProgressContent.constructor` | ImgurUploader/MainForm.cs:90-93 | the body keeps the given stream and progress sink |
| `StreamProgress.StreamProgressContent.TryComputeLength` | ImgurUploader/MainForm.cs:113-116 | always succeeds, with the input's whole length, and reads no bytes. The postconditions of `SerializeToStream` prove that, from position 0, the declared length equals the number of bytes written |
| `StreamProgress.StreamProgressContent.SerializeToStream` | ImgurUploader/MainForm.cs:95-106 | the loop ends at the end of the input. The chunks it read each hold 1..4096 bytes, and together they are exactly the rest of the input, in order. The output grows by exactly those bytes. The sink receives one report per chunk, equal to `Reports(chunks, Length)`. From position 0, the byte count written equals the declared length. An empty input gives no chunk and no report |
| `StreamProgress.StreamProgressContent.Dispose` | ImgurUploader/MainForm.cs:108-111 | the input ends up disposed if and only if it already was or `disposing` is true |
| `ImgurUploader.UploadOutcome` | ImgurUploader/MainForm.cs:128-142 | a link comes back exactly for a decoded envelope with `success` and data, and it is `data.link`. Null comes back exactly on an `HttpRequestException` or `success == false`. Any other exception propagates unchanged (`Rethrown`), and a successful envelope without data raises the null dereference (`NullReference`) |
| `ImgurUploader.OnlySuccessAndLinkMatter` | ImgurUploader/MainForm.cs:135 | envelopes that agree on `success`, on whether `data` is present, and on `data.link` give the same outcome; `status`, `id`, `description`, `datetime`, `deletehash` and `name` never reach the result |
| `ImgurUploader.Upload` | ImgurUploader/MainForm.cs:128-142 | the outcome is `UploadOutcome` of what came back, and the input stream is disposed on every path. The ghost result lists the chunks moved: none when the body was not sent, and otherwise chunks of 1..4096 bytes that together are exactly the rest of the input. The wire grows by exactly those chunks. The progress log grows by `Reports` of them: every report is in 0..100, an empty input makes no report, and a non-empty input read from position 0 ends with a report of 100. When the body was not sent, nothing is read, written or reported |

## Left out

- The window, drag and drop, clipboard handling, the list view and the progress bar (`MainForm`, `Add`, `MainForm.Designer.cs`): presentation and event wiring.
- `HttpClient`, `PostAsync`, the `Authorization` header, the endpoint constant and the reading of the response body: network I/O in a foreign library. Their result is the `Outcome` input of `UploadOutcome` and `Upload`, and whether the transport sent the body is the `bodySent` input.
- JSON decoding (`FromJson<T>` is not part of this model). The decoded envelope is an abstract value, and a decoding failure is one `OtherFault`. A body that decodes to a null envelope is not distinguished.
- `async`/`await` and the threading of `IProgress<int>`: reads, writes and reports are synchronous steps.
- Faults raised by the input or output stream in the middle of the copy: the model's reads and writes always succeed.
- The base class's `HttpContent.Dispose(bool)`: framework code. Only the disposal of the input is modelled.
- Null strings in the envelope: a null `data.link` flows through to `Result.Link` unchanged in the source; the model's strings are never null.
- `StreamProgress.Percent`: the C# expression is computed in 64-bit `long`, and `100 * total` would overflow past about 9.2·10^16 bytes. The model uses unbounded integers. Both operands are non-negative, so C#'s truncating division agrees with Dafny's.
- `StreamProgress.StreamProgressContent.SerializeToStream`: the source's loop counter `total` is a local, so its agreement with the bytes read is a loop invariant, not part of the postcondition.
