/**
  `ImgurUploader.Upload`: posts a `StreamProgressContent` to the image
  service and reduces what comes back to a `Result` carrying the link, or to
  `null`.

  The HTTP exchange and the JSON decoding are foreign code; what they produce
  is an `Outcome` given to the model as an input: a transport fault (an
  `HttpRequestException`), any other fault (a decoding failure, for one), or
  a decoded response envelope.
*/
module ImgurUploader {
  import opened Wrappers
  import opened StreamProgress

  /**
    The `data` object of the envelope (`Data`). `description` is an `object`
    in the source; `Option<string>` stands for any JSON value or null, since
    nothing reads it.
  */
  datatype Data = Data(
    id: string,
    description: Option<string>,
    datetime: int,
    deletehash: string,
    name: string,
    link: string)

  /** The response envelope (`ImgurResponse`); its `data` may be absent, i.e. null. */
  datatype ImgurResponse = ImgurResponse(data: Option<Data>, success: bool, status: int)

  /** What `Upload` hands back on success (`Result`): the link and nothing else. */
  datatype Result = Result(link: string)

  /** What the POST and the decoding of its body came to. */
  datatype Outcome =
    | TransportFault                    // HttpRequestException, caught
    | OtherFault                        // any other exception, e.g. a decoding failure
    | Decoded(response: ImgurResponse)  // the body decoded as an envelope

  /** An exception that leaves `Upload` uncaught. */
  datatype Fault =
    | Rethrown        // the OtherFault, passed on as it was
    | NullReference   // `imgur.data.link` read while `data` is null

  /** How a call to `Upload` ends: it returns a `Result` or null, or it throws. */
  datatype Completion = Returned(result: Option<Result>) | Propagated(fault: Fault)

  /**
    The reduction at the end of `Upload`. A link comes back exactly when the
    envelope says `success` and carries data, and it is that data's link;
    null comes back exactly on a transport fault or an envelope that says
    not `success`; every other fault propagates.
  */
  function UploadOutcome(outcome: Outcome): (c: Completion)
    ensures c.Returned? && c.result.Some? <==>
      outcome.Decoded? && outcome.response.success && outcome.response.data.Some?
    ensures c.Returned? && c.result.Some? ==> c.result.value.link == outcome.response.data.value.link
    ensures c == Returned(None) <==>
      outcome.TransportFault? || (outcome.Decoded? && !outcome.response.success)
    ensures c.Propagated? <==>
      outcome.OtherFault? || (outcome.Decoded? && outcome.response.success && outcome.response.data.None?)
    ensures c.Propagated? && outcome.OtherFault? ==> c.fault == Rethrown
    ensures c.Propagated? && outcome.Decoded? ==> c.fault == NullReference
  {
    match outcome
    case TransportFault => Returned(None)
    case OtherFault => Propagated(Rethrown)
    case Decoded(response) =>
      if !response.success then Returned(None)
      else match response.data
        case None => Propagated(NullReference)
        case Some(data) => Returned(Some(Result(data.link)))
  }

  /**
    Only `success`, whether `data` is present, and `data.link` reach the
    result: envelopes that agree on those reduce alike, whatever their
    `status`, `id`, `description`, `datetime`, `deletehash` and `name`.
  */
  lemma OnlySuccessAndLinkMatter(a: ImgurResponse, b: ImgurResponse)
    requires a.success == b.success
    requires a.data.Some? == b.data.Some?
    requires a.data.Some? ==> a.data.value.link == b.data.value.link
    ensures UploadOutcome(Decoded(a)) == UploadOutcome(Decoded(b))
  {
  }

  /**
    `Upload` as a whole. The body is built around `stream`; when the
    transport sends it (`bodySent`), it drives `SerializeToStream` into
    `wire`; the outcome is then reduced; and on every path, including the
    ones that throw, the `using` block disposes the body and with it the
    input stream. The ghost result lists the chunks the body moved (none
    when it was not sent); the wire and the progress log are described by
    them, every report lies in 0..100, and an empty input makes no report.
  */
  method Upload(stream: InputStream, progress: ProgressSink, wire: OutputStream,
                bodySent: bool, outcome: Outcome) returns (c: Completion, ghost chunks: seq<seq<byte>>)
    requires stream.Valid() && !stream.disposed
    modifies stream`position, stream`disposed, progress, wire
    ensures c == UploadOutcome(outcome)
    ensures stream.disposed
    ensures !bodySent ==> chunks == [] && stream.position == old(stream.position)
    ensures bodySent ==> stream.position == |stream.data|
    ensures ChunksFit(chunks) && Flatten(chunks) == stream.data[old(stream.position)..stream.position]
    ensures wire.written == old(wire.written) + Flatten(chunks)
    ensures progress.reports == old(progress.reports) + Reports(chunks, |stream.data|)
    ensures |stream.data| == 0 ==> progress.reports == old(progress.reports)
    ensures forall i :: |old(progress.reports)| <= i < |progress.reports| ==> 0 <= progress.reports[i] <= 100
    ensures bodySent && old(stream.position) == 0 && |stream.data| > 0 ==>
      |progress.reports| > |old(progress.reports)| && progress.reports[|progress.reports| - 1] == 100
  {
    var content := new StreamProgressContent(stream, progress);
    chunks := [];
    if bodySent {
      chunks := content.SerializeToStream(wire);
      if old(stream.position) == 0 && |stream.data| > 0 {
        ReportsReachHundred(chunks, |stream.data|);
      }
    }
    FlattenLength(chunks);
    ReportsBounded(chunks, |stream.data|);
    c := UploadOutcome(outcome);
    content.Dispose(true);
  }
}
