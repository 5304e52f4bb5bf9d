/** Submission of built manifests to the e-Manifest save endpoint, one at a time.
    The HTTP call itself is a parameter: the outcome of the n-th request, which
    either resolves with the response body or rejects with a thrown value. */
module Submit {
  import opened Wrappers
  import opened Json
  import opened Errors
  import opened Build

  /** What the save request did: resolved with `response.data`, or rejected. */
  datatype PostOutcome = Resolved(data: Value) | Rejected(error: Thrown)

  /** The response recorded for one manifest. */
  datatype ApiResponse =
      /** `{ manifestId, result: 'Saved', response }` */
    | Saved(manifestId: Value, response: Value)
      /** `{ manifestId, result: 'apiValidationError', response }`, the response
          being the rejected error */
    | ApiValidationError(manifestId: Value, error: Thrown)
      /** `{ manifestId, result: 'unknownApiError', error }` */
    | UnknownApiError(manifestId: Value, message: string)
  {
    /** `response.result` */
    function ResultName(): string {
      match this
      case Saved(_, _) => "Saved"
      case ApiValidationError(_, _) => "apiValidationError"
      case UnknownApiError(_, _) => "unknownApiError"
    }
  }

  const UnknownApiMessage: string :=
    "There was an error submitting to the e-Manifest API. Please try again or check logs."

  /** `submitToApi(manifest)`, given what the save request did.
      - A resolved request is `Saved` with the response body.
      - A rejection carrying its own `cause` (as failed authentication does) is
        rethrown, and so is the TypeError of asking `undefined` or `null` for
        `hasOwnProperty`.
      - Any other rejection with its own `operationStatus` is an
        `apiValidationError` holding the error, and the rest are
        `unknownApiError` with a fixed message.
      Every response names the manifest it was for. */
  function SubmitToApi(manifest: ManifestPayload, outcome: PostOutcome): (r: Result<ApiResponse, Thrown>)
    ensures outcome.Resolved? ==> r == Ok(Saved(manifest.manifestId, outcome.data))
    ensures r.Ok? ==> r.value.manifestId == manifest.manifestId
    ensures r.Ok? && r.value.Saved? <==> outcome.Resolved?
    ensures outcome.Rejected? ==>
      (r.Err? <==> HasOwn(outcome.error, "cause") || outcome.error == Plain(Undefined) || outcome.error == Plain(Null))
    ensures outcome.Rejected? && HasOwn(outcome.error, "cause") ==> r == Err(outcome.error)
    ensures r.Ok? && r.value.ApiValidationError? <==>
      outcome.Rejected? && r.Ok? && HasOwn(outcome.error, "operationStatus")
    ensures r.Ok? && r.value.ApiValidationError? ==> r.value.error == outcome.error
    ensures r.Ok? && r.value.UnknownApiError? ==> r.value.message == UnknownApiMessage
  {
    match outcome
    case Resolved(data) => Ok(Saved(manifest.manifestId, data))
    case Rejected(error) =>
      if error == Plain(Undefined) || error == Plain(Null) then Err(ReadOfNothing(error.value, "hasOwnProperty"))
      else if HasOwn(error, "cause") then Err(error)
      else if HasOwn(error, "operationStatus") then Ok(ApiValidationError(manifest.manifestId, error))
      else Ok(UnknownApiError(manifest.manifestId, UnknownApiMessage))
  }

  /** The n-th request's response, given the request outcomes. */
  function Respond(payloads: seq<ManifestPayload>, post: (nat, ManifestPayload) -> PostOutcome, n: nat): Result<ApiResponse, Thrown>
    requires n < |payloads|
  {
    SubmitToApi(payloads[n], post(n, payloads[n]))
  }

  /** Reference definition of the loop: the responses of the payloads before the
      last, then the last's; the first payload whose submission throws decides
      the error. */
  function SubmitAll(payloads: seq<ManifestPayload>, post: (nat, ManifestPayload) -> PostOutcome): (r: Result<seq<ApiResponse>, Thrown>)
    ensures r.Ok? <==> forall n :: 0 <= n < |payloads| ==> Respond(payloads, post, n).Ok?
    ensures r.Ok? ==> |r.value| == |payloads|
    ensures r.Ok? ==> forall n :: 0 <= n < |payloads| ==> r.value[n] == Respond(payloads, post, n).value
    ensures r.Err? ==>
      exists n ::
        && 0 <= n < |payloads|
        && Respond(payloads, post, n) == Err(r.error)
        && forall m :: 0 <= m < n ==> Respond(payloads, post, m).Ok?
    decreases |payloads|
  {
    if |payloads| == 0 then Ok([])
    else
      var last := |payloads| - 1;
      var prefix := payloads[..last];
      PrefixResponds(payloads, post, last);
      var earlier :- SubmitAll(prefix, post);
      var response :- Respond(payloads, post, last);
      Ok(earlier + [response])
  }

  /** A prefix's requests are the same requests. */
  lemma PrefixResponds(payloads: seq<ManifestPayload>, post: (nat, ManifestPayload) -> PostOutcome, k: nat)
    requires k <= |payloads|
    ensures forall n :: 0 <= n < k ==> Respond(payloads[..k], post, n) == Respond(payloads, post, n)
  {
  }

  /** `submitRequestsToApi(payloads)`: submits the payloads one after another and
      collects one response per payload, in order. A submission that throws ends
      the loop: the payloads after it are never posted. `posted` counts the
      requests made. */
  method SubmitRequestsToApi(payloads: seq<ManifestPayload>, post: (nat, ManifestPayload) -> PostOutcome)
    returns (r: Result<seq<ApiResponse>, Thrown>, posted: nat)
    ensures r == SubmitAll(payloads, post)
    ensures r.Ok? ==> posted == |payloads| && |r.value| == |payloads|
    ensures r.Ok? ==> forall n :: 0 <= n < |payloads| ==> r.value[n].manifestId == payloads[n].manifestId
    ensures r.Err? ==> 0 < posted <= |payloads| && Respond(payloads, post, posted - 1) == Err(r.error)
    ensures r.Err? ==> forall m :: 0 <= m < posted - 1 ==> Respond(payloads, post, m).Ok?
  {
    var responses: seq<ApiResponse> := [];
    posted := 0;
    while posted < |payloads|
      invariant posted <= |payloads|
      invariant SubmitAll(payloads[..posted], post) == Ok(responses)
      invariant forall m :: 0 <= m < posted ==> Respond(payloads, post, m).Ok?
    {
      PrefixResponds(payloads, post, posted + 1);
      assert payloads[..posted + 1][..posted] == payloads[..posted];
      var response := SubmitToApi(payloads[posted], post(posted, payloads[posted]));
      posted := posted + 1;
      if response.Err? {
        r := Err(response.error);
        StopsAtFailure(payloads, post, posted - 1);
        return;
      }
      responses := responses + [response.value];
    }
    assert payloads[..posted] == payloads;
    r := Ok(responses);
  }

  /** The whole run fails with the first failing request's error. */
  lemma StopsAtFailure(payloads: seq<ManifestPayload>, post: (nat, ManifestPayload) -> PostOutcome, n: nat)
    requires n < |payloads| && Respond(payloads, post, n).Err?
    requires forall m :: 0 <= m < n ==> Respond(payloads, post, m).Ok?
    ensures SubmitAll(payloads, post) == Err(Respond(payloads, post, n).error)
  {
    var r := SubmitAll(payloads, post);
    assert r.Err?;
    var k :| && 0 <= k < |payloads|
             && Respond(payloads, post, k) == Err(r.error)
             && forall m :: 0 <= m < k ==> Respond(payloads, post, m).Ok?;
    assert k == n;
  }
}
