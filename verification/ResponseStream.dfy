/** `ConversationResponseClient.stream` of frontend/src/api/conversationResponses.ts, after the HTTP call:
    the commit rule over the frames of the response body. */
module ResponseStream {
  import opened Results
  import opened EventStream

  const ERROR_EVENT := "platform.error"
  const DELTA := "conversation.response.delta"
  const ACTIVITY := "conversation.response.activity"
  const COMMITTED := "conversation.response.committed"

  datatype StreamError = Platform(body: Json) | MalformedPlatformError | EndedWithoutCommit

  predicate HasString(members: map<string, Json>, name: string) {
    name in members && members[name].JStr?
  }

  predicate IsErrorBody(payload: Json) {
    && payload.JObj?
    && HasString(payload.members, "code") && HasString(payload.members, "category")
    && HasString(payload.members, "message") && HasString(payload.members, "request_id")
    && HasString(payload.members, "correlation_id")
    && "retryable" in payload.members && payload.members["retryable"].JBool?
  }

  /** `parseResponseEvent`: the payload must repeat the event name, one of the three known ones. */
  predicate IsResponseEvent(event: string, payload: Json) {
    && payload.JObj? && "type" in payload.members && payload.members["type"] == JStr(event)
    && (event == DELTA || event == ACTIVITY || event == COMMITTED)
  }

  /** `payloads[i]` is the parsed data of `frames[i]`, null where it is not JSON. */
  predicate Aborts(frames: seq<Frame>, i: nat)
    requires i < |frames|
  {
    frames[i].event == ERROR_EVENT
  }

  predicate Commits(frames: seq<Frame>, payloads: seq<Json>, i: nat)
    requires i < |frames| == |payloads|
  {
    frames[i].event == COMMITTED && IsResponseEvent(COMMITTED, payloads[i])
  }

  /** Frame `i` carries the last committed message among the first `n`. */
  ghost predicate LastCommit(frames: seq<Frame>, payloads: seq<Json>, n: nat, i: nat) {
    && i < n <= |frames| == |payloads| && Commits(frames, payloads, i)
    && forall j :: i < j < n ==> !Commits(frames, payloads, j)
  }

  /** `committed` holds the payload of the last committed message among the first `n` frames, if any. */
  ghost predicate CommittedBy(frames: seq<Frame>, payloads: seq<Json>, n: nat, committed: Option<Json>) {
    && n <= |frames| == |payloads|
    && (committed.None? ==> forall j :: 0 <= j < n ==> !Commits(frames, payloads, j))
    && (committed.Some? ==> exists i: nat :: LastCommit(frames, payloads, n, i) && committed.value == payloads[i])
  }

  lemma NothingCommitted(frames: seq<Frame>, payloads: seq<Json>)
    requires |frames| == |payloads|
    ensures CommittedBy(frames, payloads, 0, None)
  {}

  lemma CommitStep(frames: seq<Frame>, payloads: seq<Json>, k: nat, committed: Option<Json>)
    requires CommittedBy(frames, payloads, k, committed) && k < |frames|
    ensures CommittedBy(frames, payloads, k + 1, if Commits(frames, payloads, k) then Some(payloads[k]) else committed)
  {
    hide IsResponseEvent;
    if Commits(frames, payloads, k) {
      assert LastCommit(frames, payloads, k + 1, k);
    } else if committed.Some? {
      var i: nat :| LastCommit(frames, payloads, k, i) && committed.value == payloads[i];
      assert LastCommit(frames, payloads, k + 1, i);
    }
  }

  lemma CommittedAnswer(frames: seq<Frame>, payloads: seq<Json>, committed: Option<Json>)
    requires CommittedBy(frames, payloads, |frames|, committed)
    ensures committed.None? ==> forall j :: 0 <= j < |frames| ==> !Commits(frames, payloads, j)
    ensures committed.Some? ==> exists i: nat :: LastCommit(frames, payloads, |frames|, i) && committed.value == payloads[i]
  {}

  ghost predicate FirstAbort(frames: seq<Frame>, i: nat) {
    i < |frames| && Aborts(frames, i) && forall j :: 0 <= j < i ==> !Aborts(frames, j)
  }

  function ErrorFor(payload: Json): StreamError {
    if IsErrorBody(payload) then Platform(payload) else MalformedPlatformError
  }

  /** The events handed to the callbacks, in order, with the outcome: an error frame ends the stream at
      once whatever was committed before, otherwise the last committed message is the result. */
  method Stream(frames: seq<Frame>, payloads: seq<Json>) returns (result: Result<Json, StreamError>, delivered: seq<Json>)
    requires |frames| == |payloads|
    ensures result.Ok? ==> exists i: nat :: LastCommit(frames, payloads, |frames|, i) && result.value == payloads[i]
    ensures result.Ok? || result.error.EndedWithoutCommit? ==> forall j :: 0 <= j < |frames| ==> !Aborts(frames, j)
    ensures result == Err(EndedWithoutCommit) ==> forall j :: 0 <= j < |frames| ==> !Commits(frames, payloads, j)
    ensures result.Err? && !result.error.EndedWithoutCommit? ==>
      exists i: nat :: FirstAbort(frames, i) && delivered == Delivered(frames[..i], payloads[..i]) && result.error == ErrorFor(payloads[i])
    ensures result.Ok? || result.error.EndedWithoutCommit? ==> delivered == Delivered(frames, payloads)
  {
    hide CommittedBy, HasString, IsErrorBody;
    var committed: Option<Json> := None;
    delivered := [];
    NothingCommitted(frames, payloads);
    for k := 0 to |frames|
      invariant forall j :: 0 <= j < k ==> !Aborts(frames, j)
      invariant CommittedBy(frames, payloads, k, committed)
      invariant delivered == Delivered(frames[..k], payloads[..k])
    {
      var frame, payload := frames[k], payloads[k];
      if frame.event == ERROR_EVENT {
        assert Aborts(frames, k);
        assert FirstAbort(frames, k);
        return Err(ErrorFor(payload)), delivered;
      }
      assert frames[..k + 1][..k] == frames[..k] && payloads[..k + 1][..k] == payloads[..k];
      CommitStep(frames, payloads, k, committed);
      if !IsResponseEvent(frame.event, payload) {
        continue;
      }
      delivered := delivered + [payload];
      if frame.event != DELTA && frame.event != ACTIVITY {
        committed := Some(payload);
      }
    }
    assert frames[..|frames|] == frames && payloads[..|frames|] == payloads;
    CommittedAnswer(frames, payloads, committed);
    result := if committed.Some? then Ok(committed.value) else Err(EndedWithoutCommit);
  }

  /** Payloads of the known events that name their own type. */
  function Delivered(frames: seq<Frame>, payloads: seq<Json>): seq<Json>
    requires |frames| == |payloads|
  {
    if frames == [] then []
    else
      var n := |frames| - 1;
      Delivered(frames[..n], payloads[..n])
        + (if IsResponseEvent(frames[n].event, payloads[n]) then [payloads[n]] else [])
  }
}
