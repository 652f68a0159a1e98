/** The payload by which a mail server reports the end of a request, and its reading. */
module MailServer {
  import opened Types

  const CURSOR_SIZE := 36

  /** The ASCII bytes of `ERROR=`. */
  const FAILED_PREFIX: Bytes := [69, 82, 82, 79, 82, 61]

  datatype Response =
    | Failed(request: Hash, message: Bytes)
    | Completed(request: Hash, lastEnvelope: Hash, cursor: Bytes)

  function CompletedPayload(request: Hash, lastEnvelope: Hash, cursor: Bytes): Bytes {
    request + lastEnvelope + cursor
  }

  function FailedPayload(request: Hash, message: Bytes): Bytes {
    FAILED_PREFIX + request + message
  }

  function ExtractPrefix(payload: Bytes, size: nat): (Bytes, Bytes)
    requires size <= |payload|
  {
    (payload[..size], payload[size..])
  }

  function ExtractHash(payload: Bytes): (Hash, Bytes)
    requires HASH_LENGTH <= |payload|
  {
    (payload[..HASH_LENGTH], payload[HASH_LENGTH..])
  }

  function TryFailed(payload: Bytes): Option<Response> {
    if |payload| < HASH_LENGTH + |FAILED_PREFIX| then None
    else
      var (prefix, rest) := ExtractPrefix(payload, |FAILED_PREFIX|);
      if prefix != FAILED_PREFIX then None
      else
        var (request, message) := ExtractHash(rest);
        Some(Failed(request, message))
  }

  function TryCompleted(payload: Bytes): Option<Response>
    requires HASH_LENGTH <= |payload|
  {
    if |payload| > HASH_LENGTH * 2 + CURSOR_SIZE then None
    else
      var (request, rest) := ExtractHash(payload);
      var (lastEnvelope, tail) := if |rest| >= HASH_LENGTH then ExtractHash(rest) else (ZERO_HASH, rest);
      Some(Completed(request, lastEnvelope, if |tail| >= CURSOR_SIZE then tail else []))
  }

  /** None stands for the error about an unexpected payload size. */
  function Decode(payload: Bytes): Option<Response> {
    if |payload| < HASH_LENGTH then None
    else if TryFailed(payload).Some? then TryFailed(payload)
    else TryCompleted(payload)
  }

  /** A failure reads back as its request and message, whatever they are. */
  lemma FailedRoundTrip(request: Hash, message: Bytes)
    ensures Decode(FailedPayload(request, message)) == Some(Failed(request, message))
  {
    var payload := FailedPayload(request, message);
    assert payload[..|FAILED_PREFIX|] == FAILED_PREFIX;
    var rest := payload[|FAILED_PREFIX|..];
    assert rest == request + message;
    assert rest[..HASH_LENGTH] == request && rest[HASH_LENGTH..] == message;
  }

  /** A completion reads back exactly when its cursor is empty or 36 bytes long and its
      request does not begin like a failure. */
  lemma CompletedRoundTripExact(request: Hash, lastEnvelope: Hash, cursor: Bytes)
    ensures Decode(CompletedPayload(request, lastEnvelope, cursor)) == Some(Completed(request, lastEnvelope, cursor))
            <==> (|cursor| == 0 || |cursor| == CURSOR_SIZE) && !(FAILED_PREFIX <= request)
  {
    var payload := CompletedPayload(request, lastEnvelope, cursor);
    assert payload[..|FAILED_PREFIX|] == request[..|FAILED_PREFIX|];
    assert payload[..HASH_LENGTH] == request;
    var rest := payload[HASH_LENGTH..];
    assert rest == lastEnvelope + cursor;
    assert rest[..HASH_LENGTH] == lastEnvelope && rest[HASH_LENGTH..] == cursor;
  }

  /** Which payloads are refused, which are failures, and where the parts of a completion are read from: a payload
      too short for a last envelope or a cursor is read without it. */
  lemma DecodeExact(payload: Bytes)
    ensures Decode(payload).None? <==>
            |payload| < HASH_LENGTH
            || (|payload| > HASH_LENGTH * 2 + CURSOR_SIZE && !(FAILED_PREFIX <= payload))
    ensures Decode(payload).Some? && Decode(payload).value.Failed? ==>
            payload == FailedPayload(Decode(payload).value.request, Decode(payload).value.message)
    ensures Decode(payload).Some? ==>
            (Decode(payload).value.Failed? <==> FAILED_PREFIX <= payload && |payload| >= |FAILED_PREFIX| + HASH_LENGTH)
    ensures Decode(payload).Some? && Decode(payload).value.Completed? ==>
            var r := Decode(payload).value;
            && |r.cursor| == (if |payload| == HASH_LENGTH * 2 + CURSOR_SIZE then CURSOR_SIZE else 0)
            && (if |payload| >= HASH_LENGTH * 2 then CompletedPayload(r.request, r.lastEnvelope, r.cursor) <= payload
                else r.request <= payload && r.lastEnvelope == ZERO_HASH)
  {
    if |payload| >= |FAILED_PREFIX| {
      assert FAILED_PREFIX <= payload <==> payload[..|FAILED_PREFIX|] == FAILED_PREFIX;
    }
    if |payload| >= HASH_LENGTH + |FAILED_PREFIX| {
      var rest := payload[|FAILED_PREFIX|..];
      assert payload == payload[..|FAILED_PREFIX|] + rest[..HASH_LENGTH] + rest[HASH_LENGTH..];
    }
    if |payload| >= HASH_LENGTH * 2 {
      var rest := payload[HASH_LENGTH..];
      assert payload == payload[..HASH_LENGTH] + rest[..HASH_LENGTH] + rest[HASH_LENGTH..];
    }
  }
}
