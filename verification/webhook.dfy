/** Verifying a signed webhook delivery and turning its body into an event.
    The checks run in a fixed order: read the header, keep the signatures
    under the expected scheme, compare each with the HMAC of
    `<timestamp>.<payload>`, and, only when a tolerance is given, reject a
    timestamp older than it. The body is read as JSON only after all of
    that has passed. */
module Webhook {
  import opened Results
  import opened Utf8
  import opened Decimal
  import opened WebhookTypes
  import opened SignatureHeader
  import Strings

  /** The scheme whose signatures are checked unless another is asked for. */
  const ExpectedScheme: string := "v1"

  /** The text the sender signs: the timestamp in decimal, '.', the payload. */
  function SignedPayload(timestamp: int, payload: string): (s: string)
    ensures |s| == |ToDecimal(timestamp)| + 1 + |payload|
  {
    ToDecimal(timestamp) + "." + payload
  }

  /** The signed text determines both the timestamp and the payload:
      distinct pairs give distinct signed messages, so a signature made for
      one pair matches another only through a collision of the keyed hash. */
  lemma SignedPayloadInjective(t1: int, p1: string, t2: int, p2: string)
    requires SignedPayload(t1, p1) == SignedPayload(t2, p2)
    ensures t1 == t2 && p1 == p2
  {
    var d1, d2 := ToDecimal(t1), ToDecimal(t2);
    var s := SignedPayload(t1, p1);
    Strings.IndexAfterPrefix(d1, '.', p1);
    Strings.IndexAfterPrefix(d2, '.', p2);
    assert d1 + "." + p1 == d1 + ['.'] + p1;
    assert d2 + "." + p2 == d2 + ['.'] + p2;
    assert |d1| == |d2|;
    assert d1 == s[..|d1|] == d2;
    ParseToDecimal(t1);
    ParseToDecimal(t2);
    assert p1 == s[|d1| + 1..] == p2;
  }

  /** The signature a genuine sender puts in the header for this timestamp
      and payload: the HMAC of the UTF-8 encoded signed payload. */
  function ExpectedSignature(secret: Raw, timestamp: int, payload: string, hmac: Hmac): string {
    hmac(KeyBytes(secret), Encode(SignedPayload(timestamp, payload)))
  }

  /** The values of the signatures under `scheme`, in header order. */
  function Candidates(sigs: seq<Signature>, scheme: string): (vs: seq<string>)
    ensures |vs| <= |sigs|
    ensures forall v :: v in vs <==> Signature(scheme, v) in sigs
    ensures |vs| == 0 <==> !HasScheme(sigs, scheme)
  {
    if |sigs| == 0 then []
    else
      var rest := Candidates(sigs[1..], scheme);
      assert forall s :: s in sigs ==> s == sigs[0] || s in sigs[1..];
      if sigs[0].scheme == scheme then [sigs[0].value] + rest else rest
  }

  /** Some signature in `sigs` is under `scheme`. */
  predicate HasScheme(sigs: seq<Signature>, scheme: string) {
    exists s :: s in sigs && s.scheme == scheme
  }

  /** True when there is no tolerance or the timestamp is at most that many
      seconds older than `now`. */
  predicate WithinTolerance(tolerance: Option<nat>, now: int, timestamp: int) {
    match tolerance
    case None => true
    case Some(limit) => now - timestamp <= limit
  }

  /** The header carries a signature, under `scheme`, equal to the one a
      genuine sender would compute for this payload and secret. */
  predicate Signed(h: SignedHeader, payload: Raw, secret: Raw, scheme: string, hmac: Hmac) {
    Signature(scheme, ExpectedSignature(secret, h.timestamp, Normalize(payload), hmac)) in h.signatures
  }

  /** The delivery is genuine and fresh: the header is readable, signed for
      this payload under `scheme`, and within the tolerance if one is given. */
  predicate Accepted(payload: Raw, header: HeaderArg, secret: Raw, tolerance: Option<nat>,
                     scheme: string, now: int, hmac: Hmac) {
    match ParseHeader(header)
    case Failure(_) => false
    case Success(h) => Signed(h, payload, secret, scheme, hmac) && WithinTolerance(tolerance, now, h.timestamp)
  }

  /** The checks that follow reading the header, in order: some signature
      under `scheme`, one of them equal to the expected signature, and the
      timestamp within the tolerance if one is given. */
  function CheckSignatures(h: SignedHeader, payload: Raw, secret: Raw, tolerance: Option<nat>,
                           scheme: string, now: int, hmac: Hmac): (r: Result<bool, WebhookError>)
    ensures r.Success? ==> r.value
    ensures r.Success? <==> Signed(h, payload, secret, scheme, hmac) && WithinTolerance(tolerance, now, h.timestamp)
    ensures r == Failure(NoSchemeSig) <==> !HasScheme(h.signatures, scheme)
    ensures r == Failure(NoMatch) <==> HasScheme(h.signatures, scheme) && !Signed(h, payload, secret, scheme, hmac)
    ensures r == Failure(OutsideTolerance) <==>
      Signed(h, payload, secret, scheme, hmac) && !WithinTolerance(tolerance, now, h.timestamp)
    ensures r != Failure(ParseError) && r != Failure(JsonError)
  {
    var candidates := Candidates(h.signatures, scheme);
    if |candidates| == 0 then Failure(NoSchemeSig)
    else
      var expected := ExpectedSignature(secret, h.timestamp, Normalize(payload), hmac);
      if expected !in candidates then Failure(NoMatch)
      else if !WithinTolerance(tolerance, now, h.timestamp) then Failure(OutsideTolerance)
      else Success(true)
  }

  /** Checks a delivery. It succeeds, with `true`, exactly when the delivery
      is accepted; otherwise it names the first check that failed (see
      VerifyOutcomes). */
  function VerifyHeader(payload: Raw, header: HeaderArg, secret: Raw, tolerance: Option<nat>,
                        scheme: string, now: int, hmac: Hmac): (r: Result<bool, WebhookError>)
    ensures r.Success? ==> r.value
    ensures r.Success? <==> Accepted(payload, header, secret, tolerance, scheme, now, hmac)
    ensures r != Failure(JsonError)
  {
    match ParseHeader(header)
    case Failure(e) => Failure(e)
    case Success(h) => CheckSignatures(h, payload, secret, tolerance, scheme, now, hmac)
  }

  /** Once the header has been read, the outcome is the decision on what
      was read. */
  lemma VerifyReadable(payload: Raw, header: HeaderArg, h: SignedHeader, secret: Raw, tolerance: Option<nat>,
                       scheme: string, now: int, hmac: Hmac)
    requires ParseHeader(header) == Success(h)
    ensures VerifyHeader(payload, header, secret, tolerance, scheme, now, hmac)
         == CheckSignatures(h, payload, secret, tolerance, scheme, now, hmac)
  {
  }

  /** Which failure a rejected delivery gets: the checks run in the order
      parse, scheme, match, tolerance, and the first one that fails names
      the error. */
  lemma VerifyOutcomes(payload: Raw, header: HeaderArg, secret: Raw, tolerance: Option<nat>,
                       scheme: string, now: int, hmac: Hmac)
    ensures var r := VerifyHeader(payload, header, secret, tolerance, scheme, now, hmac);
      var p := ParseHeader(header);
      && (r == Failure(ParseError) <==> p.Failure?)
      && (r == Failure(NoSchemeSig) <==> p.Success? && !HasScheme(p.value.signatures, scheme))
      && (r == Failure(NoMatch) <==>
            p.Success? && HasScheme(p.value.signatures, scheme) && !Signed(p.value, payload, secret, scheme, hmac))
      && (r == Failure(OutsideTolerance) <==>
            p.Success? && Signed(p.value, payload, secret, scheme, hmac)
            && !WithinTolerance(tolerance, now, p.value.timestamp))
  {
  }

  /** Verifies the delivery under the expected scheme and only then reads the
      body as JSON. A verification failure is passed on unchanged; a body
      that is genuine but not JSON fails with JsonError. */
  function ConstructEvent(payload: Raw, header: HeaderArg, secret: Raw, tolerance: Option<nat>,
                          now: int, hmac: Hmac, readJson: JsonReader): (r: Result<Event, WebhookError>)
    ensures r.Success? <==>
      VerifyHeader(payload, header, secret, tolerance, ExpectedScheme, now, hmac).Success?
      && readJson(Normalize(payload)).Some?
    ensures r.Success? ==> readJson(Normalize(payload)) == Some(r.value)
    ensures r.Failure? && r.error == JsonError <==>
      VerifyHeader(payload, header, secret, tolerance, ExpectedScheme, now, hmac).Success?
      && readJson(Normalize(payload)).None?
    ensures VerifyHeader(payload, header, secret, tolerance, ExpectedScheme, now, hmac).Failure? ==>
      r == Failure(VerifyHeader(payload, header, secret, tolerance, ExpectedScheme, now, hmac).error)
  {
    match VerifyHeader(payload, header, secret, tolerance, ExpectedScheme, now, hmac)
    case Failure(e) => Failure(e)
    case Success(_) =>
      match readJson(Normalize(payload))
      case None => Failure(JsonError)
      case Some(event) => Success(event)
  }

  /** Verification depends on the payload and header only through their
      canonical text: inputs that normalise alike are treated alike. */
  lemma CanonicalInputsAgree(p1: Raw, p2: Raw, h1: Raw, h2: Raw, secret: Raw, tolerance: Option<nat>,
                             scheme: string, now: int, hmac: Hmac)
    requires Normalize(p1) == Normalize(p2) && Normalize(h1) == Normalize(h2)
    ensures VerifyHeader(p1, Given(h1), secret, tolerance, scheme, now, hmac)
         == VerifyHeader(p2, Given(h2), secret, tolerance, scheme, now, hmac)
  {
    assert ParseHeader(Given(h1)) == ParseHeader(Given(h2));
    match ParseHeader(Given(h1))
    case Failure(_) =>
    case Success(h) =>
      CheckCanonicalPayload(h, p1, p2, secret, tolerance, scheme, now, hmac);
      VerifyReadable(p1, Given(h1), h, secret, tolerance, scheme, now, hmac);
      VerifyReadable(p2, Given(h2), h, secret, tolerance, scheme, now, hmac);
  }

  /** So does event construction. */
  lemma CanonicalEventsAgree(p1: Raw, p2: Raw, h1: Raw, h2: Raw, secret: Raw, tolerance: Option<nat>,
                             now: int, hmac: Hmac, readJson: JsonReader)
    requires Normalize(p1) == Normalize(p2) && Normalize(h1) == Normalize(h2)
    ensures ConstructEvent(p1, Given(h1), secret, tolerance, now, hmac, readJson)
         == ConstructEvent(p2, Given(h2), secret, tolerance, now, hmac, readJson)
  {
    CanonicalInputsAgree(p1, p2, h1, h2, secret, tolerance, ExpectedScheme, now, hmac);
  }

  lemma CheckCanonicalPayload(h: SignedHeader, p1: Raw, p2: Raw, secret: Raw, tolerance: Option<nat>,
                              scheme: string, now: int, hmac: Hmac)
    requires Normalize(p1) == Normalize(p2)
    ensures CheckSignatures(h, p1, secret, tolerance, scheme, now, hmac)
         == CheckSignatures(h, p2, secret, tolerance, scheme, now, hmac)
  {
    assert ExpectedSignature(secret, h.timestamp, Normalize(p1), hmac)
        == ExpectedSignature(secret, h.timestamp, Normalize(p2), hmac);
  }
}
