/** What the library's own test suite observes of `constructEvent` and
    `verifyHeader`, stated for all inputs: each scenario becomes a lemma
    about the decision procedure, with the hash and the JSON reader left
    arbitrary. */
module WebhookProperties {
  import opened Results
  import opened Utf8
  import opened WebhookTypes
  import opened SignatureHeader
  import opened Webhook

  /** A lowercase hex digest, as HMAC-SHA256 renders it. */
  predicate HexDigest(s: string) {
    forall i :: 0 <= i < |s| ==> '0' <= s[i] <= '9' || 'a' <= s[i] <= 'f'
  }

  /** The header a genuine sender writes: the timestamp and one signature
      under `scheme` over this payload. */
  function SenderHeader(payload: string, secret: Raw, timestamp: int, scheme: string, hmac: Hmac): SignedHeader {
    SignedHeader(timestamp, [Signature(scheme, ExpectedSignature(secret, timestamp, payload, hmac))])
  }

  /** A sender's header is readable and reads back as itself. */
  lemma {:induction false} ReadSenderHeader(payload: string, secret: Raw, timestamp: int, scheme: string, hmac: Hmac)
    requires HexDigest(ExpectedSignature(secret, timestamp, payload, hmac))
    requires ',' !in scheme && '=' !in scheme && scheme != TimestampKey
    ensures var h := SenderHeader(payload, secret, timestamp, scheme, hmac);
      ParseHeader(Given(Text(FormatHeader(h)))) == Success(h)
  {
    var h := SenderHeader(payload, secret, timestamp, scheme, hmac);
    ParseFormat(h);
  }

  /** Verifying a sender's header comes down to the decision on the header
      the sender wrote. */
  lemma {:induction false} VerifySender(payload: string, secret: Raw, timestamp: int, scheme: string, hmac: Hmac,
                     tolerance: Option<nat>, expected: string, now: int)
    requires HexDigest(ExpectedSignature(secret, timestamp, payload, hmac))
    requires ',' !in scheme && '=' !in scheme && scheme != TimestampKey
    ensures var h := SenderHeader(payload, secret, timestamp, scheme, hmac);
      VerifyHeader(Text(payload), Given(Text(FormatHeader(h))), secret, tolerance, expected, now, hmac)
      == CheckSignatures(h, Text(payload), secret, tolerance, expected, now, hmac)
  {
    var h := SenderHeader(payload, secret, timestamp, scheme, hmac);
    ReadSenderHeader(payload, secret, timestamp, scheme, hmac);
    VerifyReadable(Text(payload), Given(Text(FormatHeader(h))), h, secret, tolerance, expected, now, hmac);
  }

  /** A correctly signed, fresh delivery whose body is JSON yields the event
      the body denotes, so the event's `id` is the payload's. */
  lemma GenuineDeliveryYieldsEvent(payload: string, secret: Raw, timestamp: int, tolerance: Option<nat>,
                                   now: int, hmac: Hmac, readJson: JsonReader, event: Event)
    requires HexDigest(ExpectedSignature(secret, timestamp, payload, hmac))
    requires WithinTolerance(tolerance, now, timestamp)
    requires readJson(payload) == Some(event)
    ensures var header := FormatHeader(SenderHeader(payload, secret, timestamp, ExpectedScheme, hmac));
      var r := ConstructEvent(Text(payload), Given(Text(header)), secret, tolerance, now, hmac, readJson);
      r == Success(event) && r.value.id == event.id
  {
    VerifySender(payload, secret, timestamp, ExpectedScheme, hmac, tolerance, ExpectedScheme, now);
    assert Signed(SenderHeader(payload, secret, timestamp, ExpectedScheme, hmac), Text(payload), secret, ExpectedScheme, hmac);
  }

  /** A correctly signed body that is not JSON fails with the JSON error,
      not with a signature error. */
  lemma GenuineNonJsonIsJsonError(payload: string, secret: Raw, timestamp: int, tolerance: Option<nat>,
                                  now: int, hmac: Hmac, readJson: JsonReader)
    requires HexDigest(ExpectedSignature(secret, timestamp, payload, hmac))
    requires WithinTolerance(tolerance, now, timestamp)
    requires readJson(payload).None?
    ensures var header := FormatHeader(SenderHeader(payload, secret, timestamp, ExpectedScheme, hmac));
      ConstructEvent(Text(payload), Given(Text(header)), secret, tolerance, now, hmac, readJson) == Failure(JsonError)
  {
    VerifySender(payload, secret, timestamp, ExpectedScheme, hmac, tolerance, ExpectedScheme, now);
    assert Signed(SenderHeader(payload, secret, timestamp, ExpectedScheme, hmac), Text(payload), secret, ExpectedScheme, hmac);
  }

  /** When verification fails the body is never read: the outcome is that
      failure, the same for every JSON reader. */
  lemma RejectedDeliveryIgnoresBody(payload: Raw, header: HeaderArg, secret: Raw, tolerance: Option<nat>,
                                    now: int, hmac: Hmac, readJson: JsonReader, otherReader: JsonReader)
    requires VerifyHeader(payload, header, secret, tolerance, ExpectedScheme, now, hmac).Failure?
    ensures var r := ConstructEvent(payload, header, secret, tolerance, now, hmac, readJson);
      && r == ConstructEvent(payload, header, secret, tolerance, now, hmac, otherReader)
      && r.Failure? && r.error != JsonError
  {
  }

  /** Header text without any `key=value` entry fails to be read, for
      every body, scheme, tolerance and clock, in both entry points. */
  lemma EntrylessHeaderRejected(text: string, payload: Raw, secret: Raw, tolerance: Option<nat>,
                                scheme: string, now: int, hmac: Hmac, readJson: JsonReader)
    requires '=' !in text
    ensures VerifyHeader(payload, Given(Text(text)), secret, tolerance, scheme, now, hmac) == Failure(ParseError)
    ensures ConstructEvent(payload, Given(Text(text)), secret, tolerance, now, hmac, readJson) == Failure(ParseError)
  {
    NoEntryIsParseError(text);
    assert ParseHeader(Given(Text(text))).Failure?;
  }

  /** The malformed header texts of the test suite hold no `key=value`
      entry at all. */
  lemma TestHeadersHaveNoEntry(text: string)
    requires text in {"I'm not even a real signature header", "", "bad_header"}
    ensures '=' !in text
  {
  }

  /** The malformed header texts of the test suite (free text, the empty
      header, `bad_header`) fail to be read, whatever the body. */
  lemma {:induction false} MalformedHeadersRejected(text: string, payload: Raw, secret: Raw, tolerance: Option<nat>, now: int,
                                 hmac: Hmac, readJson: JsonReader)
    requires text in {"I'm not even a real signature header", "", "bad_header"}
    ensures VerifyHeader(payload, Given(Text(text)), secret, tolerance, ExpectedScheme, now, hmac) == Failure(ParseError)
    ensures ConstructEvent(payload, Given(Text(text)), secret, tolerance, now, hmac, readJson) == Failure(ParseError)
  {
    TestHeadersHaveNoEntry(text);
    EntrylessHeaderRejected(text, payload, secret, tolerance, ExpectedScheme, now, hmac, readJson);
  }

  /** A `null` or `undefined` header fails to be read, whatever the body. */
  lemma AbsentHeaderRejected(payload: Raw, secret: Raw, tolerance: Option<nat>, now: int,
                             hmac: Hmac, readJson: JsonReader)
    ensures VerifyHeader(payload, Null, secret, tolerance, ExpectedScheme, now, hmac) == Failure(ParseError)
    ensures VerifyHeader(payload, Undefined, secret, tolerance, ExpectedScheme, now, hmac) == Failure(ParseError)
    ensures ConstructEvent(payload, Null, secret, tolerance, now, hmac, readJson) == Failure(ParseError)
    ensures ConstructEvent(payload, Undefined, secret, tolerance, now, hmac, readJson) == Failure(ParseError)
  {
  }

  /** A readable header whose only signature is under another scheme fails
      with NoSchemeSig, even when that signature is correct. */
  lemma OtherSchemeOnly(payload: string, secret: Raw, timestamp: int, scheme: string, tolerance: Option<nat>,
                        now: int, hmac: Hmac)
    requires HexDigest(ExpectedSignature(secret, timestamp, payload, hmac))
    requires ',' !in scheme && '=' !in scheme && scheme != TimestampKey && scheme != ExpectedScheme
    ensures var header := FormatHeader(SenderHeader(payload, secret, timestamp, scheme, hmac));
      VerifyHeader(Text(payload), Given(Text(header)), secret, tolerance, ExpectedScheme, now, hmac) == Failure(NoSchemeSig)
  {
    VerifySender(payload, secret, timestamp, scheme, hmac, tolerance, ExpectedScheme, now);
    assert !HasScheme(SenderHeader(payload, secret, timestamp, scheme, hmac).signatures, ExpectedScheme);
  }

  /** A readable header whose one `v1` signature is anything but the
      expected one (a wrong string, or the right one with a character
      changed) fails with NoMatch, whatever the tolerance. */
  lemma WrongSignatureRejected(payload: string, secret: Raw, timestamp: int, signature: string,
                               tolerance: Option<nat>, now: int, hmac: Hmac)
    requires ',' !in signature
    requires signature != ExpectedSignature(secret, timestamp, payload, hmac)
    ensures var header := FormatHeader(SignedHeader(timestamp, [Signature(ExpectedScheme, signature)]));
      VerifyHeader(Text(payload), Given(Text(header)), secret, tolerance, ExpectedScheme, now, hmac) == Failure(NoMatch)
  {
    var h := SignedHeader(timestamp, [Signature(ExpectedScheme, signature)]);
    ParseFormat(h);
    VerifyReadable(Text(payload), Given(Text(FormatHeader(h))), h, secret, tolerance, ExpectedScheme, now, hmac);
    assert h.signatures[0].scheme == ExpectedScheme;
    assert !Signed(h, Text(payload), secret, ExpectedScheme, hmac);
  }

  /** With a tolerance, a correctly signed header is accepted exactly when
      its timestamp is at most `tolerance` seconds old, and otherwise fails
      with OutsideTolerance. */
  lemma ToleranceDecides(payload: string, secret: Raw, timestamp: int, tolerance: nat, now: int, hmac: Hmac)
    requires HexDigest(ExpectedSignature(secret, timestamp, payload, hmac))
    ensures var header := FormatHeader(SenderHeader(payload, secret, timestamp, ExpectedScheme, hmac));
      var r := VerifyHeader(Text(payload), Given(Text(header)), secret, Some(tolerance), ExpectedScheme, now, hmac);
      && (now - timestamp > tolerance ==> r == Failure(OutsideTolerance))
      && (now - timestamp <= tolerance ==> r == Success(true))
  {
    VerifySender(payload, secret, timestamp, ExpectedScheme, hmac, Some(tolerance), ExpectedScheme, now);
    assert Signed(SenderHeader(payload, secret, timestamp, ExpectedScheme, hmac), Text(payload), secret, ExpectedScheme, hmac);
  }

  /** Without a tolerance the clock is never consulted: a correctly signed
      header is accepted however old its timestamp. */
  lemma NoToleranceIgnoresClock(payload: string, secret: Raw, timestamp: int, now: int, hmac: Hmac)
    requires HexDigest(ExpectedSignature(secret, timestamp, payload, hmac))
    ensures var header := FormatHeader(SenderHeader(payload, secret, timestamp, ExpectedScheme, hmac));
      VerifyHeader(Text(payload), Given(Text(header)), secret, None, ExpectedScheme, now, hmac) == Success(true)
  {
    VerifySender(payload, secret, timestamp, ExpectedScheme, hmac, None, ExpectedScheme, now);
    assert Signed(SenderHeader(payload, secret, timestamp, ExpectedScheme, hmac), Text(payload), secret, ExpectedScheme, hmac);
  }

  /** Appending one more `v1` entry to header text: an accepted header stays
      accepted; an unreadable one stays unreadable; and, unless the header
      had no `v1` signature before, a value other than the expected one
      changes nothing. So extra signatures can only help a header that
      already carries the right one. */
  lemma {:induction false} ExtraSignature(payload: Raw, text: string, extra: string, secret: Raw, tolerance: Option<nat>,
                       now: int, hmac: Hmac)
    requires ',' !in extra
    ensures var before := VerifyHeader(payload, Given(Text(text)), secret, tolerance, ExpectedScheme, now, hmac);
      var after := VerifyHeader(payload, Given(Text(text + ",v1=" + extra)), secret, tolerance, ExpectedScheme, now, hmac);
      && (before.Success? ==> after == before)
      && (before == Failure(ParseError) ==> after == before)
      && (before != Failure(NoSchemeSig) && ParseHeaderText(text).Success?
          && extra != ExpectedSignature(secret, ParseHeaderText(text).value.timestamp, Normalize(payload), hmac)
          ==> after == before)
  {
    var s := Signature(ExpectedScheme, extra);
    assert text + ",v1=" + extra == text + "," + FormatEntry(Entry(s.scheme, s.value));
    AppendSignature(text, s);
    match ParseHeaderText(text)
    case Failure(_) =>
    case Success(h) =>
      var h' := SignedHeader(h.timestamp, h.signatures + [s]);
      VerifyReadable(payload, Given(Text(text)), h, secret, tolerance, ExpectedScheme, now, hmac);
      VerifyReadable(payload, Given(Text(text + ",v1=" + extra)), h', secret, tolerance, ExpectedScheme, now, hmac);
      VerifyWithExtraSignature(payload, h, extra, secret, tolerance, now, hmac);
  }

  /** The decision for a read header with one more expected-scheme
      signature at the end, compared with the decision without it. */
  lemma VerifyWithExtraSignature(payload: Raw, h: SignedHeader, extra: string, secret: Raw,
                                 tolerance: Option<nat>, now: int, hmac: Hmac)
    ensures var h' := SignedHeader(h.timestamp, h.signatures + [Signature(ExpectedScheme, extra)]);
      var expected := ExpectedSignature(secret, h.timestamp, Normalize(payload), hmac);
      && (Signed(h, payload, secret, ExpectedScheme, hmac) ==> Signed(h', payload, secret, ExpectedScheme, hmac))
      && (extra != expected ==> (Signed(h', payload, secret, ExpectedScheme, hmac) <==> Signed(h, payload, secret, ExpectedScheme, hmac)))
      && HasScheme(h'.signatures, ExpectedScheme)
  {
    var h' := SignedHeader(h.timestamp, h.signatures + [Signature(ExpectedScheme, extra)]);
    assert h'.signatures[|h.signatures|] == Signature(ExpectedScheme, extra);
    assert forall s :: s in h'.signatures <==> s in h.signatures || s == Signature(ExpectedScheme, extra);
  }

  /** Where the timestamp entry stands among the signatures does not
      matter: the header written with it after the first `k` signatures
      gets the same outcome as the one written timestamp first. */
  lemma EntryOrderIrrelevant(payload: Raw, h: SignedHeader, k: nat, secret: Raw, tolerance: Option<nat>,
                             scheme: string, now: int, hmac: Hmac)
    requires Formattable(h) && k <= |h.signatures|
    ensures VerifyHeader(payload, Given(Text(FormatHeaderAt(h, k))), secret, tolerance, scheme, now, hmac)
         == VerifyHeader(payload, Given(Text(FormatHeader(h))), secret, tolerance, scheme, now, hmac)
  {
    ParseFormatAt(h, k);
    ParseFormat(h);
    VerifyReadable(payload, Given(Text(FormatHeaderAt(h, k))), h, secret, tolerance, scheme, now, hmac);
    VerifyReadable(payload, Given(Text(FormatHeader(h))), h, secret, tolerance, scheme, now, hmac);
  }

  /** Appending an entry under a key that is neither the timestamp key nor
      the checked scheme changes nothing: unknown keys are ignored. */
  lemma {:induction false} UnknownEntryIgnored(payload: Raw, text: string, key: string, value: string, secret: Raw,
                                               tolerance: Option<nat>, scheme: string, now: int, hmac: Hmac)
    requires ',' !in key && '=' !in key && ',' !in value
    requires key != TimestampKey && key != scheme
    ensures VerifyHeader(payload, Given(Text(text + "," + key + "=" + value)), secret, tolerance, scheme, now, hmac)
         == VerifyHeader(payload, Given(Text(text)), secret, tolerance, scheme, now, hmac)
  {
    var s := Signature(key, value);
    assert text + "," + key + "=" + value == text + "," + FormatEntry(Entry(s.scheme, s.value));
    AppendSignature(text, s);
    match ParseHeaderText(text)
    case Failure(_) =>
    case Success(h) =>
      var h' := SignedHeader(h.timestamp, h.signatures + [s]);
      VerifyReadable(payload, Given(Text(text)), h, secret, tolerance, scheme, now, hmac);
      VerifyReadable(payload, Given(Text(text + "," + key + "=" + value)), h', secret, tolerance, scheme, now, hmac);
      VerifyWithOtherSignature(payload, h, s, secret, tolerance, scheme, now, hmac);
  }

  /** The decision for a read header with one more signature under another
      scheme at the end is the decision without it. */
  lemma VerifyWithOtherSignature(payload: Raw, h: SignedHeader, s: Signature, secret: Raw,
                                 tolerance: Option<nat>, scheme: string, now: int, hmac: Hmac)
    requires s.scheme != scheme
    ensures var h' := SignedHeader(h.timestamp, h.signatures + [s]);
      CheckSignatures(h', payload, secret, tolerance, scheme, now, hmac)
      == CheckSignatures(h, payload, secret, tolerance, scheme, now, hmac)
  {
    var h' := SignedHeader(h.timestamp, h.signatures + [s]);
    assert forall x :: x in h'.signatures <==> x in h.signatures || x == s;
    assert HasScheme(h'.signatures, scheme) == HasScheme(h.signatures, scheme);
    assert Signed(h', payload, secret, scheme, hmac) == Signed(h, payload, secret, scheme, hmac);
  }

  /** The byte form and the text form of the same payload and header content
      give the same verification outcome and the same event. */
  lemma {:induction false} BytesAndTextAgree(payload: string, header: string, secret: Raw, tolerance: Option<nat>,
                          scheme: string, now: int, hmac: Hmac, readJson: JsonReader)
    ensures VerifyHeader(Bytes(Encode(payload)), Given(Bytes(Encode(header))), secret, tolerance, scheme, now, hmac)
         == VerifyHeader(Text(payload), Given(Text(header)), secret, tolerance, scheme, now, hmac)
    ensures ConstructEvent(Bytes(Encode(payload)), Given(Bytes(Encode(header))), secret, tolerance, now, hmac, readJson)
         == ConstructEvent(Text(payload), Given(Text(header)), secret, tolerance, now, hmac, readJson)
  {
    NormalizeEncoded(payload);
    NormalizeEncoded(header);
    CanonicalInputsAgree(Bytes(Encode(payload)), Text(payload), Bytes(Encode(header)), Text(header),
                         secret, tolerance, scheme, now, hmac);
    CanonicalEventsAgree(Bytes(Encode(payload)), Text(payload), Bytes(Encode(header)), Text(header),
                         secret, tolerance, now, hmac, readJson);
  }
}
