# Webhook signature verification, modelled in Dafny

This project models the webhook signature check of a payment-API client library (`webhooks.constructEvent`
and `webhooks.signature.verifyHeader`). An inbound delivery has three parts: a raw body, a signature
header `t=<unix seconds>,v1=<hex HMAC>[,v1=...]`, and a shared secret.

- The header is read into a timestamp and an ordered list of scheme-tagged signatures.
- The signatures under the expected scheme (`v1`) are compared with
  `HMAC(secret, <timestamp in decimal> + "." + <body>)`. Any one match suffices.
- Only when a tolerance is given, a timestamp older than the tolerance is rejected.
- `constructEvent` runs that check first. Only after it passes does it read the body as JSON.

Failures are values of `WebhookError`: `ParseError`, `NoSchemeSig`, `NoMatch`, `OutsideTolerance` and
`JsonError`. They stand in for the library's exceptions and keep the five causes apart.

Payload, header and secret may arrive as octets (`Bytes`) or text (`Text`). There is one canonical
normalisation, `Normalize`, which decodes octets as UTF-8. Header reading and hashing both start from
it, and the hashed message is the UTF-8 encoding of the signed text. Byte/text agreement therefore
rests on the proved round trip `Decode(Encode(s)) == s`.

The keyed hash (`Hmac`), the JSON reader (`JsonReader`) and the current time (`now`) are parameters.
Every property holds for every JSON reader. The properties about a genuine sender's header hold for every
hash function whose digests are lowercase hex, since a sender's signature must not contain the `,` that
separates header entries; the rest hold for every hash function.

Files: `results.dfy` (Option/Result), `utf8.dfy`, `decimal.dfy`, `strings.dfy` (split/join),
`types.dfy` (inputs, errors, event, collaborators), `header.dfy` (reading and writing the header),
`webhook.dfy` (the verifier and event constructor), `properties.dfy` (the test scenarios as lemmas).

The implementation file of the library is not part of this model. The behaviour modelled is the one
the test suite pins down (`test/Webhook.spec.js`). Where the tests leave a choice open, the model makes
its own, as follows:
- every comma-separated item must be a `key=value` entry;
- there must be exactly one `t` entry, and its value is an optional `-` followed by decimal digits;
- an entry's key is the text before its first `=`;
- `constructEvent` verifies before it reads the body.

## Model

| member | source | states |
|---|---|---|
| Webhook.VerifyHeader | test/Webhook.spec.js:45-135 | Succeeds, always with `true`, exactly when the header is readable, carries an expected-scheme signature equal to the HMAC of the signed payload, and is within the tolerance if one is given. It never fails with the JSON error |
| Webhook.VerifyOutcomes | test/Webhook.spec.js:45-96 | A rejected delivery gets the error of the first failed check, in the order parse, scheme, match, tolerance. Each error kind holds exactly when its check is the first to fail |
| Webhook.CheckSignatures | test/Webhook.spec.js:68-126 | On a header already read, the result is `NoSchemeSig` exactly when no signature uses the scheme. It is `NoMatch` exactly when some do but none is the expected one, and `OutsideTolerance` exactly when one matches but the timestamp is too old. Otherwise it is `true` |
| Webhook.ConstructEvent | test/Webhook.spec.js:14-43 | Succeeds exactly when verification succeeds and the body is JSON, and then returns the event the body denotes. A verification failure is passed on unchanged. The JSON error arises exactly when verification passed and the body is not JSON |
| Webhook.Candidates | test/Webhook.spec.js:68-76 | The values it keeps are exactly the values of the header's signatures under the given scheme. It is empty exactly when no signature uses that scheme |
| Webhook.SignedPayloadInjective | test/Webhook.spec.js:78-86 | The signed text `<t>.<payload>` determines both the timestamp and the payload. Distinct pairs give distinct signed messages, so a signature made for one pair matches another only through a collision of the keyed hash |
| SignatureHeader.ParseHeaderText | test/Webhook.spec.js:46-66 | Reading header text fails only with the parse error. It succeeds exactly when every item is a `key=value` entry, there is exactly one `t` entry, and that entry is an integer. On success the timestamp is the value of that `t` entry, and the signatures are exactly the header's other entries |
| SignatureHeader.ParseHeader | test/Webhook.spec.js:55-61 | `null` and `undefined` headers fail with the parse error. Any failure is the parse error |
| SignatureHeader.NoEntryIsParseError | test/Webhook.spec.js:46-66 | Any text without a `=`, including the empty text, fails with the parse error |
| SignatureHeader.NoTimestampIsParseError | test/Webhook.spec.js:46-66 | Header text whose entries include no `t` entry fails with the parse error |
| SignatureHeader.ParseFormatAt | test/Webhook.spec.js:98-106 | Reading a written header returns the same timestamp and the same signatures in the same order, wherever among the signatures the `t` entry is written, provided each scheme is free of `,` and `=` and is not `t`, and each signature is free of `,` |
| SignatureHeader.ParseFormat | test/Webhook.spec.js:98-106 | In particular a header written with `t` first, as a sender writes it, reads back as itself |
| SignatureHeader.AppendSignature | test/Webhook.spec.js:108-116 | Appending `,scheme=value` to header text keeps it readable exactly when it was. The timestamp stays the same and that one signature is added last |
| Utf8.DecodeEncode | test/Webhook.spec.js:128-134 | Decoding the UTF-8 encoding of any text gives back that text |
| Webhook.CanonicalInputsAgree | test/Webhook.spec.js:128-134 | Payloads and headers with the same canonical text get the same verification outcome |
| Webhook.CanonicalEventsAgree | test/Webhook.spec.js:128-134 | Payloads and headers with the same canonical text get the same `constructEvent` outcome |
| WebhookTypes.NormalizeEncoded | test/Webhook.spec.js:128-134 | The octets of a text and the text itself normalise to the same text and give the same key |
| WebhookProperties.GenuineDeliveryYieldsEvent | test/Webhook.spec.js:15-23 | A header carrying the correct HMAC of a JSON body, within any given tolerance, makes `constructEvent` return the body's event, whose `id` is the body's `id` |
| WebhookProperties.GenuineNonJsonIsJsonError | test/Webhook.spec.js:25-33 | A correctly signed body that is not JSON fails with the JSON error, not a signature error |
| WebhookProperties.RejectedDeliveryIgnoresBody | test/Webhook.spec.js:35-42 | When verification fails, `constructEvent` fails with that same non-JSON error, whatever JSON reader is used, so the body is never consulted |
| WebhookProperties.MalformedHeadersRejected | test/Webhook.spec.js:46-66 | The test suite's free-text header, the empty header and `bad_header` fail with the parse error, in both entry points and for any body |
| WebhookProperties.AbsentHeaderRejected | test/Webhook.spec.js:55-61 | `null` and `undefined` headers fail with the parse error, for any body, in both entry points |
| WebhookProperties.EntrylessHeaderRejected | test/Webhook.spec.js:46-66 | Any header text without a `key=value` entry fails with the parse error, in both entry points |
| WebhookProperties.OtherSchemeOnly | test/Webhook.spec.js:68-76 | A header whose only signature is under another scheme, such as `v0`, fails with `NoSchemeSig`, even if that signature is correct |
| WebhookProperties.WrongSignatureRejected | test/Webhook.spec.js:78-86 | A header whose single `v1` signature is any comma-free text other than the expected one, `bad_signature` included, fails with `NoMatch` under any tolerance |
| WebhookProperties.ToleranceDecides | test/Webhook.spec.js:88-106 | With a tolerance, a correctly signed header fails with `OutsideTolerance` when `now - t > tolerance`, and is accepted with `true` when `now - t <= tolerance` |
| WebhookProperties.NoToleranceIgnoresClock | test/Webhook.spec.js:118-126 | With no tolerance, a correctly signed header is accepted for every `now`, however old its timestamp |
| WebhookProperties.ExtraSignature | test/Webhook.spec.js:108-116 | Appending a `v1` entry keeps an accepted header accepted and an unreadable header unreadable. If the header already had a `v1` signature and the new value is not the expected one, the outcome does not change |
| WebhookProperties.EntryOrderIrrelevant | test/Webhook.spec.js:98-106 | A header written with its `t` entry after any number of its signatures gets the same outcome as the same header written `t` first |
| WebhookProperties.UnknownEntryIgnored | test/Webhook.spec.js:68-76 | Appending `,key=value` under a key that is neither `t` nor the checked scheme leaves the verification outcome unchanged, whatever the header was before |
| WebhookProperties.BytesAndTextAgree | test/Webhook.spec.js:128-134 | The byte form and the text form of the same payload and header give the same verification outcome and the same event |

## Left out

- HMAC-SHA256 and its hex rendering are foreign cryptography. They are an arbitrary function parameter; the digest itself is not specified.
- The constant-time comparison is a timing property, which Dafny cannot express. Signatures are compared with plain equality.
- JSON parsing is a foreign library. It is an arbitrary partial function from text to an event, and only the event's `id` is modelled.
- The wall clock (`Date.now`) is the parameter `now`, in whole seconds. Fractional timestamps are not modelled.
- The test harness (`testUtils`, `generateHeaderString`, the spy client, `safe-buffer`, chai) is not modelled. `FormatHeader` plays the role of a sender writing the header.
- Exact error-message text is not modelled; each message corresponds to one `WebhookError` kind.
- The library's default tolerance is not visible in the tests and is not modelled. `constructEvent` passes the caller's optional tolerance through unchanged.
- Text is a sequence of Unicode scalar values. Lone UTF-16 surrogates, which a JavaScript string can hold, are not representable.
- The signed text uses the canonical decimal form of the timestamp. A header written `t=007` is checked against `7.<payload>`.
- The order of the two checks in `constructEvent` when both the header and the body are bad is not fixed by the tests. The model verifies first.
- WebhookProperties.WrongSignatureRejected: covers only signatures without `,`. A signature that contains `,` splits into an extra header item, so a changed character that is `,` gives the parse error (for example `t=5,v1=a,b`), not `NoMatch`.
