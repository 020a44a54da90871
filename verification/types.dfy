/** The values that cross the boundary of the verification procedure: raw
    payload and header input in byte or text form, the failure kinds, the
    event handed to the caller, and the two foreign collaborators (the keyed
    hash and the JSON reader), which the model takes as parameters. */
module WebhookTypes {
  import opened Results
  import opened Utf8

  /** A payload, header or secret as the caller captured it: raw octets
      (a Buffer) or text (a string). */
  datatype Raw = Bytes(bytes: seq<uint8>) | Text(text: string)

  /** The header argument; a caller may also pass `null` or `undefined`. */
  datatype HeaderArg = Given(raw: Raw) | Null | Undefined

  /** Why a call fails: the header could not be read, it has no signature
      under the expected scheme, no such signature matches, the timestamp is
      too old, or (after a successful check) the body is not JSON. */
  datatype WebhookError = ParseError | NoSchemeSig | NoMatch | OutsideTolerance | JsonError

  /** The parsed event; only its `id` is modelled. */
  datatype Event = Event(id: string)

  /** HMAC-SHA256 of a message under a key, rendered as lowercase hex. */
  type Hmac = (seq<uint8>, seq<uint8>) -> string

  /** A JSON reader: the event a text denotes, or None when it is not JSON. */
  type JsonReader = string -> Option<Event>

  /** The one canonical form that both header parsing and hashing start
      from: text; octets are decoded as UTF-8. */
  function Normalize(r: Raw): (s: string)
    ensures r.Text? ==> s == r.text
    ensures r.Bytes? ==> |s| <= |r.bytes|
  {
    match r
    case Text(s) => s
    case Bytes(b) => Decode(b)
  }

  /** The HMAC key: text secrets are used through their UTF-8 encoding,
      octet secrets as they are. */
  function KeyBytes(secret: Raw): (key: seq<uint8>)
    ensures secret.Text? ==> |key| >= |secret.text|
  {
    match secret
    case Text(s) => Encode(s)
    case Bytes(b) => b
  }

  /** The octets of a text and the text itself normalise to the same text,
      and give the same key. */
  lemma {:induction false} NormalizeEncoded(s: string)
    ensures Normalize(Bytes(Encode(s))) == Normalize(Text(s)) == s
    ensures KeyBytes(Bytes(Encode(s))) == KeyBytes(Text(s))
  {
    DecodeEncode(s);
  }
}
