/** The signature header: `t=<timestamp>,<scheme>=<signature>,...`, a
    comma-separated list of `key=value` entries in any order. Reading it
    yields the timestamp and every other entry as a scheme-tagged signature,
    in the order they appear; which scheme is wanted is the verifier's
    concern. */
module SignatureHeader {
  import opened Results
  import opened Strings
  import opened Decimal
  import opened WebhookTypes

  datatype Signature = Signature(scheme: string, value: string)

  /** A header once read: its timestamp and its signatures, in order. */
  datatype SignedHeader = SignedHeader(timestamp: int, signatures: seq<Signature>)

  /** One `key=value` entry of the header. */
  datatype Entry = Entry(key: string, value: string)

  /** The key of the timestamp entry. */
  const TimestampKey: string := "t"

  /** Reads one entry: the key is the text before the first '=', the value
      everything after it. */
  function ParseEntry(item: string): (e: Option<Entry>)
    ensures e.Some? <==> '=' in item
    ensures e.Some? ==> '=' !in e.value.key && item == e.value.key + "=" + e.value.value
  {
    if '=' in item then
      var i := IndexOf(item, '=');
      assert item == item[..i] + "=" + item[i + 1..];
      Some(Entry(item[..i], item[i + 1..]))
    else None
  }

  /** Reads every entry, or none if one of them has no '='. */
  function ParseEntries(items: seq<string>): (es: Option<seq<Entry>>)
    ensures es.Some? <==> forall i :: 0 <= i < |items| ==> '=' in items[i]
    ensures es.Some? ==> |es.value| == |items|
    ensures es.Some? ==> forall i :: 0 <= i < |items| ==> ParseEntry(items[i]) == Some(es.value[i])
  {
    if |items| == 0 then Some([])
    else
      match ParseEntry(items[0])
      case None => None
      case Some(e) =>
        match ParseEntries(items[1..])
        case None => None
        case Some(rest) => Some([e] + rest)
  }

  /** The values of the entries with key `key`, in order. */
  function ValuesOf(entries: seq<Entry>, key: string): (vs: seq<string>)
    ensures |vs| <= |entries|
    ensures forall v :: v in vs <==> Entry(key, v) in entries
  {
    if |entries| == 0 then []
    else if entries[0].key == key then [entries[0].value] + ValuesOf(entries[1..], key)
    else ValuesOf(entries[1..], key)
  }

  /** Every entry other than the timestamp, as a signature, in order. */
  function SignaturesOf(entries: seq<Entry>): (sigs: seq<Signature>)
    ensures |sigs| <= |entries|
    ensures forall s :: s in sigs <==> s.scheme != TimestampKey && Entry(s.scheme, s.value) in entries
  {
    if |entries| == 0 then []
    else if entries[0].key == TimestampKey then SignaturesOf(entries[1..])
    else [Signature(entries[0].key, entries[0].value)] + SignaturesOf(entries[1..])
  }

  /** Reads header text. It fails with ParseError unless every comma-separated
      item is a `key=value` entry, exactly one entry has key `t`, and its
      value is an integer. */
  function ParseHeaderText(text: string): (r: Result<SignedHeader, WebhookError>)
    ensures r.Failure? ==> r.error == ParseError
    ensures r.Success? <==>
      ParseEntries(Split(text, ',')).Some?
      && |ValuesOf(ParseEntries(Split(text, ',')).value, TimestampKey)| == 1
      && ParseInt(ValuesOf(ParseEntries(Split(text, ',')).value, TimestampKey)[0]).Some?
    ensures r.Success? ==>
      var entries := ParseEntries(Split(text, ',')).value;
      var stamp := ValuesOf(entries, TimestampKey)[0];
      && Entry(TimestampKey, stamp) in entries
      && ParseInt(stamp) == Some(r.value.timestamp)
      && (forall s :: s in r.value.signatures <==> s.scheme != TimestampKey && Entry(s.scheme, s.value) in entries)
  {
    match ParseEntries(Split(text, ','))
    case None => Failure(ParseError)
    case Some(entries) =>
      var stamps := ValuesOf(entries, TimestampKey);
      if |stamps| != 1 then Failure(ParseError)
      else
        match ParseInt(stamps[0])
        case None => Failure(ParseError)
        case Some(t) => Success(SignedHeader(t, SignaturesOf(entries)))
  }

  /** Reads the header argument; `null` and `undefined` are unreadable. */
  function ParseHeader(header: HeaderArg): (r: Result<SignedHeader, WebhookError>)
    ensures r.Failure? ==> r.error == ParseError
    ensures header.Null? || header.Undefined? ==> r.Failure?
  {
    match header
    case Given(raw) => ParseHeaderText(Normalize(raw))
    case Null => Failure(ParseError)
    case Undefined => Failure(ParseError)
  }

  /** Text with no '=' at all, the empty text included, is never a header. */
  lemma NoEntryIsParseError(text: string)
    requires '=' !in text
    ensures ParseHeaderText(text) == Failure(ParseError)
  {
    var items := Split(text, ',');
    FirstPartIsPrefix(text, ',');
    assert '=' !in items[0];
  }

  /** Text without a `t=` entry is never a header. */
  lemma NoTimestampIsParseError(text: string)
    requires ParseEntries(Split(text, ',')).Some? ==> ValuesOf(ParseEntries(Split(text, ',')).value, TimestampKey) == []
    ensures ParseHeaderText(text) == Failure(ParseError)
  {
  }

  // ---------------------------------------------------------------------
  // Writing a header, and reading back what was written.

  function FormatEntry(e: Entry): string {
    e.key + "=" + e.value
  }

  function SignatureTexts(sigs: seq<Signature>): (texts: seq<string>)
    ensures |texts| == |sigs|
  {
    if |sigs| == 0 then [] else [FormatEntry(Entry(sigs[0].scheme, sigs[0].value))] + SignatureTexts(sigs[1..])
  }

  /** The entries of a header as text: the first `k` signatures, then the
      timestamp, then the remaining signatures. */
  function HeaderItemsAt(h: SignedHeader, k: nat): (items: seq<string>)
    requires k <= |h.signatures|
    ensures |items| == 1 + |h.signatures|
  {
    SignatureTexts(h.signatures[..k]) + [FormatEntry(Entry(TimestampKey, ToDecimal(h.timestamp)))]
      + SignatureTexts(h.signatures[k..])
  }

  /** The wire form of a header with its timestamp entry after the first
      `k` signatures; entries may come in any order. */
  function FormatHeaderAt(h: SignedHeader, k: nat): string
    requires k <= |h.signatures|
  {
    Join(HeaderItemsAt(h, k), ',')
  }

  /** The wire form of a header as a sender usually writes it, timestamp
      first. */
  function FormatHeader(h: SignedHeader): string {
    FormatHeaderAt(h, 0)
  }

  /** A header that can be written unambiguously: no scheme contains ',' or
      '=' or is the timestamp key, and no signature contains ','. */
  predicate Formattable(h: SignedHeader) {
    forall s :: s in h.signatures ==>
      ',' !in s.scheme && '=' !in s.scheme && ',' !in s.value && s.scheme != TimestampKey
  }

  lemma {:induction false} ParseSignatureTexts(sigs: seq<Signature>)
    requires forall s :: s in sigs ==> '=' !in s.scheme && s.scheme != TimestampKey
    ensures ParseEntries(SignatureTexts(sigs)).Some?
    ensures var es := ParseEntries(SignatureTexts(sigs)).value;
      ValuesOf(es, TimestampKey) == [] && SignaturesOf(es) == sigs
  {
    if |sigs| > 0 {
      var s := sigs[0];
      var text := FormatEntry(Entry(s.scheme, s.value));
      var i := IndexOf(text, '=');
      IndexAfterPrefix(s.scheme, '=', s.value);
      assert text[..i] == s.scheme && text[i + 1..] == s.value;
      ParseSignatureTexts(sigs[1..]);
      assert sigs == [s] + sigs[1..];
    }
  }

  lemma FormattedItemsHaveNoComma(h: SignedHeader, k: nat)
    requires Formattable(h) && k <= |h.signatures|
    ensures forall i :: 0 <= i < |HeaderItemsAt(h, k)| ==> ',' !in HeaderItemsAt(h, k)[i]
  {
    var before, after := SignatureTexts(h.signatures[..k]), SignatureTexts(h.signatures[k..]);
    var items := HeaderItemsAt(h, k);
    SignatureTextsHaveNoComma(h.signatures[..k]);
    SignatureTextsHaveNoComma(h.signatures[k..]);
    forall i | 0 <= i < |items|
      ensures ',' !in items[i]
    {
      if i < k {
        assert items[i] == before[i];
      } else if i > k {
        assert items[i] == after[i - k - 1];
      }
    }
  }

  lemma {:induction false} SignatureTextsHaveNoComma(sigs: seq<Signature>)
    requires forall s :: s in sigs ==> ',' !in s.scheme && ',' !in s.value
    ensures forall t :: t in SignatureTexts(sigs) ==> ',' !in t
  {
    if |sigs| > 0 {
      SignatureTextsHaveNoComma(sigs[1..]);
    }
  }

  lemma ParseEntryFormatted(e: Entry)
    requires '=' !in e.key
    ensures ParseEntry(FormatEntry(e)) == Some(e)
  {
    var text := FormatEntry(e);
    IndexAfterPrefix(e.key, '=', e.value);
    assert text[..|e.key|] == e.key && text[|e.key| + 1..] == e.value;
  }

  lemma ParseHeaderItems(h: SignedHeader, k: nat)
    requires Formattable(h) && k <= |h.signatures|
    ensures ParseEntries(HeaderItemsAt(h, k)).Some?
    ensures var es := ParseEntries(HeaderItemsAt(h, k)).value;
      ValuesOf(es, TimestampKey) == [ToDecimal(h.timestamp)] && SignaturesOf(es) == h.signatures
  {
    var before, after := h.signatures[..k], h.signatures[k..];
    ParseSignaturesAround(before, ToDecimal(h.timestamp), after);
    assert before + after == h.signatures;
  }

  /** Signature entries with the timestamp entry between them read back as
      that timestamp and those signatures. */
  lemma ParseSignaturesAround(before: seq<Signature>, stamp: string, after: seq<Signature>)
    requires forall s :: s in before ==> '=' !in s.scheme && s.scheme != TimestampKey
    requires forall s :: s in after ==> '=' !in s.scheme && s.scheme != TimestampKey
    ensures var items := SignatureTexts(before) + [FormatEntry(Entry(TimestampKey, stamp))] + SignatureTexts(after);
      && ParseEntries(items).Some?
      && ValuesOf(ParseEntries(items).value, TimestampKey) == [stamp]
      && SignaturesOf(ParseEntries(items).value) == before + after
  {
    var e := Entry(TimestampKey, stamp);
    ParseEntryFormatted(e);
    ParseSignatureTexts(before);
    ParseSignatureTexts(after);
    var eb := ParseEntries(SignatureTexts(before)).value;
    var ea := ParseEntries(SignatureTexts(after)).value;
    EntriesAround(SignatureTexts(before), FormatEntry(e), SignatureTexts(after));
    ReadAround(eb, e, ea);
  }

  /** Reading items around one more item reads each part in place. */
  lemma EntriesAround(before: seq<string>, item: string, after: seq<string>)
    requires ParseEntries(before).Some? && ParseEntry(item).Some? && ParseEntries(after).Some?
    ensures ParseEntries(before + [item] + after)
         == Some(ParseEntries(before).value + [ParseEntry(item).value] + ParseEntries(after).value)
  {
    ParseOneEntry(item);
    ParseEntriesConcat(before, [item]);
    ParseEntriesConcat(before + [item], after);
  }

  /** Entries with one timestamp entry among them hold that timestamp
      and the signatures on either side. */
  lemma ReadAround(before: seq<Entry>, e: Entry, after: seq<Entry>)
    requires e.key == TimestampKey
    ensures ValuesOf(before + [e] + after, TimestampKey)
         == ValuesOf(before, TimestampKey) + [e.value] + ValuesOf(after, TimestampKey)
    ensures SignaturesOf(before + [e] + after) == SignaturesOf(before) + SignaturesOf(after)
  {
    OneEntry(e);
    ValuesOfConcat(before, [e], TimestampKey);
    ValuesOfConcat(before + [e], after, TimestampKey);
    SignaturesOfConcat(before, [e]);
    SignaturesOfConcat(before + [e], after);
    assert SignaturesOf(before) + [] == SignaturesOf(before);
  }

  /** Reading a written header gives back the very header that was written,
      wherever among the signatures its timestamp entry stands. */
  lemma ParseFormatAt(h: SignedHeader, k: nat)
    requires Formattable(h) && k <= |h.signatures|
    ensures ParseHeaderText(FormatHeaderAt(h, k)) == Success(h)
  {
    FormattedItemsHaveNoComma(h, k);
    SplitJoin(HeaderItemsAt(h, k), ',');
    ParseHeaderItems(h, k);
    ParseToDecimal(h.timestamp);
  }

  /** In particular a header written timestamp first reads back as itself. */
  lemma ParseFormat(h: SignedHeader)
    requires Formattable(h)
    ensures ParseHeaderText(FormatHeader(h)) == Success(h)
  {
    ParseFormatAt(h, 0);
  }

  // ---------------------------------------------------------------------
  // Reading concatenated entry lists.

  lemma {:induction false} ParseEntriesConcat(items: seq<string>, more: seq<string>)
    ensures ParseEntries(items + more).Some? <==> ParseEntries(items).Some? && ParseEntries(more).Some?
    ensures ParseEntries(items + more).Some? ==>
      ParseEntries(items + more).value == ParseEntries(items).value + ParseEntries(more).value
  {
    if |items| > 0 {
      assert (items + more)[0] == items[0];
      assert (items + more)[1..] == items[1..] + more;
      ParseEntriesConcat(items[1..], more);
      if ParseEntries(items + more).Some? {
        var e0 := ParseEntry(items[0]).value;
        var es := ParseEntries(items[1..]).value;
        var fs := ParseEntries(more).value;
        assert [e0] + (es + fs) == ([e0] + es) + fs;
      }
    } else {
      assert items + more == more;
    }
  }

  /** Reading a one-item list. */
  lemma ParseOneEntry(item: string)
    ensures ParseEntry(item).Some? ==> ParseEntries([item]) == Some([ParseEntry(item).value])
  {
    if ParseEntry(item).Some? {
      var e := ParseEntry(item).value;
      assert [item][0] == item;
      assert [item][1..] == [];
      assert ParseEntries([]) == Some([]);
      assert [e] + [] == [e];
    }
  }

  /** The timestamp values and signatures of a one-entry list. */
  lemma OneEntry(e: Entry)
    ensures ValuesOf([e], TimestampKey) == if e.key == TimestampKey then [e.value] else []
    ensures SignaturesOf([e]) == if e.key == TimestampKey then [] else [Signature(e.key, e.value)]
  {
    assert [e][0] == e;
    assert [e][1..] == [];
  }

  lemma {:induction false} ValuesOfConcat(entries: seq<Entry>, more: seq<Entry>, key: string)
    ensures ValuesOf(entries + more, key) == ValuesOf(entries, key) + ValuesOf(more, key)
  {
    if |entries| > 0 {
      assert (entries + more)[0] == entries[0];
      assert (entries + more)[1..] == entries[1..] + more;
      ValuesOfConcat(entries[1..], more, key);
    } else {
      assert entries + more == more;
    }
  }

  lemma {:induction false} SignaturesOfConcat(entries: seq<Entry>, more: seq<Entry>)
    ensures SignaturesOf(entries + more) == SignaturesOf(entries) + SignaturesOf(more)
  {
    if |entries| > 0 {
      assert (entries + more)[0] == entries[0];
      assert (entries + more)[1..] == entries[1..] + more;
      SignaturesOfConcat(entries[1..], more);
    } else {
      assert entries + more == more;
    }
  }

  // ---------------------------------------------------------------------
  // Appending one more entry to header text.

  /** Appending `,scheme=value` to header text keeps it readable exactly when
      it was, with the same timestamp, and adds that one signature last. */
  lemma {:induction false} AppendSignature(text: string, s: Signature)
    requires ',' !in s.scheme && '=' !in s.scheme && ',' !in s.value && s.scheme != TimestampKey
    ensures ParseHeaderText(text + "," + FormatEntry(Entry(s.scheme, s.value))) ==
      match ParseHeaderText(text)
      case Failure(err) => Failure(err)
      case Success(h) => Success(SignedHeader(h.timestamp, h.signatures + [s]))
  {
    var e := Entry(s.scheme, s.value);
    var item := FormatEntry(e);
    AppendEntry(text, e);
    match ParseEntries(Split(text, ','))
    case None =>
    case Some(es) =>
      ValuesOfConcat(es, [e], TimestampKey);
      SignaturesOfConcat(es, [e]);
      OneEntry(e);
  }

  lemma {:induction false} AppendEntry(text: string, e: Entry)
    requires ',' !in e.key && '=' !in e.key && ',' !in e.value
    ensures ParseEntries(Split(text + "," + FormatEntry(e), ',')) ==
      match ParseEntries(Split(text, ','))
      case None => None
      case Some(es) => Some(es + [e])
  {
    var item := FormatEntry(e);
    assert ',' !in item;
    assert text + "," + item == text + [','] + item;
    SplitAppend(text, ',', item);
    ParseEntryFormatted(e);
    ParseOneEntry(item);
    ParseEntriesConcat(Split(text, ','), [item]);
  }
}
