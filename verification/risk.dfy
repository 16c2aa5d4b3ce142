/**
 The parsing and validation layers of `extract_and_validate`: recover the
 record from the model's reply, then compute the ordered `risk_flags` list
 from its `expiry_date_iso` and `id_number` fields against a clock reading
 passed in by the caller.
 */
module Risk {
  import opened Wrappers
  import opened Text
  import opened Dates
  import opened Recovery

  /** A decoded JSON object whose values are strings or null (`None`). */
  type Record = map<string, Option<string>>

  const ExpiryKey: string := "expiry_date_iso"
  const IdKey: string := "id_number"
  const FlagsKey: string := "risk_flags"

  /** `record.get(key)`: a missing key reads as null. */
  function Get(rec: Record, key: string): Option<string> {
    if key in rec then rec[key] else None
  }

  /** Python truthiness of a string-or-null value. */
  predicate Truthy(v: Option<string>) {
    v.Some? && |v.value| > 0
  }

  datatype RiskFlag =
    | DocumentExpired(expiry: string)
    | InvalidDateFormat
    | PotentialOcrErrorInId

  /** The string each flag is written as in `risk_flags`. */
  function FlagText(f: RiskFlag): string {
    match f
    case DocumentExpired(e) => "DOCUMENT_EXPIRED (Expired on " + e + ")"
    case InvalidDateFormat => "INVALID_DATE_FORMAT"
    case PotentialOcrErrorInId => "POTENTIAL_OCR_ERROR_IN_ID"
  }

  /** The validated record: the decoded fields, `risk_flags` removed, and
      the computed flags, which take the `risk_flags` key when written out. */
  datatype Annotated = Annotated(fields: Record, riskFlags: seq<RiskFlag>)

  /** `exp_date < today`: the expiry date's midnight lies before `now`,
      that is, the date is past or it is today and midnight is over. */
  predicate ExpiredAt(d: Date, now: Instant): (r: bool)
    ensures r <==> DateBefore(d, now.date) || (d == now.date && now.micros > 0)
  {
    InstantBefore(Midnight(d), now)
  }

  /** The flag the expiry check contributes, if any. */
  function ExpiryFlags(rec: Record, now: Instant): seq<RiskFlag> {
    var v := Get(rec, ExpiryKey);
    if !Truthy(v) then []
    else
      match ParseIsoDate(v.value)
      case None => [InvalidDateFormat]
      case Some(d) => if ExpiredAt(d, now) then [DocumentExpired(v.value)] else []
  }

  /** The flag the `X` heuristic on `id_number` contributes, if any. */
  function IdFlags(rec: Record): seq<RiskFlag> {
    var v := Get(rec, IdKey);
    if Truthy(v) && 'X' in v.value then [PotentialOcrErrorInId] else []
  }

  /** The expiry date is present, parses, and its midnight is before `now`. */
  predicate ExpiryLapsed(rec: Record, now: Instant) {
    var v := Get(rec, ExpiryKey);
    Truthy(v) && ParseIsoDate(v.value).Some? && ExpiredAt(ParseIsoDate(v.value).value, now)
  }

  /** The expiry date is present but `strptime` rejects it. */
  predicate ExpiryMalformed(rec: Record) {
    var v := Get(rec, ExpiryKey);
    Truthy(v) && ParseIsoDate(v.value).None?
  }

  /** The identifier is present and holds an upper-case `X`. */
  predicate IdSuspect(rec: Record) {
    var v := Get(rec, IdKey);
    Truthy(v) && 'X' in v.value
  }

  /** No flag appears twice. */
  predicate Distinct(flags: seq<RiskFlag>) {
    forall i, j :: 0 <= i < j < |flags| ==> flags[i] != flags[j]
  }

  /** The validation layer of `extract_and_validate`: flags in rule order,
      written into the record in place of any `risk_flags` it had. */
  function Validate(rec: Record, now: Instant): (a: Annotated)
    ensures a.fields == rec - {FlagsKey}
    ensures |a.riskFlags| <= 2 && Distinct(a.riskFlags)
    ensures (exists i :: 0 <= i < |a.riskFlags| && a.riskFlags[i].DocumentExpired?) <==> ExpiryLapsed(rec, now)
    ensures forall i :: 0 <= i < |a.riskFlags| && a.riskFlags[i].DocumentExpired? ==>
      a.riskFlags[i].expiry == Get(rec, ExpiryKey).value
    ensures InvalidDateFormat in a.riskFlags <==> ExpiryMalformed(rec)
    ensures PotentialOcrErrorInId in a.riskFlags <==> IdSuspect(rec)
    ensures PotentialOcrErrorInId in a.riskFlags ==> a.riskFlags[|a.riskFlags| - 1] == PotentialOcrErrorInId
    ensures |a.riskFlags| == 2 ==> !a.riskFlags[0].PotentialOcrErrorInId? && a.riskFlags[1] == PotentialOcrErrorInId
  {
    var flags := ExpiryFlags(rec, now) + IdFlags(rec);
    assert ExpiryLapsed(rec, now) ==> flags[0].DocumentExpired?;
    Annotated(rec - {FlagsKey}, flags)
  }

  /** Outcome of `extract_and_validate`: `(None, 0)` when recovery or the
      decoder fails, the annotated record otherwise. */
  datatype Extraction = ParseFailed | Extracted(record: Annotated)

  /** `extract_and_validate` after the model call, with the reply, the JSON
      decoder and the clock reading as parameters. */
  function ExtractAndValidate(reply: string, loads: string -> Option<Record>, now: Instant): (r: Extraction)
    ensures r.ParseFailed? <==> loads(CandidateText(reply)).None?
    ensures r.Extracted? ==> r.record.fields == loads(CandidateText(reply)).value - {FlagsKey}
    ensures r.Extracted? ==> r.record == Validate(loads(CandidateText(reply)).value, now)
  {
    // parse_json_garbage: the decoder applied to the candidate text
    match loads(CandidateText(reply))
    case None => ParseFailed
    case Some(rec) => Extracted(Validate(rec, now))
  }

  /** Validating an already validated record changes nothing: the flags
      depend only on fields validation leaves alone. */
  lemma ValidateIdempotent(rec: Record, now: Instant)
    ensures Validate(Validate(rec, now).fields, now) == Validate(rec, now)
  {
    var fields := Validate(rec, now).fields;
    assert Get(fields, ExpiryKey) == Get(rec, ExpiryKey);
    assert Get(fields, IdKey) == Get(rec, IdKey);
    assert fields - {FlagsKey} == fields;
  }

  /** Null, empty or missing fields raise no flag at all. */
  lemma AbsentFieldsRaiseNoFlags(rec: Record, now: Instant)
    requires !Truthy(Get(rec, ExpiryKey)) && !Truthy(Get(rec, IdKey))
    ensures Validate(rec, now).riskFlags == []
  {
  }

  /** An expiry dated today is flagged as soon as `now` is past midnight,
      and not at midnight itself. */
  lemma ExpiryDatedToday(rec: Record, now: Instant)
    requires ValidDate(now.date)
    requires Get(rec, ExpiryKey) == Some(FormatIso(now.date))
    ensures now.micros > 0 ==> Validate(rec, now).riskFlags[0] == DocumentExpired(FormatIso(now.date))
    ensures now.micros == 0 ==> Validate(rec, now).riskFlags == IdFlags(rec)
  {
    ParseFormatRoundTrip(now.date);
  }

  /** An expiry dated tomorrow is never flagged, whatever the time of day. */
  lemma ExpiryDatedTomorrow(rec: Record, now: Instant)
    requires ValidDate(now.date) && now.date != Date(9999, 12, 31)
    requires Get(rec, ExpiryKey) == Some(FormatIso(NextDay(now.date)))
    ensures Validate(rec, now).riskFlags == IdFlags(rec)
  {
    ParseFormatRoundTrip(NextDay(now.date));
  }

  /** The expiry boundary: an August 2024 expiry is flagged in December 2025
      and not the day before it lapses. */
  lemma ExpiryBoundaryExample()
    ensures Validate(map[ExpiryKey := Some("2024-08-14")], Instant(Date(2025, 12, 2), 0)).riskFlags
      == [DocumentExpired("2024-08-14")]
    ensures Validate(map[ExpiryKey := Some("2024-08-14")], Instant(Date(2024, 8, 13), 0)).riskFlags == []
  {
    assert FormatIso(Date(2024, 8, 14)) == "2024-08-14";
    ParseFormatRoundTrip(Date(2024, 8, 14));
  }

  /** Unparsable expiry dates, including a 29 February outside a leap year,
      give `INVALID_DATE_FORMAT`, and the raw value stays in the record. */
  lemma MalformedExpiryExamples(now: Instant)
    ensures Validate(map[ExpiryKey := Some("not-a-date")], now).riskFlags == [InvalidDateFormat]
    ensures Validate(map[ExpiryKey := Some("not-a-date")], now).fields[ExpiryKey] == Some("not-a-date")
    ensures Validate(map[ExpiryKey := Some("2023-02-29")], now).riskFlags == [InvalidDateFormat]
  {
    assert ParseIsoDate("not-a-date") == None;
    assert !ValidDate(Date(2023, 2, 29));
    assert ParseIsoDate("2023-02-29") == None;
  }

  /** The `X` heuristic: upper-case only. */
  lemma IdHeuristicExamples(now: Instant)
    ensures Validate(map[IdKey := Some("881209X")], now).riskFlags == [PotentialOcrErrorInId]
    ensures Validate(map[IdKey := Some("881209")], now).riskFlags == []
    ensures Validate(map[IdKey := Some("881209x")], now).riskFlags == []
  {
    assert "881209X"[6] == 'X';
    assert 'X' !in "881209" && 'X' !in "881209x";
    assert IdFlags(map[IdKey := Some("881209X")]) == [PotentialOcrErrorInId];
    assert IdFlags(map[IdKey := Some("881209")]) == [];
    assert IdFlags(map[IdKey := Some("881209x")]) == [];
  }

  /** Distinct flags are written as distinct strings. */
  lemma FlagTextInjective(f: RiskFlag, g: RiskFlag)
    requires FlagText(f) == FlagText(g)
    ensures f == g
  {
    var prefix := "DOCUMENT_EXPIRED (Expired on ";
    if f.DocumentExpired? && g.DocumentExpired? {
      var s := FlagText(f);
      assert s[|prefix|..|s| - 1] == f.expiry;
      assert FlagText(g)[|prefix|..|s| - 1] == g.expiry;
    }
  }

  /** The passport of the demonstration run, as the language model is asked to
      return it. */
  const SarahJson: string :=
    "{\"full_name\": \"Sarah J. Connor\", " + "\"dob_iso\": \"1984-05-12\", "
    + "\"id_number\": \"881209X\", " + "\"expiry_date_iso\": \"2024-08-14\", "
    + "\"document_type\": \"Passport\"}"

  const SarahRecord: Record := map[
    "full_name" := Some("Sarah J. Connor"),
    "dob_iso" := Some("1984-05-12"),
    IdKey := Some("881209X"),
    ExpiryKey := Some("2024-08-14"),
    "document_type" := Some("Passport")]

  /** The demonstration object is a trimmed string with no backtick. */
  lemma SarahJsonShape()
    ensures '`' !in SarahJson
    ensures SarahJson[0] == '{' && SarahJson[|SarahJson| - 1] == '}'
  {
    assert '`' !in "{\"full_name\": \"Sarah J. Connor\", " && '`' !in "\"dob_iso\": \"1984-05-12\", ";
    assert '`' !in "\"id_number\": \"881209X\", " && '`' !in "\"expiry_date_iso\": \"2024-08-14\", ";
    assert '`' !in "\"document_type\": \"Passport\"}";
  }

  /** Both rules fire on the demonstration passport on 2 December 2025. */
  lemma PassportFlags()
    ensures Validate(SarahRecord, Instant(Date(2025, 12, 2), 0))
         == Annotated(SarahRecord, [DocumentExpired("2024-08-14"), PotentialOcrErrorInId])
  {
    ParseFormatRoundTrip(Date(2024, 8, 14));
    assert FormatIso(Date(2024, 8, 14)) == "2024-08-14";
    assert "881209X"[6] == 'X';
    assert SarahRecord - {FlagsKey} == SarahRecord;
  }

  /** End to end: whatever prose (without backticks) surrounds the fenced
      demonstration object, a decoder that reads the object as written,
      evaluated on 2 December 2025, yields both flags, expiry first. */
  lemma ChattyPassportScenario(prose: string, closing: string, loads: string -> Option<Record>)
    requires '`' !in prose
    requires loads(SarahJson) == Some(SarahRecord)
    ensures ExtractAndValidate(prose + FenceOpen + ("\n" + SarahJson + "\n") + FenceClose + closing,
                               loads, Instant(Date(2025, 12, 2), 0))
         == Extracted(Annotated(SarahRecord, [DocumentExpired("2024-08-14"), PotentialOcrErrorInId]))
  {
    SarahJsonShape();
    FencedObjectIsCandidate(prose, SarahJson, closing);
    PassportFlags();
  }
}
