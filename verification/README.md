# KYC extraction: response recovery, risk flags and the chat judge

A Dafny model of the deterministic part of the NexusBank KYC-X pipeline and
of the SmartCollect transcript judge:

- **Response recovery** (`parse_json_garbage`). It takes a chatty reply from
  the language model and picks the candidate text. The first ```` ```json ````
  fence wins. Otherwise it takes the greedy span from the first `{` to the
  last `}`. Otherwise it takes the whole reply. The candidate is stripped and
  handed to the JSON decoder (module `Recovery`, helpers in `Text`).
- **Validation** (the parsing and validation layers of `extract_and_validate`).
  A failed recovery yields `(None, 0)`. Otherwise the ordered `risk_flags`
  list is computed from `expiry_date_iso` and `id_number`:
  - `DOCUMENT_EXPIRED (Expired on <date>)` when the date parses with
    `%Y-%m-%d` and its midnight lies before now;
  - `INVALID_DATE_FORMAT` when it does not parse;
  - `POTENTIAL_OCR_ERROR_IN_ID` when the identifier holds an upper-case `X`.

  The clock reading is a parameter. It lives in module `Risk`, with the
  date parser in `Dates`.
- **Transcript judge** (`validate_results`). Compliance fails when some
  lower-cased reply contains "police", "jail" or "sue". The empathy score
  counts the replies that contain "sorry", "understand" or "hardship". Both
  are returned rather than printed (module `CollectionJudge`).

JSON decoding is the parameter `loads: string -> Option<Record>`. A
`Record` maps keys to strings or null (`None`). `datetime.now()` is the
parameter `now: Instant`: a date plus the microseconds since its midnight.

The model follows the code:
- the keys are `expiry_date_iso` and `id_number`;
- `dob_iso` is never read or normalised;
- missing keys are not filled in;
- a `risk_flags` key already present in the decoded object is replaced;
- `strptime` accepts one-digit months and days, and a space before a
  one-digit day (`2024-8-5`, `2024-08- 5`), as Python's `%m`/`%d` patterns do.

## Model

| member | source | states |
|---|---|---|
| Text.Strip | run_kyc_extraction.py:24 | `text.strip()` is the slice of the text left after cutting whitespace (Python's `isspace` set) from both ends; it starts and ends with non-whitespace |
| Text.StripCharacterized | run_kyc_extraction.py:24 | any slice that only cuts whitespace on both sides and has none left at its ends is the result of `strip()`: the description is complete |
| Text.StripIdempotent | run_kyc_extraction.py:24 | stripping an already stripped candidate changes nothing |
| Text.StripRemovesPadding | run_kyc_extraction.py:24 | whitespace around a trimmed string is exactly what `strip()` removes |
| Text.Lower | run_smart_collect.py:91 | `reply.lower()` keeps the length, leaves no ASCII capital, turns each capital into its small letter and leaves every other character unchanged |
| Text.LowerIdempotent | run_smart_collect.py:91 | lower-casing an already lower-cased reply changes nothing |
| Text.IndexOf | run_kyc_extraction.py:13 | the search returns the first index at or after the start where the pattern occurs, and `None` exactly when it occurs nowhere there |
| Text.Contains | run_smart_collect.py:94 | `pat in s` holds iff `pat` occurs at some index of `s` |
| Text.FirstIndexOf | run_kyc_extraction.py:19 | the first `{`, with no `{` before it; `None` iff there is none |
| Text.LastIndexOf | run_kyc_extraction.py:19 | the last `}`, with no `}` after it; `None` iff there is none |
| Recovery.FencedBody | run_kyc_extraction.py:13-15 | the fence search matches iff some ```` ```json ```` is followed by a ```` ``` ````; the group is the text between the leftmost opening delimiter and the first closing delimiter after it |
| Recovery.BracedSpan | run_kyc_extraction.py:19-21 | the brace search matches iff some `{` precedes some `}`; the match runs from the first `{` to the last `}` inclusive |
| Recovery.CandidateText | run_kyc_extraction.py:12-24 | the text `parse_json_garbage` hands to `json.loads` (line 25) is always a contiguous piece of the reply with no whitespace at either end |
| Recovery.FenceRule | run_kyc_extraction.py:13-24 | when a fence matches, the candidate is the lazily matched body, stripped |
| Recovery.BraceRule | run_kyc_extraction.py:17-24 | with no fence but a `{` before a `}`, the candidate is exactly the first-`{`-to-last-`}` span |
| Recovery.WholeReplyRule | run_kyc_extraction.py:12-24 | with neither match the candidate is the whole reply stripped; extraction itself never fails |
| Recovery.FenceIgnoresSurroundings | run_kyc_extraction.py:13-15 | for any prose before the fence (free of the opening delimiter) and any text after it, the candidate is the stripped body |
| Recovery.FencedObjectIsCandidate | run_kyc_extraction.py:13-24 | a reply with one fenced object on its own lines, with any backtick-free prose around it, hands exactly that object to the decoder |
| Recovery.BraceSpanIsGreedy | run_kyc_extraction.py:19-21 | without a fence, whatever lies between the first `{` and the last `}` (further braces included) is the candidate |
| Recovery.TwoObjectsGiveOneSpan | run_kyc_extraction.py:19-21 | two separate objects in one reply yield one span covering both and the prose between them |
| Dates.ParseIsoDate | run_kyc_extraction.py:73 | `strptime(s, "%Y-%m-%d")` succeeds only on a real calendar date (leap years included, year 1 to 9999) and only on 8 to 10 characters |
| Dates.ParseIsoDateSpellings | run_kyc_extraction.py:73 | `strptime` reads `s` as `d` iff `d` is a valid date and `s` is exactly its four-digit year, a dash, a month (`M`, `0M` or `MM`), a dash and a day (`D`, `0D`, ` D` or `DD`), with nothing after it |
| Dates.ParseAcceptsSpelling | run_kyc_extraction.py:73 | every spelling of a valid date, short or padded, is read as that date |
| Dates.ParseYieldsSpelling | run_kyc_extraction.py:73 | whatever is read is a spelling of the date read, so no text may trail the day whatever the length of the month and day |
| Dates.ShortSpellingExamples | run_kyc_extraction.py:73 | "2024-8-5" and "2024-08- 5" both read as 5 August 2024; "2024-8-5X" is rejected |
| Dates.ParseFormatRoundTrip | run_kyc_extraction.py:73 | every valid date written `YYYY-MM-DD` parses back to itself |
| Dates.FormatParseRoundTrip | run_kyc_extraction.py:73 | a 10-character date that parses (without a space-padded day) is exactly the canonical spelling of the parsed date |
| Dates.Midnight | run_kyc_extraction.py:73 | the `datetime` that `strptime` yields lies on the parsed date, and no instant of that date comes before it |
| Dates.InstantOrder | run_kyc_extraction.py:76 | `<` on `datetime` values is irreflexive, asymmetric, transitive and total |
| Risk.ExpiredAt | run_kyc_extraction.py:73-76 | `exp_date < today` holds iff the expiry date is before today's date, or is today's date and the clock is past midnight |
| Risk.Validate | run_kyc_extraction.py:66-87 | the output record is the input without its old `risk_flags`. It has at most two distinct flags. `DOCUMENT_EXPIRED` (carrying the raw date) appears iff the expiry is non-empty, parses, and its midnight is before now. `INVALID_DATE_FORMAT` appears iff the expiry is non-empty and does not parse. `POTENTIAL_OCR_ERROR_IN_ID` appears iff the id is non-empty and contains `X`, and it comes last |
| Risk.ExtractAndValidate | run_kyc_extraction.py:59-89 | `parse_json_garbage` is the decoder applied to `Recovery.CandidateText` of the reply. The result is the parse failure `(None, 0)` exactly when the decoder rejects that candidate, and no flags are computed then. Otherwise the record's fields are the decoded ones minus `risk_flags`, and the record and flags are those `Validate` gives the decoded object, so every property of `Validate` holds end to end |
| Risk.ValidateIdempotent | run_kyc_extraction.py:66-87 | validating a validated record again with the same clock gives the same record and flags |
| Risk.AbsentFieldsRaiseNoFlags | run_kyc_extraction.py:71-84 | null, empty or missing expiry and id fields raise no flag |
| Risk.ExpiryDatedToday | run_kyc_extraction.py:71-77 | an expiry dated today is flagged as soon as the clock is past midnight, and not at midnight itself |
| Risk.ExpiryDatedTomorrow | run_kyc_extraction.py:71-77 | an expiry dated tomorrow is never flagged, whatever the time of day |
| Risk.ExpiryBoundaryExample | run_kyc_extraction.py:71-77 | an expiry of 2024-08-14 is flagged on 2025-12-02 and not on 2024-08-13 |
| Risk.MalformedExpiryExamples | run_kyc_extraction.py:71-79 | "not-a-date" and the non-leap "2023-02-29" give `INVALID_DATE_FORMAT` only, and the raw value stays in the record |
| Risk.IdHeuristicExamples | run_kyc_extraction.py:81-84 | "881209X" is flagged; "881209" and the lower-case "881209x" are not |
| Risk.FlagTextInjective | run_kyc_extraction.py:77-84 | distinct flags are written as distinct strings |
| Risk.PassportFlags | run_kyc_extraction.py:66-87 | the demonstration passport (id 881209X, expiry 2024-08-14) checked on 2025-12-02 carries the expiry flag, then the id flag |
| Risk.ChattyPassportScenario | run_kyc_extraction.py:59-89 | the demonstration passport in a fenced block inside chatty prose, decoded as written, yields exactly those two flags in that order |
| CollectionJudge.ValidateResults | run_smart_collect.py:83-103 | `compliance_pass` is false iff some turn's lower-cased reply contains a banned word. `empathy_score` is the number of turns whose lower-cased reply contains an empathy word, so it is at most the number of turns. An empty history gives `(true, 0)` |
| CollectionJudge.EmpathyCountIsTurnCount | run_smart_collect.py:99-100 | counting turn by turn gives the size of the set of empathetic turns: each turn counts at most once |
| CollectionJudge.EmpathyWordsListed | run_smart_collect.py:99 | the three `in` tests of the source are the test against the empathy word list |
| CollectionJudge.SubstringNotWholeWord | run_smart_collect.py:92-94 | matching is by substring: replies containing "issue" or "pursue" fail compliance |
| CollectionJudge.MatchingIgnoresCase | run_smart_collect.py:91-99 | "POLICE" fails compliance and "SORRY" counts as empathy, since replies are lower-cased first |

## Left out

- The model call (`BankingLLM.generate_response`), the prompt text and the latency measured with `time.time()`: network I/O and floating-point wall-clock time. The reply is a parameter.
- `json.loads` itself: it is the parameter `loads`. A `Record` holds only strings and null, and only objects are decoded. The source behaves as follows on other JSON:
  - A top-level value that is not an object raises `AttributeError` at the first `.get` (line 71).
  - A number, boolean, list or object in a field other than `expiry_date_iso` and `id_number` is kept as it is.
  - A falsy expiry or id (`0`, `false`, `[]`, `{}`) is skipped at lines 71 and 82, as an empty string is.
  - A truthy non-string expiry makes `strptime` raise `TypeError` inside the validation `try`. It escapes `extract_and_validate` because line 78 catches only `ValueError`.
  - A truthy number or boolean id makes the `in` test at line 83 raise `TypeError`.
  - A list or object id is tested for membership of `"X"` without error. It is flagged when it holds the element or key `"X"`.
- `datetime.now()`: the clock reading is the parameter `now`; local time zones are not modelled.
- Text.Lower: folds ASCII letters only. Full Unicode `str.lower()` is not modelled. No non-ASCII character lower-cases into one of the six watched words, so the verdicts are unaffected.
- Dates.ParseIsoDate: reads ASCII digits only. Python's `\d` also accepts other Unicode decimal digits.
- Printing in `extract_and_validate` and `validate_results`, the `__main__` blocks, the console menu, the SQLite store, the vector store and `run_kyc_extraction_v1.py`: I/O or library calls with no logic of their own.
