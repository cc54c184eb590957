# WhatsApp transcript preprocessor, modelled in Dafny

This project models the line parser of the WhatsApp chat analyser
(`WhatsappPreprocessor` in `MADS-DAV/src/wa_analyzer/preprocess.py`). It
covers three pieces:

- **Author canonicalisation** (`normalize_author`) is a fixed pipeline of
  rewrites. It applies Unicode NFKC, removes zero-width characters, turns
  no-break spaces into spaces, drops one leading tilde with the whitespace
  after it, collapses whitespace runs and strips both ends. This is module
  `Author`, built on the Python string primitives in `PyStr`.
- **The `process()` loop** reads one exported chat line by line:
  - A line whose start matches the dialect's timestamp pattern is a message
    header. It adds a `(timestamp, author, message)` record unless:
    - its timestamp does not parse;
    - its message or author pattern does not match;
    - its normalised author contains one of the configured drop substrings.
  - Once a record exists, any other line continues the last record's
    message. Before the first record such a line is discarded.

  The loop is the method `Transcript.Process`, with its body in
  `Transcript.ProcessLine`. `Process` is proved equal to the function
  `Transcript.Run`, which replays one `Apply` step per line event, and
  `ProcessLine` is proved equal to one `Apply` step.
  `TranscriptProps` proves what a whole run produces.
- **Dialect selection** in `main` picks the Android, iOS, old-format or CSV
  patterns from `device.lower()`. This is module `Dialect`. The code never
  calls `upper()`. `Dialect.Upper` exists only to name the all-capitals
  spelling a user may type, such as `IOS`, so that `SelectIgnoresCase` and
  `SelectName` can state that it selects the same dialect.

`Corrected` holds the continuation handling the loop evidently intends, and
the finding that motivates it.

Functions outside the core enter the model as parameters: Unicode NFKC
(`nfkc`), `datetime.strptime` (`Library.strptime`) and each dialect's three
regexes (`Regexes`, each giving the first capture group or `None`). The
loop calls the normaliser through `Library.normalize`.
`Transcript.Preprocessor` builds the library the source uses, with
`Author.Normalize` as that normaliser.

Two properties one might expect of this code do not hold as written:

- **Idempotence.** Normalising an author name twice can change it again,
  because exactly one leading tilde is removed per call.
  - `Author.DoubleTildeNotIdempotent`: `"~~Jane"` becomes `"~Jane"`, which
    then becomes `"Jane"`.
  - `Author.SpaceBeforeTildeNotIdempotent`: `" ~a"` becomes `"~a"`, which
    then becomes `"a"`.
  - `Author.NormalizeIdempotentIff` gives the exact condition for results
    that NFKC leaves unchanged (`nfkc(r) == r` for the first result `r`):
    a second call changes nothing exactly when `r` does not start with a
    tilde.
- **Timestamp order.** The loop never compares timestamps, so nothing keeps
  the output's timestamps from decreasing. The model only proves that
  records keep the order of their header lines
  (`TranscriptProps.RunMatchesCreated`). Continuation lines also rewrite
  the last record's timestamp and author (see Findings).

`Corrected` lets a rejected header change nothing: continuation lines
after it extend the last accepted record, which keeps its own timestamp
and author.

## Model

| member | source | states |
|---|---|---|
| PyStr.Strip | MADS-DAV/src/wa_analyzer/preprocess.py:64 | `str.strip()` returns a slice of its input, with only whitespace cut from before and after that slice, and leaves neither end as whitespace |
| PyStr.StripFixesTrimmed | MADS-DAV/src/wa_analyzer/preprocess.py:64 | `strip()` leaves text that has no whitespace at its ends unchanged |
| PyStr.ContainsIff | MADS-DAV/src/wa_analyzer/preprocess.py:124 | Python's `needle in haystack` holds exactly when the needle occurs at some position of the haystack |
| Author.RemoveZeroWidth | MADS-DAV/src/wa_analyzer/preprocess.py:57 | no U+200B, U+200C, U+200D or U+FEFF is left, text without them is unchanged, and a lone zero-width character becomes the empty string (with `RemoveZeroWidthConcat`, each one is deleted where it stood) |
| Author.RemoveZeroWidthKeepsVisible | MADS-DAV/src/wa_analyzer/preprocess.py:57 | removing zero-width characters leaves the visible characters as they were |
| Author.Replace | MADS-DAV/src/wa_analyzer/preprocess.py:59-60 | exactly the occurrences of the one character are replaced, position by position |
| Author.VisibleReplaceSpace | MADS-DAV/src/wa_analyzer/preprocess.py:59-60 | turning a no-break space into a space leaves the visible characters as they were |
| Author.StripTilde | MADS-DAV/src/wa_analyzer/preprocess.py:62 | a leading `~` or U+223C is removed together with the whitespace right after it; text not starting with a tilde is unchanged |
| Author.Collapse | MADS-DAV/src/wa_analyzer/preprocess.py:64 | after collapsing, every whitespace character is a plain space and no two of them are adjacent; empty text stays empty and whitespace at the start stays there |
| Author.CollapseKeepsVisible | MADS-DAV/src/wa_analyzer/preprocess.py:64 | collapsing whitespace leaves the visible characters as they were |
| Author.CollapseFixes | MADS-DAV/src/wa_analyzer/preprocess.py:64 | text whose whitespace is already single plain spaces is left unchanged |
| Author.CollapseRun | MADS-DAV/src/wa_analyzer/preprocess.py:64 | a whole run of whitespace between two non-whitespace characters becomes exactly one space, and the text on either side is collapsed on its own |
| Author.LStripAppend | MADS-DAV/src/wa_analyzer/preprocess.py:64 | stripping the start of text that is not all whitespace ignores whatever follows it |
| Author.LStripRun | MADS-DAV/src/wa_analyzer/preprocess.py:64 | stripping the start removes exactly a leading run of whitespace |
| Author.StripKeepsShape | MADS-DAV/src/wa_analyzer/preprocess.py:64 | the final strip keeps the single-plain-space shape and the freedom from zero-width characters |
| Author.StripKeepsVisible | MADS-DAV/src/wa_analyzer/preprocess.py:64 | the final strip removes only whitespace, so the visible text is kept |
| Author.WellFormedExcludes | MADS-DAV/src/wa_analyzer/preprocess.py:57-64 | a normalised name contains none of U+200B, U+200C, U+200D, U+FEFF, U+00A0 or U+202F |
| Author.Normalize | MADS-DAV/src/wa_analyzer/preprocess.py:37-65 | the result is trimmed, uses single plain spaces only, and contains none of U+200B, U+200C, U+200D, U+FEFF, U+00A0 or U+202F |
| Author.NormalizeKeepsText | MADS-DAV/src/wa_analyzer/preprocess.py:50-64 | the visible text is kept, case included; only the one leading tilde disappears |
| Author.NormalizeFixesCanonical | MADS-DAV/src/wa_analyzer/preprocess.py:55-64 | a name that NFKC turns into a well-formed name not starting with a tilde comes out exactly as NFKC produced it |
| Author.NormalizeStripsOneTilde | MADS-DAV/src/wa_analyzer/preprocess.py:62 | a tilde in front of an otherwise well-formed name is the only thing removed, even when that name starts with a tilde too |
| Author.NormalizeIdempotentIff | MADS-DAV/src/wa_analyzer/preprocess.py:37-65 | when NFKC leaves the first result unchanged, normalising a second time changes nothing exactly when that result does not start with a tilde |
| Author.NormalizeTildeWord | MADS-DAV/src/wa_analyzer/preprocess.py:62 | for any plain ASCII word `w` (no whitespace, no zero-width character), `"~" + w` becomes exactly `w` |
| Author.WordWellFormed | MADS-DAV/src/wa_analyzer/preprocess.py:45-64 | a plain word already has the shape the normaliser produces (`NormalizeTildeWord` uses this to show that only the tilde in front of it is removed) |
| Author.NormalizeTildeSpaceWord | MADS-DAV/src/wa_analyzer/preprocess.py:62 | for any plain ASCII word `w`, `"~ " + w` becomes exactly `w`: the tilde goes together with the space after it |
| Author.TildeSpaceJane | MADS-DAV/src/wa_analyzer/preprocess.py:62 | an example: `"~ Jane"` becomes `"Jane"` |
| Author.DoubleTildeNotIdempotent | MADS-DAV/src/wa_analyzer/preprocess.py:62 | `"~~Jane"` becomes `"~Jane"`, which becomes `"Jane"` |
| Author.NormalizeOnlyTrims | MADS-DAV/src/wa_analyzer/preprocess.py:55-64 | a name with no zero-width characters, no irregular spaces and no leading tilde is only stripped |
| Author.SpaceBeforeTildeNotIdempotent | MADS-DAV/src/wa_analyzer/preprocess.py:62-64 | a leading space shields the tilde: `" ~a"` becomes `"~a"`, which becomes `"a"` |
| Author.NormalizeSingleSpace | MADS-DAV/src/wa_analyzer/preprocess.py:55-64 | two well-formed pieces of a name separated by any run of whitespace come out joined by exactly one space |
| Author.NormalizeDoubleSpace | MADS-DAV/src/wa_analyzer/preprocess.py:64 | `"Jane  Doe"` becomes `"Jane Doe"` |
| Author.NormalizeExample | MADS-DAV/src/wa_analyzer/preprocess.py:55-64 | `"~\u00A0Jane\u200B Doe"` becomes `"Jane Doe"`, whether or not NFKC has already turned the no-break space into a space |
| Transcript.Preprocessor | MADS-DAV/src/wa_analyzer/preprocess.py:123 | the loop's normaliser is `normalize_author`, so every name it returns is well formed |
| Transcript.IsDroppedIff | MADS-DAV/src/wa_analyzer/preprocess.py:124 | an author is dropped exactly when one of the drop substrings occurs in it, in both directions |
| Transcript.ClassifyOutcome | MADS-DAV/src/wa_analyzer/preprocess.py:99-127 | a line is a header exactly when the timestamp pattern matches it; it is rejected for its timestamp exactly when `strptime` fails on the capture, for its message exactly when the timestamp parsed and the message pattern fails, for its author exactly when the message matched and the author pattern fails, and for its author's name exactly when the normalised, stripped author capture holds a drop substring; every other header is accepted; past the timestamp check the outcome carries the parsed timestamp; an accepted record's author is the normalised, stripped author capture and its message the stripped message capture |
| Transcript.Step | MADS-DAV/src/wa_analyzer/preprocess.py:99-132 | a continuation line before the first record changes nothing; a header whose timestamp does not parse changes nothing; a header without message or author only sets the `timestamp` local; a dropped-author header only sets the `timestamp` and `author` locals; an accepted header appends exactly its record and sets the three locals from it; a continuation line after a record keeps the count and every earlier record, appends the `timestamp` local to `appended` and sets the last record to `(timestamp, author, msg + " " + line.strip())` |
| Transcript.Process | MADS-DAV/src/wa_analyzer/preprocess.py:88-136 | the loop returns the `records` and `appended` of the replay of all its lines |
| Transcript.ProcessLine | MADS-DAV/src/wa_analyzer/preprocess.py:99-132 | one pass of the loop body, with `continue` as an early return, leaves the state that `Step` gives |
| Transcript.ProcessHeader | MADS-DAV/src/wa_analyzer/preprocess.py:110-128 | for a header whose timestamp parsed: an accepted line appends exactly its record and sets `author` and `msg` from it; a dropped author sets only `author`; a missing message or author changes nothing further |
| TranscriptProps.ApplyEffect | MADS-DAV/src/wa_analyzer/preprocess.py:99-132 | an accepted line appends its record and takes the locals from it; a continuation after a record rewrites only the last record, with the `timestamp` and `author` locals; a header whose timestamp does not parse, and a continuation before any record, change nothing; a header without message or author only sets `timestamp`; a dropped-author header only sets `timestamp` and `author` |
| TranscriptProps.MsgTracksLast | MADS-DAV/src/wa_analyzer/preprocess.py:127-132 | once a record exists, the `msg` local always equals the last record's message |
| TranscriptProps.ContinuationExtendsLast | MADS-DAV/src/wa_analyzer/preprocess.py:129-132 | a continuation line keeps the number of records and every record but the last, extends the last message by a space and the stripped line, and adds one `appended` entry |
| TranscriptProps.RunCounts | MADS-DAV/src/wa_analyzer/preprocess.py:128-132 | there is one record per accepted header and one `appended` entry per continuation line that follows a record |
| TranscriptProps.RunMatchesCreated | MADS-DAV/src/wa_analyzer/preprocess.py:88-136 | records keep the order of their header lines, and each message starts with the message its header carried |
| TranscriptProps.CreatedFromAccepted | MADS-DAV/src/wa_analyzer/preprocess.py:127-128 | every record a header creates is the record of some accepted line |
| TranscriptProps.CreatedNotDropped | MADS-DAV/src/wa_analyzer/preprocess.py:122-128 | a newly created record never has a dropped author, and its message is trimmed |
| TranscriptProps.RunAuthorsWellFormed | MADS-DAV/src/wa_analyzer/preprocess.py:122-132 | if every name the checks produce is well formed, every author in the output is too |
| TranscriptProps.ProcessAuthorsWellFormed | MADS-DAV/src/wa_analyzer/preprocess.py:122-132 | with `normalize_author` as the normaliser, every author in the output is well formed |
| TranscriptProps.ContinuationsJoin | MADS-DAV/src/wa_analyzer/preprocess.py:129-132 | a run of continuation lines keeps every earlier record; the last record becomes all the pieces joined by single spaces, stamped with the `timestamp` and `author` locals; `appended` gains one entry per line |
| Corrected.ApplyIntendedEffect | MADS-DAV/src/wa_analyzer/preprocess.py:124-132 | corrected step: an accepted line appends its record; a continuation line after a record extends the last message and adds that record's own timestamp to `appended`, keeping its timestamp and author; every rejected header and a continuation before any record change nothing |
| Corrected.IntendedMatchesCreated | MADS-DAV/src/wa_analyzer/preprocess.py:88-136 | corrected: there is one record per accepted header, in order, with that header's own timestamp and author and a message that extends the header's message |
| Corrected.IntendedNoDroppedAuthors | MADS-DAV/src/wa_analyzer/preprocess.py:124-126 | corrected: no author in the output contains a drop substring |
| Corrected.IntendedAgreesWithoutOverwrites | MADS-DAV/src/wa_analyzer/preprocess.py:99-132 | when no header is rejected after its timestamp parsed, the corrected and the as-written runs produce the same `records` and `appended`, headers whose timestamp does not parse included |
| Corrected.StaleTargetAsWritten | MADS-DAV/src/wa_analyzer/preprocess.py:122-132 | as written: after an accepted line, a dropped-author header and a continuation line, the only record carries the dropped line's timestamp and author |
| Corrected.StaleTargetRun | MADS-DAV/src/wa_analyzer/preprocess.py:88-136 | as written, on a file of three such lines, the output's only record has a dropped author |
| Corrected.StaleTargetIntended | MADS-DAV/src/wa_analyzer/preprocess.py:124-132 | corrected: on the same three lines the only record keeps the accepted line's timestamp and author, and its message gains the continuation line |
| Dialect.Lower | MADS-DAV/src/wa_analyzer/preprocess.py:152 | `lower()` maps each ASCII capital to its small letter and leaves every other character unchanged |
| Dialect.Select | MADS-DAV/src/wa_analyzer/preprocess.py:152-163 | iOS, old and CSV are each selected by exactly the spellings whose `lower()` is `ios`, `old` or `csv`; Android is selected by every other string |
| Dialect.LowerIdempotent | MADS-DAV/src/wa_analyzer/preprocess.py:152-158 | lowering a second time changes nothing |
| Dialect.LowerUpper | MADS-DAV/src/wa_analyzer/preprocess.py:152-158 | upper-casing first does not change the lowered text |
| Dialect.SelectIgnoresCase | MADS-DAV/src/wa_analyzer/preprocess.py:152-163 | two spellings that lower alike select the same dialect, so the all-capitals spelling selects what the original does |
| Dialect.SelectName | MADS-DAV/src/wa_analyzer/preprocess.py:152-163 | each dialect is selected by the name the `--device` help gives it and by that name in capitals; `SelectIgnoresCase` covers every other spelling |

## Left out

- Unicode NFKC is a parameter, `nfkc`. The non-idempotence examples assume
  only that NFKC leaves ASCII text unchanged, which real NFKC does.
- `Author.NormalizeIdempotentIff`: requires that NFKC leaves the first
  result unchanged. Real NFKC need not: removing zero-width characters
  can bring a combining mark next to a base letter, so
  `"e\u200D\u0301"` normalises to `"e\u0301"`, which NFKC turns into
  `"é"` on the second call.
- `datetime.strptime` is a parameter that returns `None` where Python raises
  `ValueError`. A parsed, UTC-tagged datetime is modelled as an integer
  instant.
- Each regex is a parameter that returns the first capture group of a match.
  The dialect patterns in `wa_analyzer/settings.py` are not part of this
  model.
- A pattern that matches but whose first group did not participate crashes
  Python, because it calls `strptime` or `.strip()` on `None`. The model
  treats such a capture as present.
- The `isinstance(name, str)` guard in `normalize_author` is not modelled:
  names are always strings here.
- `Dialect.Lower`: models `str.lower()` on ASCII letters only. This does not
  change which dialect is selected:
  - no non-ASCII character lowers to text made only of the ASCII letters in
    `ios`, `old` or `csv`;
  - characters that lower to several characters only make the text longer.
- `Dialect.Select` returns which dialect is chosen, not the regex object.
- File reading and the `(timestamp, author, msg)` tuples are modelled as a
  sequence of lines and a `Record` datatype. Loguru logging of rejected
  lines and counts is not modelled.
- `save()`, which writes the records to a CSV file and a JSON map from
  `humanize` pseudonyms to author names, is left out.
- The `click` command line, loading `config.toml` and the check that the
  input file exists are left out.
- `main.py` is not part of this model.
- The `timestamp`, `author` and `msg` locals start unbound in Python. The
  model starts them at `0`, `""` and `""`. They are only read after a header
  has set them, so these starting values are never observed.
- `Transcript.ProcessLine`: the loop body is a separate method so that each
  iteration is verified on its own, and the checks after a parsed timestamp
  are a further method, `Transcript.ProcessHeader`. Their `return` stands
  for `continue`.

## Findings

| source | as written | input that shows it | evidently intended | confidence | as-written member | corrected member |
|---|---|---|---|---|---|---|
| MADS-DAV/src/wa_analyzer/preprocess.py:102-132 | A header rejected after its timestamp parsed (no message, no author, or a dropped author) has already overwritten the `timestamp` local, and for a dropped author the `author` local too. The continuation lines after it still rewrite `records[-1]` with those values and append their text to the previous message. | An accepted line from Alice, then a header from a dropped author, then a continuation line: the only record now has the dropped author's name and timestamp, plus Alice's text and the dropped author's continuation. | A rejected header never becomes the continuation target: the last accepted record keeps its own timestamp and author, continuation lines are added to it, and no dropped author reaches the output. | not executed | Corrected.StaleTargetAsWritten | Corrected.IntendedNoDroppedAuthors |
