/** `WhatsappPreprocessor.process`: one pass over the lines of an exported
    chat. A line whose start matches the timestamp pattern is a message
    header and may add a record; once a record exists, any other line
    continues the message of the last record. The regex engine, the dialect's patterns and
    `datetime.strptime` are not modelled: they come in as functions. */
module Transcript {
  import opened Options
  import opened PyStr
  import Author

  /** A parsed `datetime` tagged as UTC, as the instant it denotes. */
  type Timestamp = int

  /** One output row `(timestamp, author, message)`. */
  datatype Record = Record(timestamp: Timestamp, author: string, message: string)

  /** A dialect's three patterns, each as the first capture group of a match
      (`None` when the pattern does not match): `timestamp` must match at
      the start of the line (`re.match`), `message` and `author` anywhere in
      it (`re.search`). */
  datatype Regexes = Regexes(
    timestamp: string -> Option<string>,
    message: string -> Option<string>,
    author: string -> Option<string>)

  /** The preprocessor's settings: the dialect's patterns, the `strptime`
      format and the author substrings whose messages are skipped. */
  datatype Config = Config(regexes: Regexes, datetimeFormat: string, dropAuthors: seq<string>)

  /** The calls the loop makes outside itself: `normalize_author`, and
      `datetime.strptime(text, format)`, `None` where it raises
      `ValueError`. */
  datatype Library = Library(
    normalize: string -> string,
    strptime: (string, string) -> Option<Timestamp>)

  /** The library the preprocessor runs with: its `normalize_author` over
      the given Unicode NFKC. Every name it returns is well formed. */
  function Preprocessor(nfkc: string -> string, strptime: (string, string) -> Option<Timestamp>): (lib: Library)
    ensures forall name :: lib.normalize(name) == Author.Normalize(nfkc, name)
    ensures WellFormedNames(lib)
  {
    Library(name => Author.Normalize(nfkc, name), strptime)
  }

  /** Every name `normalize` returns has the shape `normalize_author`
      guarantees. */
  ghost predicate WellFormedNames(lib: Library) {
    forall name :: Author.WellFormed(lib.normalize(name))
  }

  /** Everything the loop carries from one line to the next: the two output
      lists and the locals `timestamp`, `author` and `msg`, which keep the
      values they were last given. */
  datatype State = State(
    records: seq<Record>,
    appended: seq<Timestamp>,
    timestamp: Timestamp,
    author: string,
    msg: string)

  /** Before the first line. The three locals are unbound in the source;
      they are read only once a record exists, by which time a header has
      set all three, so their starting values here are never observed. */
  const Start: State := State([], [], 0, "", "")

  /** `any(drop_author in author for drop_author in drop_authors)`, the
      drop list scanned from the front. */
  predicate IsDropped(dropAuthors: seq<string>, author: string) {
    |dropAuthors| > 0 && (Contains(author, dropAuthors[0]) || IsDropped(dropAuthors[1..], author))
  }

  /** An author is dropped exactly when some entry of the drop list occurs
      in it. */
  lemma {:induction false} IsDroppedIff(dropAuthors: seq<string>, author: string)
    ensures IsDropped(dropAuthors, author)
            <==> exists k :: 0 <= k < |dropAuthors| && Contains(author, dropAuthors[k])
  {
    if |dropAuthors| > 0 {
      var rest := dropAuthors[1..];
      IsDroppedIff(rest, author);
      if k :| 0 <= k < |rest| && Contains(author, rest[k]) {
        assert Contains(author, dropAuthors[k + 1]);
      }
      if k :| 0 <= k < |dropAuthors| && Contains(author, dropAuthors[k]) {
        if k > 0 {
          assert Contains(author, rest[k - 1]);
        }
      }
    }
  }

  /** What the checks of one line decide, in the order the source makes
      them. The rejected kinds carry the values the source has already
      stored in its locals when it gives up on the line. */
  datatype Outcome =
    | NoHeader
    | BadTimestamp
    | NoMessage(t: Timestamp)
    | NoAuthor(t: Timestamp)
    | DroppedAuthor(t: Timestamp, name: string)
    | Accepted(record: Record)

  /** The checks one line goes through, in the source's order: the
      timestamp pattern, `strptime`, then the checks of a parsed header. */
  function Classify(cfg: Config, lib: Library, line: string): Outcome
  {
    match cfg.regexes.timestamp(line)
    case None => NoHeader
    case Some(text) =>
      match lib.strptime(text, cfg.datetimeFormat)
      case None => BadTimestamp
      case Some(t) => ClassifyHeader(cfg, lib, line, t)
  }

  /** The checks of a header whose timestamp parsed to `t`: the message
      pattern, the author pattern and the drop list. */
  function ClassifyHeader(cfg: Config, lib: Library, line: string, t: Timestamp): Outcome
  {
    match cfg.regexes.message(line)
    case None => NoMessage(t)
    case Some(m) =>
      match cfg.regexes.author(line)
      case None => NoAuthor(t)
      case Some(a) =>
        var name := lib.normalize(Strip(a));
        if IsDropped(cfg.dropAuthors, name) then DroppedAuthor(t, name)
        else Accepted(Record(t, name, Strip(m)))
  }

  /** The checks decide as the source orders them. A line is a header
      exactly when the timestamp pattern matches it; a header is rejected
      for its timestamp exactly when `strptime` fails on the capture, for
      its message exactly when the timestamp parsed and the message pattern
      does not match, for its author exactly when the message matched and
      the author pattern does not, and for a dropped author exactly when
      the normalized, trimmed author capture holds a drop substring; every
      other header is accepted. Past the timestamp check, the outcome
      carries the parsed timestamp. An accepted line's record has the
      normalized, trimmed author capture as its author and the trimmed
      message capture as its message. With a normalizer whose names are
      well formed, both kinds of author are well formed. */
  lemma ClassifyOutcome(cfg: Config, lib: Library, line: string)
    ensures var o := Classify(cfg, lib, line); var ts := cfg.regexes.timestamp(line);
      (o.NoHeader? <==> ts.None?)
      && (o.BadTimestamp? <==> ts.Some? && lib.strptime(ts.value, cfg.datetimeFormat).None?)
    ensures var o := Classify(cfg, lib, line); var ts := cfg.regexes.timestamp(line);
      var parsed := if ts.Some? then lib.strptime(ts.value, cfg.datetimeFormat) else None;
      var m, a := cfg.regexes.message(line), cfg.regexes.author(line);
      (o.NoMessage? <==> parsed.Some? && m.None?)
      && (o.NoAuthor? <==> parsed.Some? && m.Some? && a.None?)
      && (o.DroppedAuthor? <==>
            parsed.Some? && m.Some? && a.Some?
            && IsDropped(cfg.dropAuthors, lib.normalize(Strip(a.value))))
      && (o.Accepted? <==>
            parsed.Some? && m.Some? && a.Some?
            && !IsDropped(cfg.dropAuthors, lib.normalize(Strip(a.value))))
      && ((o.NoMessage? || o.NoAuthor? || o.DroppedAuthor?) ==> parsed == Some(o.t))
      && (o.Accepted? ==> parsed == Some(o.record.timestamp))
    ensures var o := Classify(cfg, lib, line);
      (o.Accepted? ==>
            cfg.regexes.message(line).Some? && cfg.regexes.author(line).Some?
            && o.record.author == lib.normalize(Strip(cfg.regexes.author(line).value))
            && o.record.message == Strip(cfg.regexes.message(line).value)
            && !IsDropped(cfg.dropAuthors, o.record.author)
            && Trimmed(o.record.message)
            && (WellFormedNames(lib) ==> Author.WellFormed(o.record.author)))
      && (o.DroppedAuthor? ==>
            o.name == lib.normalize(Strip(cfg.regexes.author(line).value))
            && IsDropped(cfg.dropAuthors, o.name)
            && (WellFormedNames(lib) ==> Author.WellFormed(o.name)))
  {
  }

  /** A line together with what its checks decided. */
  datatype Event = Event(outcome: Outcome, line: string)

  /** One iteration of the loop.
      - A continuation line before the first record changes nothing.
      - A header whose timestamp does not parse changes nothing.
      - A header rejected for its message or author has already set the
        `timestamp` local, and one rejected for a dropped author has set
        `timestamp` and `author`; nothing else changes.
      - An accepted header appends exactly its record and sets the three
        locals to that record's fields.
      - A continuation line once a record exists keeps the number of
        records, grows `appended` by one, leaves every record but the last
        as it was and extends the running message by a space and the
        trimmed line; the last record becomes the `timestamp` and `author`
        locals with that message. */
  function Step(cfg: Config, lib: Library, st: State, line: string): (s: State)
    ensures Classify(cfg, lib, line).NoHeader? && |st.records| == 0 ==> s == st
    ensures Classify(cfg, lib, line).BadTimestamp? ==> s == st
    ensures var o := Classify(cfg, lib, line);
      o.NoMessage? || o.NoAuthor? ==> s == st.(timestamp := o.t)
    ensures var o := Classify(cfg, lib, line);
      o.DroppedAuthor? ==> s == st.(timestamp := o.t, author := o.name)
    ensures var o := Classify(cfg, lib, line);
      o.Accepted? ==>
        s.records == st.records + [o.record] && s.appended == st.appended
        && s.timestamp == o.record.timestamp && s.author == o.record.author
        && s.msg == o.record.message
    ensures Classify(cfg, lib, line).NoHeader? && |st.records| > 0 ==>
              |s.records| == |st.records|
              && s.records[..|st.records| - 1] == st.records[..|st.records| - 1]
              && s.appended == st.appended + [st.timestamp]
              && s.msg == st.msg + " " + Strip(line)
              && s.records[|s.records| - 1] == Record(st.timestamp, st.author, s.msg)
              && s.timestamp == st.timestamp && s.author == st.author
  {
    Apply(st, Event(Classify(cfg, lib, line), line))
  }

  /** The state change a line makes once its checks have decided. */
  function Apply(st: State, e: Event): State
  {
    match e.outcome
    case NoHeader =>
      if |st.records| > 0 then
        var m := st.msg + " " + Strip(e.line);
        st.(records := st.records[|st.records| - 1 := Record(st.timestamp, st.author, m)],
            appended := st.appended + [st.timestamp],
            msg := m)
      else st
    case BadTimestamp => st
    case NoMessage(t) => st.(timestamp := t)
    case NoAuthor(t) => st.(timestamp := t)
    case DroppedAuthor(t, name) => st.(timestamp := t, author := name)
    case Accepted(r) => State(st.records + [r], st.appended, r.timestamp, r.author, r.message)
  }

  /** The lines with what their checks decide. */
  function Events(cfg: Config, lib: Library, lines: seq<string>): seq<Event>
  {
    seq(|lines|, k requires 0 <= k < |lines| => Event(Classify(cfg, lib, lines[k]), lines[k]))
  }

  /** The state after the events `es`, one after the other, from `st`. */
  function Replay(st: State, es: seq<Event>): State
  {
    if |es| == 0 then st
    else Apply(Replay(st, es[..|es| - 1]), es[|es| - 1])
  }

  /** The state after the whole loop over `lines`. */
  function Run(cfg: Config, lib: Library, lines: seq<string>): State
  {
    Replay(Start, Events(cfg, lib, lines))
  }

  /** `process()`: the loop over the file's lines, returning `(records,
      appended)` as the run over the same lines leaves them. */
  method Process(cfg: Config, lib: Library, lines: seq<string>)
      returns (records: seq<Record>, appended: seq<Timestamp>)
    ensures records == Run(cfg, lib, lines).records
    ensures appended == Run(cfg, lib, lines).appended
  {
    records := [];
    appended := [];
    var timestamp: Timestamp := 0;
    var author: string := "";
    var msg: string := "";
    ghost var es := Events(cfg, lib, lines);
    for i := 0 to |lines|
      invariant State(records, appended, timestamp, author, msg) == Replay(Start, es[..i])
    {
      ReplayNext(es, i);
      records, appended, timestamp, author, msg :=
        ProcessLine(cfg, lib, records, appended, timestamp, author, msg, lines[i]);
    }
    assert es[..|lines|] == es;
  }

  /** The body of the loop in `process()` for one line, `continue` being an
      early return: the checks in order, each rejection keeping whatever
      locals it has already set, then either a new record or a continuation
      of the last one. */
  method ProcessLine(cfg: Config, lib: Library, records0: seq<Record>, appended0: seq<Timestamp>,
                     timestamp0: Timestamp, author0: string, msg0: string, line: string)
      returns (records: seq<Record>, appended: seq<Timestamp>, timestamp: Timestamp, author: string, msg: string)
    ensures State(records, appended, timestamp, author, msg)
            == Apply(State(records0, appended0, timestamp0, author0, msg0), Event(Classify(cfg, lib, line), line))
  {
    records, appended, timestamp, author, msg := records0, appended0, timestamp0, author0, msg0;
    var ts := cfg.regexes.timestamp(line);
    if ts.Some? {
      var parsed := lib.strptime(ts.value, cfg.datetimeFormat);
      if parsed.None? {
        assert Classify(cfg, lib, line) == BadTimestamp;
        return;
      }
      timestamp := parsed.value;
      assert Classify(cfg, lib, line) == ClassifyHeader(cfg, lib, line, timestamp);
      records, author, msg := ProcessHeader(cfg, lib, records0, author0, msg0, line, timestamp);
    } else {
      assert Classify(cfg, lib, line) == NoHeader;
      if |records| > 0 {
        appended := appended + [timestamp];
        msg := msg + " " + Strip(line);
        records := records[|records| - 1 := Record(timestamp, author, msg)];
      }
    }
  }

  /** The rest of the loop body for a header whose timestamp parsed to
      `timestamp`, which the loop has already stored: the message and
      author checks, the drop list, and the new record. */
  method ProcessHeader(cfg: Config, lib: Library, records0: seq<Record>, author0: string, msg0: string,
                       line: string, timestamp: Timestamp)
      returns (records: seq<Record>, author: string, msg: string)
    ensures var o := ClassifyHeader(cfg, lib, line, timestamp);
      (o.Accepted? ==> records == records0 + [o.record] && author == o.record.author && msg == o.record.message)
      && (o.DroppedAuthor? ==> records == records0 && author == o.name && msg == msg0)
      && (o.NoMessage? || o.NoAuthor? ==> records == records0 && author == author0 && msg == msg0)
  {
    records, author, msg := records0, author0, msg0;
    var msgMatch := cfg.regexes.message(line);
    var authorMatch := cfg.regexes.author(line);
    if msgMatch.None? {
      return;
    }
    if authorMatch.None? {
      return;
    }
    var rawAuthor := Strip(authorMatch.value);
    author := lib.normalize(rawAuthor);
    if IsDropped(cfg.dropAuthors, author) {
      return;
    }
    msg := Strip(msgMatch.value);
    records := records + [Record(timestamp, author, msg)];
  }

  /** Replaying one more event. */
  lemma ReplayNext(es: seq<Event>, i: nat)
    requires i < |es|
    ensures Replay(Start, es[..i + 1]) == Apply(Replay(Start, es[..i]), es[i])
  {
    assert es[..i + 1][..i] == es[..i];
  }
}
