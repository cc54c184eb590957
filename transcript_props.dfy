/** What a whole run of the preprocessing loop produces, related to the
    records the accepted header lines create on their own. The lemmas hold
    for any sequence of line events, so in particular for
    `Events(cfg, lib, lines)`, whose replay is `Run(cfg, lib, lines)`. */
module TranscriptProps {
  import opened PyStr
  import Author
  import opened Options
  import opened Transcript

  /** The records the accepted headers among `es` create, in line order,
      before any continuation line adds to them. */
  function Created(es: seq<Event>): (rs: seq<Record>)
    ensures |rs| <= |es|
  {
    if |es| == 0 then []
    else
      var o := es[|es| - 1].outcome;
      Created(es[..|es| - 1]) + (if o.Accepted? then [o.record] else [])
  }

  /** How many lines continue a record: lines that are no header, counted
      once an earlier line has been accepted. */
  function Continuations(es: seq<Event>): (n: nat)
    ensures n <= |es|
  {
    if |es| == 0 then 0
    else
      var init := es[..|es| - 1];
      Continuations(init) + (if es[|es| - 1].outcome.NoHeader? && |Created(init)| > 0 then 1 else 0)
  }

  /** The text of a message spread over a header and the continuation lines
      after it: the pieces, each trimmed, joined by single spaces. */
  function Joined(first: string, conts: seq<Event>): (j: string)
    ensures first <= j
  {
    if |conts| == 0 then first
    else Joined(first, conts[..|conts| - 1]) + " " + Strip(conts[|conts| - 1].line)
  }

  lemma ReplaySnoc(es: seq<Event>, e: Event)
    ensures Replay(Start, es + [e]) == Apply(Replay(Start, es), e)
  {
  }

  /** `msg` always holds the last record's message, so a continuation adds
      to the message that record already shows. */
  lemma {:induction false} MsgTracksLast(es: seq<Event>)
    ensures var st := Replay(Start, es);
      |st.records| > 0 ==> st.msg == st.records[|st.records| - 1].message
  {
    if |es| > 0 {
      var init := es[..|es| - 1];
      MsgTracksLast(init);
      ApplyEffect(Replay(Start, init), es[|es| - 1]);
    }
  }

  /** A continuation line, once a record exists, keeps the number of
      records and every record but the last, grows `appended` by one, and
      sets the last message to the old one, a space and the trimmed line. */
  lemma ContinuationExtendsLast(es: seq<Event>, e: Event)
    requires e.outcome.NoHeader?
    requires |Replay(Start, es).records| > 0
    ensures var before := Replay(Start, es).records;
      var after := Replay(Start, es + [e]).records;
      |after| == |before|
      && after[..|before| - 1] == before[..|before| - 1]
      && after[|after| - 1].message == before[|before| - 1].message + " " + Strip(e.line)
      && |Replay(Start, es + [e]).appended| == |Replay(Start, es).appended| + 1
  {
    MsgTracksLast(es);
    ReplaySnoc(es, e);
  }

  /** What one event does to the whole state: an accepted header appends
      its record and sets the locals to its fields; a continuation line
      once a record exists rewrites the last record from the locals and
      grows `appended` and `msg`; a header whose timestamp does not parse,
      and a continuation line before any record, change nothing; a header
      rejected later has already overwritten `timestamp`, and `author` too
      when the author is dropped, and changes nothing else. */
  lemma ApplyEffect(st: State, e: Event)
    ensures var s := Apply(st, e); var n := |st.records|;
      (e.outcome.Accepted? ==>
         s.records == st.records + [e.outcome.record] && s.appended == st.appended
         && s.msg == e.outcome.record.message
         && s.timestamp == e.outcome.record.timestamp && s.author == e.outcome.record.author)
      && (e.outcome.NoHeader? && n > 0 ==>
            |s.records| == n && s.records[..n - 1] == st.records[..n - 1]
            && s.records[n - 1] == Record(st.timestamp, st.author, s.msg)
            && s.msg == st.msg + " " + Strip(e.line)
            && s.appended == st.appended + [st.timestamp]
            && s.timestamp == st.timestamp && s.author == st.author)
      && (!e.outcome.Accepted? && !(e.outcome.NoHeader? && n > 0) ==>
            s.records == st.records && s.appended == st.appended && s.msg == st.msg)
    ensures var s := Apply(st, e);
      ((e.outcome.NoHeader? && |st.records| == 0) || e.outcome.BadTimestamp? ==> s == st)
      && (e.outcome.NoMessage? || e.outcome.NoAuthor? ==> s == st.(timestamp := e.outcome.t))
      && (e.outcome.DroppedAuthor? ==> s == st.(timestamp := e.outcome.t, author := e.outcome.name))
  {
  }

  /** The run's output against the accepted headers: one record per
      accepted header and one `appended` entry per continuation line. */
  lemma {:induction false} RunCounts(es: seq<Event>)
    ensures |Replay(Start, es).records| == |Created(es)|
    ensures |Replay(Start, es).appended| == Continuations(es)
  {
    if |es| > 0 {
      var init := es[..|es| - 1];
      RunCounts(init);
      ApplyEffect(Replay(Start, init), es[|es| - 1]);
    }
  }

  /** Records stay in the order of their headers, and each record's message
      starts with the message its header carried: continuation lines only
      ever add text at the end. */
  lemma {:induction false} RunMatchesCreated(es: seq<Event>)
    ensures var st := Replay(Start, es); var cs := Created(es);
      |st.records| == |cs|
      && forall i :: 0 <= i < |cs| ==> cs[i].message <= st.records[i].message
  {
    RunCounts(es);
    if |es| > 0 {
      var init := es[..|es| - 1];
      var e := es[|es| - 1];
      RunMatchesCreated(init);
      MsgTracksLast(init);
      var before := Replay(Start, init);
      var after := Replay(Start, es);
      ApplyEffect(before, e);
      var cs := Created(es);
      var cs0 := Created(init);
      forall i | 0 <= i < |cs|
        ensures cs[i].message <= after.records[i].message
      {
        if i < |cs0| {
          assert cs[i] == cs0[i];
          assert before.records[i].message <= after.records[i].message by {
            if e.outcome.NoHeader? && |before.records| > 0 && i == |before.records| - 1 {
            } else if e.outcome.NoHeader? && |before.records| > 0 {
              assert after.records[i] == after.records[..|before.records| - 1][i];
            }
          }
        }
      }
    }
  }

  /** Every created record is the record of some accepted line. */
  lemma {:induction false} CreatedFromAccepted(es: seq<Event>)
    ensures forall i :: 0 <= i < |Created(es)| ==>
              exists k :: 0 <= k < |es| && es[k].outcome == Accepted(Created(es)[i])
  {
    if |es| > 0 {
      var init := es[..|es| - 1];
      CreatedFromAccepted(init);
      var cs := Created(es);
      forall i | 0 <= i < |cs|
        ensures exists k :: 0 <= k < |es| && es[k].outcome == Accepted(cs[i])
      {
        if i < |Created(init)| {
          assert cs[i] == Created(init)[i];
          var k :| 0 <= k < |init| && init[k].outcome == Accepted(Created(init)[i]);
          assert es[k] == init[k];
        } else {
          assert es[|es| - 1].outcome == Accepted(cs[i]);
        }
      }
      assert cs == Created(es);
    } else {
      assert Created(es) == [];
    }
  }

  /** The records the checks create for a file: none has an author holding
      a drop substring, and every message is trimmed. */
  lemma CreatedNotDropped(cfg: Config, lib: Library, lines: seq<string>)
    ensures var cs := Created(Events(cfg, lib, lines));
      forall i :: 0 <= i < |cs| ==>
        !IsDropped(cfg.dropAuthors, cs[i].author) && Trimmed(cs[i].message)
  {
    var es := Events(cfg, lib, lines);
    var cs := Created(es);
    CreatedFromAccepted(es);
    forall i | 0 <= i < |cs|
      ensures !IsDropped(cfg.dropAuthors, cs[i].author) && Trimmed(cs[i].message)
    {
      var k :| 0 <= k < |es| && es[k].outcome == Accepted(cs[i]);
      ClassifyOutcome(cfg, lib, lines[k]);
    }
  }

  /** The author names a run can write: those of accepted headers and of
      dropped ones. */
  ghost predicate NamesWellFormed(es: seq<Event>) {
    forall k :: 0 <= k < |es| ==>
      (es[k].outcome.Accepted? ==> Author.WellFormed(es[k].outcome.record.author))
      && (es[k].outcome.DroppedAuthor? ==> Author.WellFormed(es[k].outcome.name))
  }

  /** If every name the checks produce is well formed, so is every author
      in the output and the `author` local. */
  lemma {:induction false} RunAuthorsWellFormed(es: seq<Event>)
    requires NamesWellFormed(es)
    ensures var st := Replay(Start, es);
      Author.WellFormed(st.author)
      && forall i :: 0 <= i < |st.records| ==> Author.WellFormed(st.records[i].author)
  {
    if |es| > 0 {
      var init := es[..|es| - 1];
      assert NamesWellFormed(init) by {
        forall k | 0 <= k < |init| ensures init[k] == es[k] { }
      }
      RunAuthorsWellFormed(init);
      var before := Replay(Start, init);
      var after := Replay(Start, es);
      if es[|es| - 1].outcome.NoHeader? && |before.records| > 0 {
        var n := |before.records| - 1;
        forall i | 0 <= i < |after.records|
          ensures Author.WellFormed(after.records[i].author)
        {
          if i < n {
            assert after.records[i] == before.records[i];
          }
        }
      }
    }
  }

  /** With `normalize_author` as the normalizer, every author the loop
      writes is well formed. */
  lemma ProcessAuthorsWellFormed(cfg: Config, nfkc: string -> string,
                                strptime: (string, string) -> Option<Timestamp>,
                                lines: seq<string>)
    ensures var st := Run(cfg, Preprocessor(nfkc, strptime), lines);
      forall i :: 0 <= i < |st.records| ==> Author.WellFormed(st.records[i].author)
  {
    var lib := Preprocessor(nfkc, strptime);
    var es := Events(cfg, lib, lines);
    forall k | 0 <= k < |es|
      ensures (es[k].outcome.Accepted? ==> Author.WellFormed(es[k].outcome.record.author))
              && (es[k].outcome.DroppedAuthor? ==> Author.WellFormed(es[k].outcome.name))
    {
      ClassifyOutcome(cfg, lib, lines[k]);
    }
    RunAuthorsWellFormed(es);
  }

  /** `n` copies of `x`. */
  function Repeat<T>(x: T, n: nat): (r: seq<T>)
    ensures |r| == n
    ensures forall k :: 0 <= k < n ==> r[k] == x
  {
    if n == 0 then [] else Repeat(x, n - 1) + [x]
  }

  /** Every line in `conts` is a continuation line (no header). */
  predicate AllContinue(conts: seq<Event>) {
    forall k :: 0 <= k < |conts| ==> conts[k].outcome.NoHeader?
  }

  /** A message spread over several lines: from a state where a record
      exists and `msg` is its message (every state the loop reaches, by
      `MsgTracksLast`), a run of continuation lines keeps every earlier
      record, and the last record becomes the text of all the pieces joined
      by single spaces, stamped with the `timestamp` and `author` locals;
      `appended` gains that timestamp once per line. */
  lemma {:induction false} ContinuationsJoin(st: State, conts: seq<Event>)
    requires |st.records| > 0
    requires st.msg == st.records[|st.records| - 1].message
    requires AllContinue(conts)
    ensures var after := Replay(st, conts); var n := |st.records| - 1;
      |after.records| == |st.records|
      && after.records[..n] == st.records[..n]
      && after.appended == st.appended + Repeat(st.timestamp, |conts|)
      && after.timestamp == st.timestamp && after.author == st.author
      && after.msg == Joined(st.msg, conts)
      && (|conts| > 0 ==> after.records[n] == Record(st.timestamp, st.author, after.msg))
    decreases |conts|
  {
    if |conts| > 0 {
      var init := conts[..|conts| - 1];
      ContinuationsJoin(st, init);
      var mid := Replay(st, init);
      ApplyEffect(mid, conts[|conts| - 1]);
    }
  }
}
