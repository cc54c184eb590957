/** The continuation handling the loop in `process()` evidently intends.
    As written, a header line rejected after its timestamp parsed (no
    message, no author, or a dropped author) has already overwritten the
    `timestamp` (and, for a dropped author, the `author`) local, and the
    continuation lines that follow it still rewrite the last record with
    those values: the previous record is re-stamped and, after a dropped
    author, ends up carrying that author's name. Here no rejected header
    ever becomes the continuation target: it changes nothing, like a header
    whose timestamp does not parse already does in the source, and a
    continuation line extends the last accepted record under that record's
    own timestamp and author. */
module Corrected {
  import opened PyStr
  import opened Transcript
  import opened TranscriptProps

  /** The two output lists. */
  datatype Output = Output(records: seq<Record>, appended: seq<Timestamp>)

  const Empty: Output := Output([], [])

  /** One line's effect once its checks have decided. */
  function ApplyIntended(out: Output, e: Event): Output
  {
    match e.outcome
    case NoHeader =>
      if |out.records| > 0 then
        var last := out.records[|out.records| - 1];
        var r := last.(message := last.message + " " + Strip(e.line));
        Output(out.records[|out.records| - 1 := r], out.appended + [last.timestamp])
      else out
    case Accepted(r) => Output(out.records + [r], out.appended)
    case _ => out
  }

  /** The output after the events `es`, one after the other. */
  function ReplayIntended(es: seq<Event>): Output
  {
    if |es| == 0 then Empty
    else ApplyIntended(ReplayIntended(es[..|es| - 1]), es[|es| - 1])
  }

  /** The corrected pass over a file's lines. */
  function RunIntended(cfg: Config, lib: Library, lines: seq<string>): Output
  {
    ReplayIntended(Events(cfg, lib, lines))
  }

  /** What one event does to the records under the correction: an accepted
      header appends its record; a continuation line once a record exists
      extends the last message and adds that record's own timestamp to
      `appended`; every other line changes nothing. */
  lemma ApplyIntendedEffect(out: Output, e: Event)
    ensures var s := ApplyIntended(out, e); var n := |out.records|;
      (e.outcome.Accepted? ==> s == Output(out.records + [e.outcome.record], out.appended))
      && (e.outcome.NoHeader? && n > 0 ==>
            |s.records| == n
            && s.records[..n - 1] == out.records[..n - 1]
            && s.records[n - 1].timestamp == out.records[n - 1].timestamp
            && s.records[n - 1].author == out.records[n - 1].author
            && s.records[n - 1].message == out.records[n - 1].message + " " + Strip(e.line)
            && s.appended == out.appended + [out.records[n - 1].timestamp])
      && (!e.outcome.Accepted? && !(e.outcome.NoHeader? && n > 0) ==> s == out)
  {
  }

  /** Corrected: the output holds exactly the records the accepted headers
      create, in line order, each with its own header's timestamp and
      author; continuation lines only add text at the end of a message. */
  lemma {:induction false} IntendedMatchesCreated(es: seq<Event>)
    ensures var out := ReplayIntended(es); var cs := Created(es);
      |out.records| == |cs|
      && forall i :: 0 <= i < |cs| ==>
           out.records[i].timestamp == cs[i].timestamp
           && out.records[i].author == cs[i].author
           && cs[i].message <= out.records[i].message
  {
    if |es| > 0 {
      var init := es[..|es| - 1];
      IntendedMatchesCreated(init);
      MatchesCreatedStep(ReplayIntended(init), es[|es| - 1], Created(init));
    }
  }

  /** One event keeps the output in step with the created records: an
      accepted header adds its record to both, a continuation line only
      lengthens the last message. */
  lemma MatchesCreatedStep(out: Output, e: Event, cs0: seq<Record>)
    requires |out.records| == |cs0|
    requires forall i :: 0 <= i < |cs0| ==>
               out.records[i].timestamp == cs0[i].timestamp
               && out.records[i].author == cs0[i].author
               && cs0[i].message <= out.records[i].message
    ensures var s := ApplyIntended(out, e);
      var cs := cs0 + (if e.outcome.Accepted? then [e.outcome.record] else []);
      |s.records| == |cs|
      && forall i :: 0 <= i < |cs| ==>
           s.records[i].timestamp == cs[i].timestamp
           && s.records[i].author == cs[i].author
           && cs[i].message <= s.records[i].message
  {
    ApplyIntendedEffect(out, e);
    var s := ApplyIntended(out, e);
    var n := |out.records|;
    if e.outcome.Accepted? {
      var cs := cs0 + [e.outcome.record];
      forall i | 0 <= i < |cs|
        ensures s.records[i].timestamp == cs[i].timestamp
                && s.records[i].author == cs[i].author
                && cs[i].message <= s.records[i].message
      {
        if i < n {
          assert s.records[i] == out.records[i];
          assert cs[i] == cs0[i];
        }
      }
    } else if e.outcome.NoHeader? && n > 0 {
      var cs := cs0 + [];
      assert cs == cs0;
      forall i | 0 <= i < n
        ensures s.records[i].timestamp == cs0[i].timestamp
                && s.records[i].author == cs0[i].author
                && cs0[i].message <= s.records[i].message
      {
        if i < n - 1 {
          assert s.records[i] == s.records[..n - 1][i];
        }
      }
    } else {
      assert cs0 + [] == cs0;
    }
  }

  /** Corrected: no record in the output has an author holding one of the
      drop substrings. */
  lemma IntendedNoDroppedAuthors(cfg: Config, lib: Library, lines: seq<string>)
    ensures var out := RunIntended(cfg, lib, lines);
      forall i :: 0 <= i < |out.records| ==> !IsDropped(cfg.dropAuthors, out.records[i].author)
  {
    IntendedMatchesCreated(Events(cfg, lib, lines));
    CreatedNotDropped(cfg, lib, lines);
  }

  /** A rejected header that has already overwritten a local of the loop
      before giving up on the line. */
  predicate Overwrites(o: Outcome) {
    o.NoMessage? || o.NoAuthor? || o.DroppedAuthor?
  }

  /** How the two versions relate while they agree: the same lists, and the
      locals holding the last record. */
  ghost predicate Agree(st: State, out: Output) {
    st.records == out.records && st.appended == out.appended
    && (|st.records| > 0 ==>
          st.records[|st.records| - 1] == Record(st.timestamp, st.author, st.msg))
  }

  /** The correction changes nothing on a file where no rejected header
      overwrites a local: continuation lines and headers whose timestamp
      does not parse included, both versions produce the same records and
      the same `appended`. */
  lemma {:induction false} IntendedAgreesWithoutOverwrites(es: seq<Event>)
    requires forall k :: 0 <= k < |es| ==> !Overwrites(es[k].outcome)
    ensures Agree(Replay(Start, es), ReplayIntended(es))
  {
    if |es| > 0 {
      var init := es[..|es| - 1];
      assert forall k :: 0 <= k < |init| ==> !Overwrites(init[k].outcome) by {
        forall k | 0 <= k < |init| ensures init[k] == es[k] { }
      }
      IntendedAgreesWithoutOverwrites(init);
      ApplyEffect(Replay(Start, init), es[|es| - 1]);
    }
  }

  /** As written: an accepted message, a header whose author is dropped,
      then a continuation line. The output's one record is re-stamped with
      the dropped line's timestamp and author, and the continuation is
      added to the earlier message. */
  lemma StaleTargetAsWritten(r: Record, t: Timestamp, name: string, l0: string, l1: string, l2: string)
    ensures Replay(Start, [Event(Accepted(r), l0), Event(DroppedAuthor(t, name), l1), Event(NoHeader, l2)]).records
            == [Record(t, name, r.message + " " + Strip(l2))]
  {
    var e0, e1, e2 := Event(Accepted(r), l0), Event(DroppedAuthor(t, name), l1), Event(NoHeader, l2);
    assert [e0, e1, e2][..2] == [e0, e1] && [e0, e1][..1] == [e0] && [e0][..0] == [];
    assert Replay(Start, [e0]) == State([r], [], r.timestamp, r.author, r.message);
    assert Replay(Start, [e0, e1]) == State([r], [], t, name, r.message);
  }

  /** As written, on lines: when the first line is accepted, the second is
      a header whose author is dropped and the third continues it, the
      only record in the output has the dropped author. */
  lemma StaleTargetRun(cfg: Config, lib: Library, lines: seq<string>)
    requires |lines| == 3
    requires Classify(cfg, lib, lines[0]).Accepted?
    requires Classify(cfg, lib, lines[1]).DroppedAuthor?
    requires Classify(cfg, lib, lines[2]).NoHeader?
    ensures var st := Run(cfg, lib, lines);
      |st.records| == 1 && IsDropped(cfg.dropAuthors, st.records[0].author)
  {
    var o0, o1 := Classify(cfg, lib, lines[0]), Classify(cfg, lib, lines[1]);
    ClassifyOutcome(cfg, lib, lines[1]);
    EventsOfThree(cfg, lib, lines);
    assert o0 == Accepted(o0.record) && o1 == DroppedAuthor(o1.t, o1.name);
    StaleTargetAsWritten(o0.record, o1.t, o1.name, lines[0], lines[1], lines[2]);
  }

  lemma EventsOfThree(cfg: Config, lib: Library, lines: seq<string>)
    requires |lines| == 3
    ensures Events(cfg, lib, lines)
            == [Event(Classify(cfg, lib, lines[0]), lines[0]),
                Event(Classify(cfg, lib, lines[1]), lines[1]),
                Event(Classify(cfg, lib, lines[2]), lines[2])]
  {
  }

  /** Corrected, on the same three events: the record keeps its own
      timestamp and author, and the continuation line is added to its
      message. */
  lemma StaleTargetIntended(r: Record, t: Timestamp, name: string, l0: string, l1: string, l2: string)
    ensures ReplayIntended([Event(Accepted(r), l0), Event(DroppedAuthor(t, name), l1), Event(NoHeader, l2)]).records
            == [Record(r.timestamp, r.author, r.message + " " + Strip(l2))]
  {
    var e0, e1, e2 := Event(Accepted(r), l0), Event(DroppedAuthor(t, name), l1), Event(NoHeader, l2);
    assert [e0, e1, e2][..2] == [e0, e1] && [e0, e1][..1] == [e0] && [e0][..0] == [];
    assert ReplayIntended([e0]) == Output([r], []);
    assert ReplayIntended([e0, e1]) == Output([r], []);
  }
}
