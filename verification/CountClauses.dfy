/** The count clauses of the rules over whole runs of counting and scanning. */
module CountClauses {
  import opened Strings
  import opened Wrappers
  import opened Records
  import opened Statistics
  import opened Checks
  import opened CountRuns

  // What a scanner evaluates the rules on.
  function ViewOf(rows: map<Row, Count>, e: Event, text: Text): View {
    View(text, e.report.typ, e.report.ip, e.report.system, e.report.uptime, e.v, map r | r in rows :: rows[r].count, false)
  }

  lemma RunLength(states: seq<State>, actions: seq<Action>)
    requires Run(states, actions)
    ensures |states| == |actions| + 1
  {
  }

  // Rules with a count clause on the tracked value of a type.
  predicate CountsValue(r: Rule, typ: string) {
    Tracked(typ) && r.source == typ && MainField(typ) in r.clauses && r.clauses[MainField(typ)].Count?
  }

  // The number that the clause asks for, when its text is one.
  function Asked(r: Rule, typ: string, text: Text): Option<int>
    requires CountsValue(r, typ)
  {
    text.atoi(r.clauses[MainField(typ)].data)
  }

  // The scan in a state: whether the clause matches.
  predicate ClauseMatches(s: State, id: Id, r: Rule, text: Text)
    requires id in s.events && CountsValue(r, s.events[id].report.typ)
  {
    var e := s.events[id];
    Matches(r, ViewOf(s.rows, e, text), MainField(e.report.typ))
  }

  lemma ShortenedTwice(typ: string, v: Record)
    requires Tracked(typ)
    ensures Shortened(typ, Shortened(typ, v)) == Shortened(typ, v)
  {
    BeforeColonIdempotent(Get(v, MainField(typ)));
  }

  // Evaluating the rule reads the row that counting wrote: the clause matches
  // exactly when it asks for the count that the scan sees.
  lemma ClauseReadsItsRow(states: seq<State>, actions: seq<Action>, i: nat, id: Id, r: Rule, text: Text)
    requires Run(states, actions) && i < |states| && id in states[i].events
    requires CountsValue(r, states[i].events[id].report.typ)
    ensures ClauseMatches(states[i], id, r, text)
       <==> Asked(r, states[i].events[id].report.typ, text) == Some(CountOf(states[i].rows, RowFor(states[i].events[id])))
  {
    var s, e := states[i], states[i].events[id];
    var a := WasCounted(states, actions, i, id);
    EventStays(states, actions, a + 1, i, id);
    ShortenedTwice(e.report.typ, actions[a].v);
    RunKeepsInv(states, actions, i);
    assert RowFor(e) in s.rows;
    assert e.report.typ == "connection" ==> BeforeColon(RowFor(e).info) == RowFor(e).info;
  }

  // In every run, a clause that asks for n matches a record exactly when n is
  // its ordinal and the occurrences counted between its counting and its scan.
  lemma MatchIsExact(states: seq<State>, actions: seq<Action>, a: nat, b: nat, r: Rule, text: Text)
    requires Run(states, actions) && a < |actions| && b < |actions|
    requires actions[a].CountRecord? && actions[b] == ScanRecord(actions[a].id)
    requires CountsValue(r, actions[a].report.typ)
    ensures a < b
    ensures var id, row := actions[a].id, CountedRow(actions[a]);
      && id in states[b].events && states[b].events[id].report == actions[a].report
      && (ClauseMatches(states[b], id, r, text) <==>
           Asked(r, actions[a].report.typ, text)
             == Some(CountOf(states[0].rows, row) + Counts(actions, 0, a + 1, row) + Counts(actions, a + 1, b, row)))
  {
    hide *;
    ScanSeesLaterCounts(states, actions, a, b);
    RunLength(states, actions);
    ClauseReadsItsRow(states, actions, b, actions[a].id, r, text);
  }

  // Every scan directly follows the counting of its record.
  predicate Prompt(actions: seq<Action>) {
    forall i :: 0 <= i < |actions| && actions[i].ScanRecord? ==>
      i > 0 && actions[i - 1].CountRecord? && actions[i - 1].id == actions[i].id
  }

  // Scanned at once, a record matches "count n" exactly when it is the n-th.
  lemma PromptScanSeesOrdinal(states: seq<State>, actions: seq<Action>, b: nat, r: Rule, text: Text)
    requires Run(states, actions) && Prompt(actions) && b < |actions| && actions[b].ScanRecord?
    requires CountsValue(r, actions[b - 1].report.typ)
    ensures var e := states[b].events[actions[b].id];
      ClauseMatches(states[b], actions[b].id, r, text) <==> Asked(r, e.report.typ, text) == Some(e.phase.ordinal)
  {
    ScanSeesLaterCounts(states, actions, b - 1, b);
    RunLength(states, actions);
    hide Run, RowOf, CountOf, CountedRow, ClauseMatches, Asked;
    ClauseReadsItsRow(states, actions, b, actions[b].id, r, text);
  }

  // The records of a row whose scan, up to step i, found the clause matching.
  ghost function MatchedIds(states: seq<State>, actions: seq<Action>, i: nat, row: Row, r: Rule, text: Text): set<Id>
    requires Run(states, actions) && i < |states| && CountsValue(r, row.typ)
  {
    set b | 0 <= b < i && MatchesAt(states, actions, b, row, r, text) :: actions[b].id
  }

  ghost predicate MatchesAt(states: seq<State>, actions: seq<Action>, b: nat, row: Row, r: Rule, text: Text)
    requires Run(states, actions) && b < |actions| && CountsValue(r, row.typ)
  {
    && actions[b].ScanRecord?
    && RowFor(states[b].events[actions[b].id]) == row
    && ClauseMatches(states[b], actions[b].id, r, text)
  }

  // What a matching scan leaves behind: a record of the row that saw the number
  // the clause asks for.
  lemma MatchLeavesSeen(states: seq<State>, actions: seq<Action>, i: nat, b: nat, row: Row, r: Rule, text: Text)
    requires Run(states, actions) && b < i < |states| && CountsValue(r, row.typ) && MatchesAt(states, actions, b, row, r, text)
    ensures actions[b].id in states[i].events
    ensures var e := states[i].events[actions[b].id];
      RowFor(e) == row && e.phase.Scanned? && Asked(r, row.typ, text) == Some(e.phase.seen)
  {
    var id := actions[b].id;
    ClauseReadsItsRow(states, actions, b, id, r, text);
    ScanStep(states, actions, b);
    EventStays(states, actions, b + 1, i, id);
  }

  // In every run, a record for which a rule's "count n" clause matches is one of
  // the first n counted, and no more than n of them match; with counts already
  // there, no more than are left up to n. Without a number nothing matches.
  lemma MatchesAreBounded(states: seq<State>, actions: seq<Action>, i: nat, row: Row, r: Rule, text: Text)
    requires Run(states, actions) && i < |states| && CountsValue(r, row.typ)
    ensures var ids, c := MatchedIds(states, actions, i, row, r, text), CountOf(states[0].rows, row);
      match Asked(r, row.typ, text)
      case None => ids == {}
      case Some(n) =>
        && (forall id :: id in ids ==> id in states[i].events && RowFor(states[i].events[id]) == row
                                       && c < states[i].events[id].phase.ordinal <= n)
        && |ids| <= if n > c then n - c else 0
  {
    var ids, s, c := MatchedIds(states, actions, i, row, r, text), states[i], CountOf(states[0].rows, row);
    RunKeepsInv(states, actions, i);
    forall id | id in ids
      ensures id in s.events && RowFor(s.events[id]) == row && s.events[id].phase.Scanned?
      ensures Asked(r, row.typ, text) == Some(s.events[id].phase.seen)
    {
      var b :| 0 <= b < i && MatchesAt(states, actions, b, row, r, text) && actions[b].id == id;
      MatchLeavesSeen(states, actions, i, b, row, r, text);
    }
    hide MatchedIds, Asked, CountOf;
    if ids != {} {
      var n := Asked(r, row.typ, text).value;
      OrdinalsAreDistinct(s, ids, row);
      RangeSize(c, n, Ordinals(s, ids));
    }
  }

  // When no scan saw the number that the clause asks for, nothing matched.
  lemma NothingMatches(states: seq<State>, actions: seq<Action>, i: nat, row: Row, r: Rule, text: Text)
    requires Run(states, actions) && i < |states| && CountsValue(r, row.typ)
    requires forall id :: id in states[i].events && states[i].events[id].phase.Scanned? ==>
               Asked(r, row.typ, text) != Some(states[i].events[id].phase.seen)
    ensures MatchedIds(states, actions, i, row, r, text) == {}
  {
    RunLength(states, actions);
    forall b | 0 <= b < i
      ensures !MatchesAt(states, actions, b, row, r, text)
    {
      hide *;
      if MatchesAt(states, actions, b, row, r, text) {
        MatchLeavesSeen(states, actions, i, b, row, r, text);
      }
    }
  }

  // Without the promptness a rule can be passed over: two records counted
  // before either is scanned, and a "count 1" clause matches neither.
  lemma LateScansMissTheCount(report: TrackedReport, v: Record)
    ensures exists states: seq<State>, actions: seq<Action> ::
      && Run(states, actions) && |actions| == 4 && states[4].events.Keys == {0, 1}
      && (forall id :: id in states[4].events ==> states[4].events[id].phase.Scanned?)
      && states[4].events[0].phase.ordinal == 1
      && forall row: Row, r: Rule, text: Text :: CountsValue(r, row.typ) && Asked(r, row.typ, text) == Some(1) ==>
           MatchedIds(states, actions, 4, row, r, text) == {}
  {
    var states, actions := LateRun(report, v);
    forall row: Row, r: Rule, text: Text | CountsValue(r, row.typ) && Asked(r, row.typ, text) == Some(1)
      ensures MatchedIds(states, actions, 4, row, r, text) == {}
    {
      hide *;
      NothingMatches(states, actions, 4, row, r, text);
    }
  }

  lemma LateRun(report: TrackedReport, v: Record) returns (states: seq<State>, actions: seq<Action>)
    ensures Run(states, actions) && |actions| == 4
    ensures var v' := Shortened(report.typ, v);
      states[4].events == map[0 := Event(report, v', Scanned(1, 2)), 1 := Event(report, v', Scanned(2, 2))]
  {
    hide Bumped, Updated, RowOf, Tracked;
    var v' := Shortened(report.typ, v);
    actions := [CountRecord(0, report, v), CountRecord(1, report, v), ScanRecord(0), ScanRecord(1)];
    var s0 := State(map[], map[]);
    var s1 := Next(s0, actions[0]);
    var s2 := Next(s1, actions[1]);
    NextCounts(s0, actions[0]);
    NextCounts(s1, actions[1]);
    assert s2.events == map[0 := Event(report, v', Waiting(1)), 1 := Event(report, v', Waiting(2))];
    var s3 := s2.(events := map[0 := Event(report, v', Scanned(1, 2)), 1 := Event(report, v', Waiting(2))]);
    var s4 := s2.(events := map[0 := Event(report, v', Scanned(1, 2)), 1 := Event(report, v', Scanned(2, 2))]);
    assert s3 == Next(s2, actions[2]) && s4 == Next(s3, actions[3]);
    states := [s0, s1, s2, s3, s4];
    assert Enabled(s0, actions[0]) && Enabled(s1, actions[1]) && Enabled(s2, actions[2]) && Enabled(s3, actions[3]);
    hide Next, Enabled;
    assert Run(states, actions);
  }
}
