/** Counting and scanning of records, interleaved: every record is counted, then
    queued, and scanned later by one of the scanners, outside observation mode. */
module CountRuns {
  import opened Records
  import opened Statistics

  type Id = nat

  datatype Report = Report(typ: string, ip: string, system: string, uptime: int)

  // Reports of the other types are not counted.
  type TrackedReport = r: Report | Tracked(r.typ) witness Report("process", "", "", 0)

  // Counting gives a record an ordinal, the count after its own occurrence; a
  // scan sees the count at that time.
  datatype Phase = Waiting(ordinal: nat) | Scanned(ordinal: nat, seen: nat)

  // A record of a report, as counting left it.
  datatype Event = Event(report: TrackedReport, v: Record, phase: Phase)

  datatype State = State(rows: map<Row, Count>, events: map<Id, Event>)

  datatype Action = CountRecord(id: Id, report: TrackedReport, v: Record) | ScanRecord(id: Id)

  function RowFor(e: Event): Row {
    RowOf(e.report.typ, e.v)
  }

  function CountedRow(a: Action): Row
    requires a.CountRecord?
  {
    RowOf(a.report.typ, Shortened(a.report.typ, a.v))
  }

  // 1 when the action counts the row
  function Hits(a: Action, r: Row): nat {
    if a.CountRecord? && CountedRow(a) == r then 1 else 0
  }

  predicate Enabled(s: State, a: Action) {
    match a
    case CountRecord(id, _, _) => id !in s.events
    case ScanRecord(id) => id in s.events && s.events[id].phase.Waiting?
  }

  function Next(s: State, a: Action): State
    requires Enabled(s, a)
  {
    match a
    case CountRecord(id, report, v) =>
      var r := CountedRow(a);
      State(Bumped(s.rows, r, report.ip, report.uptime),
            s.events[id := Event(report, Shortened(report.typ, v), Waiting(CountOf(s.rows, r) + 1))])
    case ScanRecord(id) =>
      var e := s.events[id];
      s.(events := s.events[id := e.(phase := Scanned(e.phase.ordinal, CountOf(s.rows, RowFor(e))))])
  }

  // Runs start with any statistics and no events.
  predicate Run(states: seq<State>, actions: seq<Action>) {
    && |states| == |actions| + 1 && states[0].events == map[]
    && forall i :: 0 <= i < |actions| ==> Enabled(states[i], actions[i]) && states[i + 1] == Next(states[i], actions[i])
  }

  // What a step that counts a record leaves behind.
  lemma CountStep(states: seq<State>, actions: seq<Action>, a: nat)
    requires Run(states, actions) && a < |actions| && actions[a].CountRecord?
    ensures actions[a].id !in states[a].events && actions[a].id in states[a + 1].events
    ensures var e, r := states[a + 1].events[actions[a].id], CountedRow(actions[a]);
      && e.report == actions[a].report && e.v == Shortened(actions[a].report.typ, actions[a].v) && RowFor(e) == r
      && e.phase == Waiting(CountOf(states[a].rows, r) + 1)
  {
    assert states[a + 1] == Next(states[a], actions[a]);
  }

  lemma ScanStep(states: seq<State>, actions: seq<Action>, b: nat)
    requires Run(states, actions) && b < |actions| && actions[b].ScanRecord?
    ensures actions[b].id in states[b].events && actions[b].id in states[b + 1].events
    ensures var e := states[b].events[actions[b].id];
      && e.phase.Waiting?
      && states[b + 1].events[actions[b].id] == e.(phase := Scanned(e.phase.ordinal, CountOf(states[b].rows, RowFor(e))))
  {
    assert states[b + 1] == Next(states[b], actions[b]);
  }

  // How a step changes the counts.
  lemma NextCounts(s: State, a: Action)
    requires Enabled(s, a)
    ensures forall r :: CountOf(Next(s, a).rows, r) == CountOf(s.rows, r) + Hits(a, r)
  {
  }

  lemma StepCounts(states: seq<State>, actions: seq<Action>, j: nat, r: Row)
    requires Run(states, actions) && j < |actions|
    ensures CountOf(states[j + 1].rows, r) == CountOf(states[j].rows, r) + Hits(actions[j], r)
  {
    NextCounts(states[j], actions[j]);
  }

  // Counts only grow, and ordinals lie between the initial count and the current one.
  ghost predicate Bounded(s0: State, s: State) {
    && (forall r :: CountOf(s0.rows, r) <= CountOf(s.rows, r))
    && forall id :: id in s.events ==>
         CountOf(s0.rows, RowFor(s.events[id])) < s.events[id].phase.ordinal <= CountOf(s.rows, RowFor(s.events[id]))
  }

  // No two records of a row share an ordinal.
  predicate Distinct(s: State) {
    forall id, id' :: id in s.events && id' in s.events && id != id' && RowFor(s.events[id]) == RowFor(s.events[id'])
      ==> s.events[id].phase.ordinal != s.events[id'].phase.ordinal
  }

  // A scan sees at least the ordinal of its record.
  predicate SeenLate(s: State) {
    forall id :: id in s.events && s.events[id].phase.Scanned? ==> s.events[id].phase.ordinal <= s.events[id].phase.seen
  }

  ghost predicate Inv(s0: State, s: State) {
    Bounded(s0, s) && Distinct(s) && SeenLate(s)
  }

  lemma CountKeepsInv(s0: State, s: State, a: Action)
    requires Inv(s0, s) && a.CountRecord? && Enabled(s, a)
    ensures Inv(s0, Next(s, a))
  {
    NextCounts(s, a);
    NewEvent(s, a);
    hide CountOf, RowFor, CountedRow, Next, Enabled;
    KeepsBounded(s0, s, Next(s, a), a);
    KeepsDistinct(s0, s, Next(s, a), a);
  }

  lemma NewEvent(s: State, a: Action)
    requires a.CountRecord? && Enabled(s, a)
    ensures a.id !in s.events
    ensures var t := Next(s, a);
      && t.events == s.events[a.id := t.events[a.id]]
      && RowFor(t.events[a.id]) == CountedRow(a)
      && t.events[a.id].phase == Waiting(CountOf(s.rows, CountedRow(a)) + 1)
  {
  }

  ghost predicate CountedInto(s: State, t: State, a: Action)
    requires a.CountRecord?
  {
    && a.id !in s.events && a.id in t.events && t.events == s.events[a.id := t.events[a.id]]
    && RowFor(t.events[a.id]) == CountedRow(a) && t.events[a.id].phase == Waiting(CountOf(s.rows, CountedRow(a)) + 1)
    && forall r :: CountOf(t.rows, r) == CountOf(s.rows, r) + (if CountedRow(a) == r then 1 else 0)
  }

  lemma KeepsBounded(s0: State, s: State, t: State, a: Action)
    requires Bounded(s0, s) && a.CountRecord? && CountedInto(s, t, a)
    ensures Bounded(s0, t)
  {
    hide CountOf, RowFor, CountedRow;
  }

  lemma KeepsDistinct(s0: State, s: State, t: State, a: Action)
    requires Bounded(s0, s) && Distinct(s) && a.CountRecord? && CountedInto(s, t, a)
    ensures Distinct(t)
  {
    hide CountOf, RowFor, CountedRow;
    assert forall x :: x in s.events && RowFor(s.events[x]) == CountedRow(a) ==> s.events[x].phase.ordinal <= CountOf(s.rows, CountedRow(a));
    hide Bounded;
  }

  lemma ScanKeepsInv(s0: State, s: State, a: Action)
    requires Inv(s0, s) && a.ScanRecord? && Enabled(s, a)
    ensures Inv(s0, Next(s, a))
  {
    var t := Next(s, a);
    assert t.rows == s.rows;
    hide CountOf, RowOf;
    assert Bounded(s0, t);
    assert Distinct(t);
  }

  lemma NextKeepsInv(s0: State, s: State, a: Action)
    requires Inv(s0, s) && Enabled(s, a)
    ensures Inv(s0, Next(s, a))
  {
    hide Inv, Next;
    match a
    case CountRecord(_, _, _) => CountKeepsInv(s0, s, a);
    case ScanRecord(_) => ScanKeepsInv(s0, s, a);
  }

  lemma {:induction false} RunKeepsInv(states: seq<State>, actions: seq<Action>, i: nat)
    requires Run(states, actions) && i < |states|
    ensures Inv(states[0], states[i])
  {
    if i > 0 {
      RunKeepsInv(states, actions, i - 1);
      NextKeepsInv(states[0], states[i - 1], actions[i - 1]);
    }
  }

  // Records keep their report, their content and their ordinal, and a scan is
  // not repeated.
  lemma {:induction false} EventStays(states: seq<State>, actions: seq<Action>, i: nat, j: nat, id: Id)
    requires Run(states, actions) && i <= j < |states| && id in states[i].events
    ensures id in states[j].events
    ensures var e, e' := states[i].events[id], states[j].events[id];
      e'.report == e.report && e'.v == e.v && e'.phase.ordinal == e.phase.ordinal && (e.phase.Scanned? ==> e' == e)
    decreases j
  {
    if i < j {
      EventStays(states, actions, i, j - 1, id);
      assert states[j] == Next(states[j - 1], actions[j - 1]);
    }
  }

  // How often the actions from i up to j count a row.
  function Counts(actions: seq<Action>, i: nat, j: nat, r: Row): nat
    requires i <= j <= |actions|
    decreases j
  {
    if i == j then 0
    else Counts(actions, i, j - 1, r) + Hits(actions[j - 1], r)
  }

  lemma {:induction false} NoneCounted(actions: seq<Action>, i: nat, j: nat, r: Row)
    requires i <= j <= |actions|
    ensures Counts(actions, i, j, r) == 0 <==> forall l :: i <= l < j && actions[l].CountRecord? ==> CountedRow(actions[l]) != r
    decreases j
  {
    hide CountedRow;
    if i < j {
      NoneCounted(actions, i, j - 1, r);
    }
  }

  lemma {:induction false} AddHits(states: seq<State>, actions: seq<Action>, i: nat, j: nat, r: Row)
    requires i <= j <= |actions| < |states|
    requires forall k :: i <= k < j ==> CountOf(states[k + 1].rows, r) == CountOf(states[k].rows, r) + Hits(actions[k], r)
    ensures CountOf(states[j].rows, r) == CountOf(states[i].rows, r) + Counts(actions, i, j, r)
    decreases j
  {
    hide CountOf, Hits;
    if i < j {
      AddHits(states, actions, i, j - 1, r);
    }
  }

  // The count of a row is what it was, and the times it was counted since.
  lemma CountsTrack(states: seq<State>, actions: seq<Action>, i: nat, j: nat, r: Row)
    requires Run(states, actions) && i <= j < |states|
    ensures CountOf(states[j].rows, r) == CountOf(states[i].rows, r) + Counts(actions, i, j, r)
  {
    forall k | i <= k < j
      ensures CountOf(states[k + 1].rows, r) == CountOf(states[k].rows, r) + Hits(actions[k], r)
    {
      StepCounts(states, actions, k, r);
    }
    AddHits(states, actions, i, j, r);
  }

  // The hosts of a row are those it had, and those of the reports counted since.
  lemma {:induction false} HostsTrack(states: seq<State>, actions: seq<Action>, i: nat, j: nat, r: Row, ip: string)
    requires Run(states, actions) && i <= j < |states|
    ensures ip in ServersOf(states[j].rows, r) <==>
      ip in ServersOf(states[i].rows, r) || exists l :: i <= l < j && CountsOn(actions[l], r, ip)
    decreases j
  {
    if i < j {
      HostsTrack(states, actions, i, j - 1, r, ip);
      StepHosts(states, actions, j - 1, r, ip);
      hide Run, ServersOf, CountsOn;
    }
  }

  predicate CountsOn(a: Action, r: Row, ip: string) {
    a.CountRecord? && CountedRow(a) == r && a.report.ip == ip
  }

  lemma StepHosts(states: seq<State>, actions: seq<Action>, j: nat, r: Row, ip: string)
    requires Run(states, actions) && j < |actions|
    ensures ip in ServersOf(states[j + 1].rows, r) <==> ip in ServersOf(states[j].rows, r) || CountsOn(actions[j], r, ip)
  {
    assert states[j + 1] == Next(states[j], actions[j]);
  }

  // Every record in the system was counted at some step.
  lemma {:induction false} WasCounted(states: seq<State>, actions: seq<Action>, i: nat, id: Id) returns (a: nat)
    requires Run(states, actions) && i < |states| && id in states[i].events
    ensures a < i && actions[a].CountRecord? && actions[a].id == id
  {
    a := i - 1;
    assert states[i] == Next(states[a], actions[a]);
    if id in states[a].events {
      a := WasCounted(states, actions, a, id);
    }
  }

  // In every run, the scan of a record sees its ordinal and the occurrences of
  // the same value counted in between.
  lemma ScanSeesLaterCounts(states: seq<State>, actions: seq<Action>, a: nat, b: nat)
    requires Run(states, actions) && a < |actions| && b < |actions|
    requires actions[a].CountRecord? && actions[b] == ScanRecord(actions[a].id)
    ensures a < b && actions[a].id in states[b].events && actions[a].id in states[b + 1].events
    ensures var e, r := states[b].events[actions[a].id], CountedRow(actions[a]);
      && e.report == actions[a].report && RowFor(e) == r
      && e.phase.ordinal == CountOf(states[0].rows, r) + Counts(actions, 0, a + 1, r)
      && CountOf(states[b].rows, r) == e.phase.ordinal + Counts(actions, a + 1, b, r)
      && states[b + 1].events[actions[a].id] == e.(phase := Scanned(e.phase.ordinal, CountOf(states[b].rows, r)))
  {
    assert |states| == |actions| + 1;
    assert Hits(actions[a], CountedRow(actions[a])) == 1;
    hide CountOf, Counts, Hits, RowOf, Run, Shortened;
    var id, r := actions[a].id, CountedRow(actions[a]);
    hide CountedRow;
    CountStep(states, actions, a);
    ScanStep(states, actions, b);
    if b < a {
      EventStays(states, actions, b, a, id);
    }
    EventStays(states, actions, a + 1, b, id);
    StepCounts(states, actions, a, r);
    CountsTrack(states, actions, 0, a + 1, r);
    CountsTrack(states, actions, a + 1, b, r);
  }

  // A scan is on time, seeing just the ordinal of its record, exactly when no
  // record of the same value was counted after it.
  lemma OnTimeExactly(states: seq<State>, actions: seq<Action>, a: nat, b: nat)
    requires Run(states, actions) && a < |actions| && b < |actions|
    requires actions[a].CountRecord? && actions[b] == ScanRecord(actions[a].id)
    ensures a < b && actions[a].id in states[b + 1].events
    ensures var phase := states[b + 1].events[actions[a].id].phase;
      phase.Scanned? && (phase.seen == phase.ordinal <==>
        forall l :: a < l < b && actions[l].CountRecord? ==> CountedRow(actions[l]) != CountedRow(actions[a]))
  {
    ScanSeesLaterCounts(states, actions, a, b);
    NoneCounted(actions, a + 1, b, CountedRow(actions[a]));
  }

  ghost function Ordinals(s: State, ids: set<Id>): set<nat>
    requires ids <= s.events.Keys
  {
    set id | id in ids :: s.events[id].phase.ordinal
  }

  // Different records of one row have different ordinals.
  lemma {:induction false} OrdinalsAreDistinct(s: State, ids: set<Id>, row: Row)
    requires Distinct(s) && ids <= s.events.Keys && forall id :: id in ids ==> RowFor(s.events[id]) == row
    ensures |Ordinals(s, ids)| == |ids|
    decreases ids
  {
    if ids != {} {
      var id :| id in ids;
      OrdinalsAreDistinct(s, ids - {id}, row);
      assert Ordinals(s, ids) == Ordinals(s, ids - {id}) + {s.events[id].phase.ordinal};
      assert s.events[id].phase.ordinal !in Ordinals(s, ids - {id});
    } else {
      assert Ordinals(s, ids) == {};
    }
  }

  lemma {:induction false} RangeSize(lo: nat, hi: nat, s: set<nat>)
    requires lo <= hi && forall x :: x in s ==> lo < x <= hi
    ensures |s| <= hi - lo
    decreases hi
  {
    if lo == hi {
      assert s == {};
    } else {
      RangeSize(lo, hi - 1, s - {hi});
      assert s <= (s - {hi}) + {hi};
      assert |s| <= |s - {hi}| + 1 by {
        if hi in s {
          assert |s - {hi}| == |s| - 1;
        } else {
          assert s - {hi} == s;
        }
      }
    }
  }
}
