/** The evaluation of the detection rules: server/safecheck/check.go. */
module Checks {
  import opened Wrappers
  import opened Strings
  import opened Records
  import opened Notices

  // The library functions on text that the rules use.
  datatype Text = Text(lower: string -> string, matches: (string, string) -> bool, atoi: string -> Option<int>)

  datatype Clause = Regex(data: string) | NonRegex(data: string) | Literal(data: string) | Count(data: string) | Unknown

  datatype Rule = Rule(name: string, description: string, level: int, source: string, system: string,
                       clauses: map<string, Clause>, and: bool)

  // What a check run sees: the event, one of its records, the counts and the mode.
  datatype View = View(text: Text, typ: string, ip: string, system: string, time: int,
                       v: Record, counts: map<Row, int>, learn: bool)

  predicate Applies(r: Rule, w: View) {
    (w.system == r.system || r.system == "all") && w.typ == r.source
  }

  predicate Matches(r: Rule, w: View, k: string)
    requires k in r.clauses
  {
    var value := Get(w.v, k);
    match r.clauses[k]
    case Regex(data) => w.text.matches(data, w.text.lower(value))
    case NonRegex(data) => value != "" && !w.text.matches(data, w.text.lower(value))
    case Literal(data) => w.text.lower(value) == w.text.lower(data)
    case Count(data) => w.learn || CountMatches(data, r.source, value, w)
    case Unknown => false
  }

  predicate CountMatches(data: string, source: string, value: string, w: View) {
    var row := Row(source, if w.typ == "connection" then BeforeColon(value) else value);
    row in w.counts && w.text.atoi(data) == Some(w.counts[row])
  }

  ghost function Matched(r: Rule, w: View): set<string> {
    set k | k in r.clauses && Matches(r, w, k)
  }

  // An AND rule warns iff every clause matches, an OR rule iff one does.
  ghost predicate Warns(r: Rule, w: View) {
    if r.and then forall k :: k in r.clauses ==> Matches(r, w, k)
    else exists k :: k in r.clauses && Matches(r, w, k)
  }

  // The record's values for a set of keys.
  ghost function Values(v: Record, ks: set<string>): multiset<string> {
    if ks == {} then multiset{} else
      var k :| k in ks;
      Values(v, ks - {k}) + multiset{Get(v, k)}
  }

  lemma {:induction false} ValuesStep(v: Record, ks: set<string>, k: string)
    requires k in ks
    ensures Values(v, ks) == Values(v, ks - {k}) + multiset{Get(v, k)}
    decreases ks
  {
    var p :| p in ks && Values(v, ks) == Values(v, ks - {p}) + multiset{Get(v, p)};
    if p != k {
      ValuesStep(v, ks - {p}, k);
      ValuesStep(v, ks - {k}, p);
      assert ks - {p} - {k} == ks - {k} - {p};
    }
  }

  ghost function Arrange(m: multiset<string>): (s: seq<string>)
    ensures multiset(s) == m
  {
    if m == multiset{} then [] else
      var x :| x in m;
      Arrange(m - multiset{x}) + [x]
  }

  // What a rule reports: the matched values in sorted order.
  ghost function Report(r: Rule, w: View): string {
    Join(Sort(Arrange(Values(w.v, Matched(r, w)))), "|")
  }

  ghost function NoticeOf(r: Rule, w: View): Notice {
    Notice(w.typ, w.ip, Report(r, w), 0, Unset, r.name, r.level, r.description, w.time)
  }

  // The warnings of a list of rules, in its order.
  ghost function WarningsOf(rs: seq<Rule>, w: View): seq<Notice> {
    if rs == [] then []
    else
      var before, r := WarningsOf(rs[..|rs| - 1], w), rs[|rs| - 1];
      if Applies(r, w) && Warns(r, w) then before + [NoticeOf(r, w)] else before
  }

  // Any arrangement of the matched values sorts to the same report.
  lemma ReportOfArrangement(r: Rule, w: View, vulInfo: seq<string>)
    requires multiset(vulInfo) == Values(w.v, Matched(r, w))
    ensures Join(Sort(vulInfo), "|") == Report(r, w)
  {
    SortedUnique(Sort(vulInfo), Sort(Arrange(Values(w.v, Matched(r, w)))));
  }

  // One clause: a match lowers the counter and adds the value to the report.
  method EvaluateClause(r: Rule, w: View, k: string, count: int, values: seq<string>) returns (i: int, vulInfo: seq<string>)
    requires k in r.clauses
    ensures i == count - (if Matches(r, w, k) then 1 else 0)
    ensures vulInfo == values + (if Matches(r, w, k) then [Get(w.v, k)] else [])
  {
    i, vulInfo := count, values;
    var value := Get(w.v, k);
    match r.clauses[k] {
      case Regex(data) =>
        if w.text.matches(data, w.text.lower(value)) {
          i := i - 1;
          vulInfo := vulInfo + [value];
        }
      case NonRegex(data) =>
        if value != "" && !w.text.matches(data, w.text.lower(value)) {
          i := i - 1;
          vulInfo := vulInfo + [value];
        }
      case Literal(data) =>
        if w.text.lower(value) == w.text.lower(data) {
          i := i - 1;
          vulInfo := vulInfo + [value];
        }
      case Count(data) =>
        if w.learn {
          i := i - 1;
          vulInfo := vulInfo + [value];
          return;
        }
        var keyword := if w.typ == "connection" then BeforeColon(value) else value;
        if Row(r.source, keyword) !in w.counts {
          return;
        }
        var n := w.text.atoi(data);
        if n.None? {
          return;
        }
        if w.counts[Row(r.source, keyword)] == n.value {
          i := i - 1;
          vulInfo := vulInfo + [value];
        }
      case Unknown =>
    }
  }

  // The loop over the clauses, which visits them in any order.
  method Evaluate(r: Rule, w: View) returns (i: int, vulInfo: seq<string>)
    ensures i == |r.clauses| - |Matched(r, w)|
    ensures |vulInfo| == |Matched(r, w)|
    ensures multiset(vulInfo) == Values(w.v, Matched(r, w))
  {
    hide Matches, Get, Values;
    i := |r.clauses|;
    vulInfo := [];
    NoValues(w.v);
    var todo := r.clauses.Keys;
    ghost var found: set<string> := {};
    while todo != {}
      invariant todo <= r.clauses.Keys
      invariant found == Matched(r, w) - todo
      invariant i == |r.clauses| - |found| && |vulInfo| == |found|
      invariant multiset(vulInfo) == Values(w.v, found)
    {
      var k :| k in todo;
      todo := todo - {k};
      if Matches(r, w, k) {
        AddValue(w.v, found, k);
        found := found + {k};
      }
      i, vulInfo := EvaluateClause(r, w, k, i, vulInfo);
    }
    assert found == Matched(r, w);
  }

  lemma NoValues(v: Record)
    ensures Values(v, {}) == multiset{}
  {
  }

  lemma AddValue(v: Record, ks: set<string>, k: string)
    requires k !in ks
    ensures Values(v, ks + {k}) == Values(v, ks) + multiset{Get(v, k)}
  {
    ValuesStep(v, ks + {k}, k);
    assert ks + {k} - {k} == ks;
  }

  // i == 0 and i < |clauses| are what the two kinds of rule ask for.
  lemma CounterMeansWarns(r: Rule, w: View)
    ensures var i := |r.clauses| - |Matched(r, w)|;
      Warns(r, w) <==> if r.and then i == 0 else i < |r.clauses|
  {
    var ks := Matched(r, w);
    assert ks <= r.clauses.Keys;
    assert |r.clauses| == |r.clauses.Keys| == |ks| + |r.clauses.Keys - ks| by {
      assert r.clauses.Keys == ks + (r.clauses.Keys - ks);
    }
    if r.and {
      if |ks| == |r.clauses| {
        assert r.clauses.Keys - ks == {};
        forall k | k in r.clauses
          ensures Matches(r, w, k)
        {
          assert k !in r.clauses.Keys - ks;
        }
      } else {
        var k :| k in r.clauses.Keys - ks;
        assert !Matches(r, w, k);
      }
    } else if ks != {} {
      var k :| k in ks;
      assert Matches(r, w, k);
    }
  }

  // Whether a rule warns, and with which value.
  method Decide(r: Rule, w: View) returns (warns: bool, report: string)
    ensures warns <==> Warns(r, w)
    ensures report == Report(r, w)
  {
    hide Warns, Report, Matched, Values;
    var i, vulInfo := Evaluate(r, w);
    CounterMeansWarns(r, w);
    ReportOfArrangement(r, w, vulInfo);
    warns := if r.and then i == 0 else i < |r.clauses|;
    report := Join(Sort(vulInfo), "|");
  }

  // In observation mode every count clause matches, so a rule that warns
  // outside it warns in it too.
  lemma ObservationWarnsMore(r: Rule, w: View)
    requires Warns(r, w)
    ensures Warns(r, w.(learn := true))
  {
    assert forall k :: k in r.clauses && Matches(r, w, k) ==> Matches(r, w.(learn := true), k);
  }

  // The rule with one of its clauses only.
  function Only(r: Rule, k: string): Rule
    requires k in r.clauses
  {
    r.(clauses := map[k := r.clauses[k]])
  }

  // A rule with a single clause that applies: the one warning it raises, with the
  // value of the record, and exactly when.
  lemma SingleClauseWarns(r: Rule, w: View, k: string)
    requires (w.system == r.system || r.system == "all") && w.typ == r.source
    requires r.clauses.Keys == {k}
    ensures var c, value, raised := r.clauses[k], (if k in w.v then w.v[k] else ""), WarningsOf([r], w);
      && (raised == [] || raised == [Notice(w.typ, w.ip, value, 0, Unset, r.name, r.level, r.description, w.time)])
      && (raised != [] <==> match c
           case Regex(data) => w.text.matches(data, w.text.lower(value))
           case NonRegex(data) => value != "" && !w.text.matches(data, w.text.lower(value))
           case Literal(data) => w.text.lower(value) == w.text.lower(data)
           case Count(data) =>
             w.learn ||
             var row := Row(r.source, if w.typ == "connection" then BeforeColon(value) else value);
             row in w.counts && w.text.atoi(data) == Some(w.counts[row])
           case Unknown => false)
  {
    WarningsOfOne(r, w);
    ClauseAlone(r, w, k);
    if Matches(r, w, k) {
      ReportOfOne(r, w, k);
    }
    hide Report, Matched, Values;
  }

  lemma WarningsOfOne(r: Rule, w: View)
    ensures WarningsOf([r], w) == if Applies(r, w) && Warns(r, w) then [NoticeOf(r, w)] else []
  {
    assert [r][..0] == [];
  }

  lemma ClauseAlone(r: Rule, w: View, k: string)
    requires r.clauses.Keys == {k}
    ensures Warns(r, w) <==> Matches(r, w, k)
  {
    assert k in r.clauses.Keys;
    hide Matches;
  }

  lemma ReportOfOne(r: Rule, w: View, k: string)
    requires k in r.clauses && Matched(r, w) == {k}
    ensures Report(r, w) == Get(w.v, k)
  {
    hide Get;
    var values := [Get(w.v, k)];
    NoValues(w.v);
    AddValue(w.v, {}, k);
    assert {} + {k} == {k};
    ReportOfArrangement(r, w, values);
    assert Sort(values) == values;
  }

  lemma DoesNotApply(r: Rule, w: View)
    requires (w.system != r.system && r.system != "all") || w.typ != r.source
    ensures WarningsOf([r], w) == []
  {
    WarningsOfOne(r, w);
  }

  // A rule warns when all of its clauses would alone, or, with or, one of them.
  lemma RuleOfClauses(r: Rule, w: View)
    requires Applies(r, w)
    ensures WarningsOf([r], w) != [] <==>
      if r.and then forall k :: k in r.clauses ==> WarningsOf([Only(r, k)], w) != []
      else exists k :: k in r.clauses && WarningsOf([Only(r, k)], w) != []
  {
    hide Matches, Only, WarningsOf, Applies, Report;
    WarningsOfOne(r, w);
    forall k | k in r.clauses
      ensures WarningsOf([Only(r, k)], w) != [] <==> Matches(r, w, k)
    {
      OnlyWarns(r, w, k);
    }
  }

  lemma OnlyWarns(r: Rule, w: View, k: string)
    requires Applies(r, w) && k in r.clauses
    ensures WarningsOf([Only(r, k)], w) != [] <==> Matches(r, w, k)
  {
    hide WarningsOf, Warns, Report;
    WarningsOfOne(Only(r, k), w);
    ClauseAlone(Only(r, k), w, k);
  }

  // Two matching clauses report both values, the lesser one first.
  lemma TwoValuesReported(r: Rule, w: View, j: string, k: string)
    requires Applies(r, w) && j != k && r.clauses.Keys == {j, k}
    requires WarningsOf([Only(r, j)], w) != [] && WarningsOf([Only(r, k)], w) != [] && AtMost(Get(w.v, j), Get(w.v, k))
    ensures WarningsOf([r], w) == [Notice(w.typ, w.ip, Get(w.v, j) + "|" + Get(w.v, k), 0, Unset, r.name, r.level, r.description, w.time)]
  {
    hide Matches, Only, WarningsOf, Applies, Report, AtMost, Values;
    WarningsOfOne(r, w);
    OnlyWarns(r, w, j);
    OnlyWarns(r, w, k);
    assert Matched(r, w) == {j, k};
    assert Warns(r, w);
    ReportOfTwo(r, w, j, k);
  }

  lemma ReportOfTwo(r: Rule, w: View, j: string, k: string)
    requires j != k && Matched(r, w) == {j, k} && AtMost(Get(w.v, j), Get(w.v, k))
    ensures Report(r, w) == Get(w.v, j) + "|" + Get(w.v, k)
  {
    hide *;
    NoValues(w.v);
    AddValue(w.v, {}, j);
    AddValue(w.v, {j}, k);
    assert {} + {j} == {j} && {j} + {k} == {j, k};
    ReportOfArrangement(r, w, [Get(w.v, j), Get(w.v, k)]);
    SortTwo(Get(w.v, j), Get(w.v, k));
    JoinTwo(Get(w.v, j), Get(w.v, k), "|");
  }

  // The warnings of a list of rules are those of its parts, in order.
  lemma {:induction false} WarningsConcat(rs: seq<Rule>, more: seq<Rule>, w: View)
    ensures WarningsOf(rs + more, w) == WarningsOf(rs, w) + WarningsOf(more, w)
    decreases |more|
  {
    hide Applies, Warns, NoticeOf;
    if more == [] {
      assert rs + more == rs;
    } else {
      var n := |more| - 1;
      WarningsConcat(rs, more[..n], w);
      assert (rs + more)[..|rs| + n] == rs + more[..n];
    }
  }

  class Check {
    var view: View
    var value: string
    var description: string
    var source: string
    var level: int
    const cNotice: NoticeCollection

    constructor (view: View, cNotice: NoticeCollection)
      ensures this.view == view && this.cNotice == cNotice
    {
      this.view, this.cNotice := view, cNotice;
      value, description, source, level := "", "", "", 0;
    }

    method Warning()
      requires cNotice.Valid()
      modifies cNotice
      ensures var n := Notice(view.typ, view.ip, value, 0, Unset, source, level, description, view.time);
        && cNotice.Valid()
        && cNotice.warnings == old(cNotice.warnings) + [n]
        && (!view.learn ==> cNotice.State() == Warned(old(cNotice.State()), n))
        && (view.learn ==> SameVisible(old(cNotice.docs), cNotice.docs) && cNotice.sent == old(cNotice.sent))
    {
      cNotice.Warning(view.learn, Notice(view.typ, view.ip, value, 0, Unset, source, level, description, view.time));
    }

    // One rule that applies to the event: its clauses are visited in any order.
    method CheckRule(r: Rule)
      requires cNotice.Valid()
      modifies this`value, this`description, this`source, this`level, cNotice
      ensures cNotice.Valid()
      ensures cNotice.warnings == old(cNotice.warnings) + (if Warns(r, view) then [NoticeOf(r, view)] else [])
      ensures !view.learn && Warns(r, view) ==> cNotice.State() == Warned(old(cNotice.State()), NoticeOf(r, view))
      ensures !view.learn && !Warns(r, view) ==> cNotice.State() == old(cNotice.State())
      ensures view.learn ==> SameVisible(old(cNotice.docs), cNotice.docs) && cNotice.sent == old(cNotice.sent)
    {
      hide Warned, Warns, Report, SameVisible, ValidStore;
      SameVisibleReflexive(cNotice.docs);
      var warns, report := Decide(r, view);
      if warns {
        source := r.name;
        level := r.level;
        description := r.description;
        value := report;
        Warning();
      }
    }

    // The warnings raised are those of the rules that apply and match, in the
    // order of the rules, whatever the order of their clauses.
    method Rules(ruleDB: seq<Rule>)
      requires cNotice.Valid()
      modifies this`value, this`description, this`source, this`level, cNotice
      ensures cNotice.Valid()
      ensures cNotice.warnings == old(cNotice.warnings) + WarningsOf(ruleDB, view)
      ensures !view.learn ==> cNotice.State() == WarnedAll(old(cNotice.State()), WarningsOf(ruleDB, view))
      ensures view.learn ==> SameVisible(old(cNotice.docs), cNotice.docs) && cNotice.sent == old(cNotice.sent)
    {
      hide WarningsOf, WarnedAll, Warned, Warns, Report, SameVisible;
      ghost var before, raised := cNotice.State(), cNotice.warnings;
      NoWarnings(before, view);
      for j := 0 to |ruleDB|
        invariant cNotice.Valid()
        invariant cNotice.warnings == raised + WarningsOf(ruleDB[..j], view)
        invariant !view.learn ==> cNotice.State() == WarnedAll(before, WarningsOf(ruleDB[..j], view))
        invariant view.learn ==> SameVisible(before.docs, cNotice.docs) && cNotice.sent == before.sent
      {
        var r := ruleDB[j];
        ghost var docs := cNotice.docs;
        WarningsOfStep(ruleDB, j, view);
        if (view.system != r.system && r.system != "all") || view.typ != r.source {
          continue;
        }
        CheckRule(r);
        WarnedAllStep(before, WarningsOf(ruleDB[..j], view), NoticeOf(r, view));
        if view.learn {
          SameVisibleTransitive(before.docs, docs, cNotice.docs);
        }
      }
      assert ruleDB[..|ruleDB|] == ruleDB;
    }
  }

  lemma SameVisibleReflexive(a: Docs)
    ensures SameVisible(a, a)
  {
  }

  lemma NoWarnings(s: Store, w: View)
    ensures WarningsOf([], w) == [] && WarnedAll(s, []) == s && SameVisible(s.docs, s.docs)
  {
  }

  lemma WarningsOfStep(rs: seq<Rule>, j: nat, w: View)
    requires j < |rs|
    ensures WarningsOf(rs[..j + 1], w) ==
      if Applies(rs[j], w) && Warns(rs[j], w) then WarningsOf(rs[..j], w) + [NoticeOf(rs[j], w)]
      else WarningsOf(rs[..j], w)
  {
    assert rs[..j + 1][..j] == rs[..j];
  }

  lemma SameVisibleTransitive(a: Docs, b: Docs, c: Docs)
    requires SameVisible(a, b) && SameVisible(b, c)
    ensures SameVisible(a, c)
  {
  }

  lemma WarnedAllStep(s: Store, ns: seq<Notice>, n: Notice)
    ensures WarnedAll(s, ns + [n]) == Warned(WarnedAll(s, ns), n)
  {
    assert (ns + [n])[..|ns|] == ns;
  }
}
