/** Whole runs over the notice collection: ten scanners, operators and the
    observation mode, interleaved step by step. */
module NoticeRuns {
  import opened Notices

  type Scanner = nat

  // The steps of the components, as fine as the store makes them atomic.
  datatype Action =
    | CheckIgnored(scanner: Scanner, warning: Notice)  // first half of a warning
    | InsertNotice(scanner: Scanner)                   // second half: insert and notify
    | WriteLearned(id: nat, warning: Notice)           // a warning in observation mode
    | SetStatus(id: nat, status: int, time: int)       // an operator changes one notice
    | MoveOpen(id: nat, status: int)                   // an operator changes an open one along with others
    | OpenLearned(id: nat)                             // observation mode ends
    | RemoveSomeLearned(ids: set<nat>)                 // repair or deletion of learned notices

  // The warnings whose first half is over, by scanner.
  datatype State = State(docs: Docs, nextId: nat, checked: map<Scanner, Notice>)

  // Replacing one notice, unless that breaks the unique index.
  function Replaced(s: State, id: nat, n: Notice): State {
    s.(docs := Put(s.docs, id, n))
  }

  // A new notice, unless its key is taken.
  function Added(s: State, n: Notice): State {
    if KeyFree(s.docs, KeyOf(n), s.nextId) then s.(docs := s.docs[s.nextId := n], nextId := s.nextId + 1) else s
  }

  predicate Enabled(s: State, a: Action) {
    match a
    case CheckIgnored(c, n) => c !in s.checked && n == Open(n)
    case InsertNotice(c) => c in s.checked
    case WriteLearned(id, n) =>
      if id in s.docs then Selected(s.docs[id], n)
      else id == s.nextId && forall i :: i in s.docs ==> !Selected(s.docs[i], n)
    case SetStatus(_, _, _) => true
    case MoveOpen(id, _) => id in s.docs && s.docs[id].status == 0
    case OpenLearned(id) => id in s.docs && Learned(s.docs[id])
    case RemoveSomeLearned(ids) => ids <= LearnedIds(s.docs)
  }

  function Next(s: State, a: Action): State
    requires Enabled(s, a)
  {
    match a
    case CheckIgnored(c, n) => if Ignored(s.docs, TripleOf(n)) then s else s.(checked := s.checked[c := n])
    case InsertNotice(c) => Added(s, s.checked[c]).(checked := s.checked - {c})
    case WriteLearned(id, n) =>
      if id in s.docs then Replaced(s, id, AsLearned(s.docs, id, n)) else Added(s, AsLearned(s.docs, id, n))
    case SetStatus(id, status, time) =>
      if id in s.docs then Replaced(s, id, Changed(s.docs[id], status, At(time))) else s
    case MoveOpen(id, status) => Replaced(s, id, Changed(s.docs[id], status, Unset))
    case OpenLearned(id) => Replaced(s, id, Changed(s.docs[id], 0, Unset))
    case RemoveSomeLearned(ids) => s.(docs := s.docs - ids)
  }

  // A run: each state leads to the next by the action between them.
  predicate Run(states: seq<State>, actions: seq<Action>) {
    && |states| == |actions| + 1
    && Indexed(states[0].docs, states[0].nextId) && states[0].checked == map[]
    && forall i :: 0 <= i < |actions| ==> Enabled(states[i], actions[i]) && states[i + 1] == Next(states[i], actions[i])
  }

  // Step i sends a message to the operators about this triple.
  predicate Notifies(states: seq<State>, actions: seq<Action>, i: nat, t: Triple)
    requires Run(states, actions) && i < |actions|
  {
    && actions[i].InsertNotice?
    && TripleOf(states[i].checked[actions[i].scanner]) == t
    && KeyFree(states[i].docs, KeyOf(states[i].checked[actions[i].scanner]), states[i].nextId)
  }

  // An action of an operator on a notice.
  predicate OperatorActs(a: Action, id: nat) {
    (a.SetStatus? || a.MoveOpen?) && a.id == id
  }

  // The notice is there, the same as it was.
  predicate Holds(s: State, id: nat, n: Notice) {
    id in s.docs && s.docs[id] == n
  }

  predicate Inv(s: State) {
    Indexed(s.docs, s.nextId) && forall c :: c in s.checked ==> s.checked[c] == Open(s.checked[c])
  }

  lemma NextKeepsInv(s: State, a: Action)
    requires Inv(s) && Enabled(s, a)
    ensures Inv(Next(s, a))
  {
  }

  lemma {:induction false} RunKeepsInv(states: seq<State>, actions: seq<Action>, i: nat)
    requires Run(states, actions) && i < |states|
    ensures Inv(states[i])
  {
    if i > 0 {
      RunKeepsInv(states, actions, i - 1);
      NextKeepsInv(states[i - 1], actions[i - 1]);
    }
  }

  // A visible notice stays as it is under every step but an operator's on it.
  lemma ChangeIsOperators(s: State, a: Action, id: nat)
    requires Inv(s) && Enabled(s, a) && id in s.docs && s.docs[id].status < 3
    requires !Holds(Next(s, a), id, s.docs[id])
    ensures OperatorActs(a, id)
  {
  }

  // When a visible notice is gone or different later on, there is a step at
  // which it was still there and an operator changed it, whatever scanners,
  // observation mode and repair do in between.
  lemma {:induction false} ChangedByOperator(states: seq<State>, actions: seq<Action>, i: nat, j: nat, id: nat) returns (k: nat)
    requires Run(states, actions) && i <= j < |states|
    requires id in states[i].docs && states[i].docs[id].status < 3
    requires !Holds(states[j], id, states[i].docs[id])
    ensures i <= k < j && OperatorActs(actions[k], id)
    ensures Holds(states[k], id, states[i].docs[id]) && !Holds(states[k + 1], id, states[i].docs[id])
    decreases j - i
  {
    var p := j - 1;
    if Holds(states[p], id, states[i].docs[id]) {
      RunKeepsInv(states, actions, p);
      ChangeIsOperators(states[p], actions[p], id);
      k := p;
    } else {
      k := ChangedByOperator(states, actions, i, p, id);
    }
  }

  lemma {:induction false} IdsGrow(states: seq<State>, actions: seq<Action>, i: nat, j: nat)
    requires Run(states, actions) && i <= j < |states|
    ensures states[i].nextId <= states[j].nextId
  {
    if i < j {
      IdsGrow(states, actions, i, j - 1);
    }
  }

  // In every run, the notice that came with a message about a triple was
  // changed by an operator before the next message about it.
  lemma NoRepeatWithoutOperator(states: seq<State>, actions: seq<Action>, i: nat, j: nat, t: Triple)
    requires Run(states, actions) && i < j < |actions|
    requires Notifies(states, actions, i, t) && Notifies(states, actions, j, t)
    ensures exists k, n :: i < k < j && OperatorActs(actions[k], states[i].nextId)
                           && TripleOf(n) == t && n == Open(n)
                           && Holds(states[i + 1], states[i].nextId, n)
                           && Holds(states[k], states[i].nextId, n) && !Holds(states[k + 1], states[i].nextId, n)
  {
    var id := states[i].nextId;
    RunKeepsInv(states, actions, i);
    RunKeepsInv(states, actions, j);
    var n, m := states[i].checked[actions[i].scanner], states[j].checked[actions[j].scanner];
    assert states[i + 1].docs[id] == n && n.status == 0;
    assert KeyOf(n) == KeyOf(m);
    IdsGrow(states, actions, i + 1, j);
    assert !Holds(states[j], id, n);
    var k := ChangedByOperator(states, actions, i + 1, j, id);
  }

  // Step k is the check that the insert at step j rests on.
  predicate IsCheckOf(states: seq<State>, actions: seq<Action>, k: nat, j: nat)
    requires Run(states, actions) && k < j < |actions| && actions[j].InsertNotice?
  {
    var c := actions[j].scanner;
    && actions[k] == CheckIgnored(c, states[j].checked[c])
    && forall l :: k < l <= j ==> c in states[l].checked && states[l].checked[c] == states[j].checked[c]
  }

  lemma {:induction false} CheckedEarlier(states: seq<State>, actions: seq<Action>, j: nat, c: Scanner) returns (k: nat)
    requires Run(states, actions) && j < |states| && c in states[j].checked
    ensures k < j && actions[k] == CheckIgnored(c, states[j].checked[c])
    ensures forall l :: k < l <= j ==> c in states[l].checked && states[l].checked[c] == states[j].checked[c]
  {
    var p := j - 1;
    assert states[j] == Next(states[p], actions[p]);
    if c in states[p].checked {
      k := CheckedEarlier(states, actions, p, c);
    } else {
      k := p;
    }
  }

  // A message is sent only when no notice of its triple was ignored at the
  // moment of its check.
  lemma NotifiedOnlyIfNotIgnored(states: seq<State>, actions: seq<Action>, j: nat, t: Triple)
    requires Run(states, actions) && j < |actions| && Notifies(states, actions, j, t)
    ensures exists k :: 0 <= k < j && IsCheckOf(states, actions, k, j)
    ensures forall k :: 0 <= k < j && IsCheckOf(states, actions, k, j) ==> !Ignored(states[k].docs, t)
  {
    var k := CheckedEarlier(states, actions, j, actions[j].scanner);
    assert IsCheckOf(states, actions, k, j);
    forall k | 0 <= k < j && IsCheckOf(states, actions, k, j)
      ensures !Ignored(states[k].docs, t)
    {
      assert states[k + 1] == Next(states[k], actions[k]);
    }
  }

  // The store takes the operator's change.
  predicate Accepted(s: State, a: Action)
    requires a.SetStatus? || a.MoveOpen?
  {
    a.id in s.docs && KeyFree(s.docs, KeyOf(Changed(s.docs[a.id], a.status, if a.SetStatus? then At(a.time) else Unset)), a.id)
  }

  // A change at a time that no notice carries yet is always taken, whatever
  // other notices there are.
  lemma FreshTimeIsAccepted(s: State, id: nat, status: int, time: int)
    requires id in s.docs && forall i :: i in s.docs ==> s.docs[i].uptime != At(time)
    ensures Accepted(s, SetStatus(id, status, time))
    ensures Next(s, SetStatus(id, status, time)).docs == s.docs[id := s.docs[id].(status := status, uptime := At(time))]
  {
  }

  // A status that is set without a time is refused exactly when another notice
  // of the triple has it already, with the same time or none.
  lemma StatusStepExactly(s: State, a: Action)
    requires (a.MoveOpen? || a.OpenLearned?) && Enabled(s, a)
    ensures var n, status := s.docs[a.id], (if a.MoveOpen? then a.status else 0);
      Next(s, a) ==
        if exists i :: i in s.docs && i != a.id && s.docs[i].status == status && s.docs[i].uptime == n.uptime
                       && s.docs[i].typ == n.typ && s.docs[i].ip == n.ip && s.docs[i].info == n.info
        then s else s.(docs := s.docs[a.id := n.(status := status)])
  {
    KeyFreeExactly(s.docs, Changed(s.docs[a.id], if a.MoveOpen? then a.status else 0, Unset), a.id);
    hide KeyFree;
  }

  predicate IgnoredAt(s: State, id: nat, t: Triple) {
    id in s.docs && s.docs[id].status == 2 && TripleOf(s.docs[id]) == t
  }

  // An operator ignores a notice of the triple.
  predicate Ignores(s: State, a: Action, id: nat, t: Triple) {
    OperatorActs(a, id) && Accepted(s, a) && a.status == 2 && TripleOf(s.docs[id]) == t
  }

  // An operator gives a notice another status.
  predicate Restores(s: State, a: Action, id: nat) {
    OperatorActs(a, id) && Accepted(s, a) && a.status != 2
  }

  lemma IgnoredStep(s: State, a: Action, id: nat, t: Triple)
    requires Inv(s) && Enabled(s, a)
    ensures IgnoredAt(Next(s, a), id, t) <==> Ignores(s, a, id, t) || (IgnoredAt(s, id, t) && !Restores(s, a, id))
  {
  }

  // At step l an operator ignores a notice of the triple, and none gives it
  // another status before step j.
  predicate IgnoredFrom(states: seq<State>, actions: seq<Action>, l: nat, j: nat, id: nat, t: Triple)
    requires l < j <= |actions| <= |states|
  {
    Ignores(states[l], actions[l], id, t) && forall m :: l < m < j ==> !Restores(states[m], actions[m], id)
  }

  lemma {:induction false} IgnoredSince(states: seq<State>, actions: seq<Action>, k: nat, j: nat, id: nat, t: Triple)
    requires Run(states, actions) && k <= j < |states| && !IgnoredAt(states[k], id, t)
    ensures IgnoredAt(states[j], id, t) <==> exists l: nat :: k <= l < j && IgnoredFrom(states, actions, l, j, id, t)
    decreases j
  {
    if k < j {
      var p := j - 1;
      RunKeepsInv(states, actions, p);
      IgnoredStep(states[p], actions[p], id, t);
      IgnoredSince(states, actions, k, p, id, t);
      assert IgnoredFrom(states, actions, p, j, id, t) <==> Ignores(states[p], actions[p], id, t);
      forall l | k <= l < p
        ensures IgnoredFrom(states, actions, l, j, id, t)
           <==> IgnoredFrom(states, actions, l, p, id, t) && !Restores(states[p], actions[p], id)
      {
        OneStepMore(states, actions, l, p, id, t);
      }
      hide *;
    }
  }

  lemma OneStepMore(states: seq<State>, actions: seq<Action>, l: nat, p: nat, id: nat, t: Triple)
    requires l < p < |actions| <= |states|
    ensures IgnoredFrom(states, actions, l, p + 1, id, t)
       <==> IgnoredFrom(states, actions, l, p, id, t) && !Restores(states[p], actions[p], id)
  {
    hide Ignores, Restores;
  }

  lemma IgnoredSomewhere(s: State, t: Triple)
    ensures Ignored(s.docs, t) <==> exists id: nat :: IgnoredAt(s, id, t)
  {
    if Ignored(s.docs, t) {
      var id :| id in s.docs && s.docs[id].status == 2 && TripleOf(s.docs[id]) == t;
      assert IgnoredAt(s, id, t);
    }
  }

  // When a message goes out for an ignored triple: exactly when, between its
  // check and its insert, an operator ignored a notice of the triple and none
  // gave that notice another status since.
  lemma NotifiedWhileIgnoredExactly(states: seq<State>, actions: seq<Action>, k: nat, j: nat, t: Triple)
    requires Run(states, actions) && k < j < |actions|
    requires Notifies(states, actions, j, t) && IsCheckOf(states, actions, k, j)
    ensures Ignored(states[j].docs, t) <==> exists l: nat, id: nat :: k < l < j && IgnoredFrom(states, actions, l, j, id, t)
  {
    NotifiedOnlyIfNotIgnored(states, actions, j, t);
    IgnoredSomewhere(states[k], t);
    IgnoredSomewhere(states[j], t);
    forall id: nat
      ensures IgnoredAt(states[j], id, t) <==> exists l: nat :: k <= l < j && IgnoredFrom(states, actions, l, j, id, t)
      ensures !IgnoredFrom(states, actions, k, j, id, t)
    {
      IgnoredSince(states, actions, k, j, id, t);
    }
    hide *;
    if Ignored(states[j].docs, t) {
      var id: nat :| IgnoredAt(states[j], id, t);
      var l: nat :| k <= l < j && IgnoredFrom(states, actions, l, j, id, t);
      assert k < l < j && IgnoredFrom(states, actions, l, j, id, t);
    } else {
      forall l: nat, id: nat | k < l < j
        ensures !IgnoredFrom(states, actions, l, j, id, t)
      {
        assert !IgnoredAt(states[j], id, t);
      }
    }
  }

  // In particular, none goes out when the insert follows its check at once,
  // whatever the other scanners do before.
  lemma UninterruptedRespectsIgnored(states: seq<State>, actions: seq<Action>, j: nat, t: Triple)
    requires Run(states, actions) && 0 < j < |actions|
    requires Notifies(states, actions, j, t) && IsCheckOf(states, actions, j - 1, j)
    ensures !Ignored(states[j].docs, t)
  {
    NotifiedWhileIgnoredExactly(states, actions, j - 1, j, t);
  }

  // It does happen: the operator ignores the open notice after the check.
  lemma IgnoredTooLate(n: Notice)
    requires n == Open(n)
    ensures exists states: seq<State>, actions: seq<Action> :: Run(states, actions) && |actions| == 3
              && Notifies(states, actions, 2, TripleOf(n)) && Ignored(states[2].docs, TripleOf(n))
  {
    var s0 := State(map[0 := n], 1, map[]);
    var actions := [CheckIgnored(0, n), SetStatus(0, 2, 7), InsertNotice(0)];
    var s1 := Next(s0, actions[0]);
    var s2 := Next(s1, actions[1]);
    var s3 := Next(s2, actions[2]);
    var states := [s0, s1, s2, s3];
    assert s2.docs[0] == Changed(n, 2, At(7));
    assert Run(states, actions);
    assert Notifies(states, actions, 2, TripleOf(n));
    assert Ignored(states[2].docs, TripleOf(n));
  }

  // How the end of observation mode comes to collide: a warning, then the same
  // warning again in observation mode.
  lemma CollisionArises(n: Notice)
    requires n == Open(n)
    ensures var docs := map[0 := n, 1 := n.(status := 4)];
      && Indexed(docs, 2) && !Collisionless(docs)
      && exists states: seq<State>, actions: seq<Action> ::
           Run(states, actions) && |actions| == 3 && states[0].docs == map[] && states[3].docs == docs
  {
    var docs := map[0 := n, 1 := n.(status := 4)];
    var all := OpenedSome(docs, LearnedIds(docs));
    assert KeyOf(all[0]) == KeyOf(all[1]);
    var s0 := State(map[], 0, map[]);
    var actions := [CheckIgnored(0, n), InsertNotice(0), WriteLearned(1, n)];
    var s1 := Next(s0, actions[0]);
    var s2 := Next(s1, actions[1]);
    assert s2.docs == map[0 := n];
    var s3 := Next(s2, actions[2]);
    var states := [s0, s1, s2, s3];
    assert states[3].docs == docs;
    assert Run(states, actions);
  }

  // The two steps of a warning, taken one after the other, are the warning
  // method of the collection.
  lemma WarningIsTwoSteps(s: State, c: Scanner, n: Notice, sent: seq<Notice>)
    requires c !in s.checked && n == Open(n)
    ensures var w, s1 := Warned(Store(s.docs, s.nextId, sent), n), Next(s, CheckIgnored(c, n));
      if c !in s1.checked then w == Store(s.docs, s.nextId, sent)
      else
        var s2 := Next(s1, InsertNotice(c));
        && (w.docs, w.nextId) == (s2.docs, s2.nextId)
        && w.sent == (if KeyFree(s.docs, KeyOf(n), s.nextId) then sent + [n] else sent)
  {
  }

  // A warning in observation mode neither adds, changes nor removes a notice
  // with a status below 3.
  lemma ObservationIsInvisible(s: State, a: Action)
    requires Inv(s) && a.WriteLearned? && Enabled(s, a)
    ensures SameVisible(s.docs, Next(s, a).docs)
  {
    var docs := Next(s, a).docs;
    assert forall i :: i != a.id ==> (i in docs <==> i in s.docs);
    assert forall i :: i in s.docs && i != a.id ==> docs[i] == s.docs[i];
    hide KeyFree, Unique;
  }
}
