/** Dispatching of tasks: server/action/task.go. Nodes take entries from a shared
    queue, at most one hundred senders run on a node, and each entry ends in a
    stored result. */
module Dispatcher {
  type Id = nat
  type Node = nat

  // The capacity of the channel that limits the senders of a node.
  const SLOTS: nat := 100

  datatype Entry = Entry(taskId: Id, ip: string, typ: string, command: string)

  // A sender runs on a node; at the end it has tried to store its result.
  datatype Sender = Sender(node: Node, done: bool)

  datatype State = State(
    entries: map<Id, Entry>,    // every entry that was ever queued
    queue: set<Id>,             // the queue collection
    held: map<Node, Id>,        // taken from the queue, waiting for a slot
    running: map<Id, Sender>,   // senders in flight
    slots: map<Node, nat>,      // tokens in each node's channel
    finished: set<Id>,
    stored: map<Id, nat>)       // results stored for each entry

  datatype Action =
    | AddEntry(id: Id, entry: Entry)
    | Take(node: Node, id: Id)           // atomic find and remove
    | Launch(node: Node)                 // puts a token into the channel and starts the sender
    | StoreResult(id: Id, accepted: bool)
    | Release(id: Id)                    // takes the token back

  function StoredFor(s: State, id: Id): nat {
    if id in s.stored then s.stored[id] else 0
  }

  function SlotsOf(s: State, n: Node): nat {
    if n in s.slots then s.slots[n] else 0
  }

  predicate Enabled(nodes: set<Node>, s: State, a: Action) {
    match a
    case AddEntry(id, _) => id !in s.entries
    case Take(n, id) => n in nodes && n !in s.held && id in s.queue && id in s.entries
    case Launch(n) => n in s.held && SlotsOf(s, n) < SLOTS
    case StoreResult(id, _) => id in s.running && !s.running[id].done
    case Release(id) => id in s.running && s.running[id].done && SlotsOf(s, s.running[id].node) > 0
  }

  function Next(nodes: set<Node>, s: State, a: Action): State
    requires Enabled(nodes, s, a)
  {
    match a
    case AddEntry(id, e) => s.(entries := s.entries[id := e], queue := s.queue + {id})
    case Take(n, id) =>
      // an entry without an address is gone: the poller goes back to the queue
      if s.entries[id].ip == "" then s.(queue := s.queue - {id})
      else s.(queue := s.queue - {id}, held := s.held[n := id])
    case Launch(n) =>
      s.(held := s.held - {n}, slots := s.slots[n := SlotsOf(s, n) + 1], running := s.running[s.held[n] := Sender(n, false)])
    case StoreResult(id, accepted) =>
      s.(running := s.running[id := s.running[id].(done := true)],
         stored := s.stored[id := StoredFor(s, id) + (if accepted then 1 else 0)])
    case Release(id) =>
      var n := s.running[id].node;
      s.(running := s.running - {id}, slots := s.slots[n := SlotsOf(s, n) - 1], finished := s.finished + {id})
  }

  predicate Initial(s: State) {
    s == State(map[], {}, map[], map[], map[], {}, map[])
  }

  predicate Run(nodes: set<Node>, states: seq<State>, actions: seq<Action>) {
    && |states| == |actions| + 1
    && forall i :: 0 <= i < |actions| ==> Enabled(nodes, states[i], actions[i]) && states[i + 1] == Next(nodes, states[i], actions[i])
  }

  ghost function InFlight(s: State, n: Node): set<Id> {
    set id | id in s.running && s.running[id].node == n
  }

  predicate HeldBy(s: State, n: Node, id: Id) {
    n in s.held && s.held[n] == id
  }

  // In exactly one place.
  ghost predicate Placed(s: State, id: Id) {
    var q, r, f, h := id in s.queue, id in s.running, id in s.finished, exists n :: HeldBy(s, n, id);
    && (q || h || r || f)
    && !(q && h) && !(q && r) && !(q && f) && !(h && r) && !(h && f) && !(r && f)
  }

  // Every entry with an address is in one place.
  ghost predicate EachPlaced(s: State) {
    forall id :: id in s.entries && s.entries[id].ip != "" ==> Placed(s, id)
  }

  // An entry that is held is held by one node, and nothing but an entry is
  // anywhere; one without an address is only ever in the queue.
  ghost predicate OnlyEntries(s: State) {
    && (forall id :: id in s.queue ==> id in s.entries)
    && (forall n :: n in s.held ==> s.held[n] in s.entries && s.entries[s.held[n]].ip != "")
    && (forall m, n :: m in s.held && n in s.held && s.held[m] == s.held[n] ==> m == n)
    && (forall id :: id in s.running || id in s.finished ==> id in s.entries && s.entries[id].ip != "")
  }

  ghost predicate AllPlaced(s: State) {
    EachPlaced(s) && OnlyEntries(s)
  }

  lemma QueuedOnlyQueued(s: State, id: Id)
    requires AllPlaced(s) && id in s.queue
    ensures forall m :: m in s.held ==> s.held[m] != id
    ensures id !in s.running && id !in s.finished
  {
    assert s.entries[id].ip != "" ==> Placed(s, id);
    forall m | m in s.held
      ensures s.held[m] != id
    {
      assert HeldBy(s, m, s.held[m]);
    }
  }

  lemma HeldOnlyHeld(s: State, n: Node)
    requires AllPlaced(s) && n in s.held
    ensures s.held[n] !in s.queue && s.held[n] !in s.running && s.held[n] !in s.finished
  {
    assert HeldBy(s, n, s.held[n]);
    assert Placed(s, s.held[n]);
  }

  // Each node's channel holds one token for each of its senders, 100 at most.
  ghost predicate SlotsCount(s: State) {
    forall n :: SlotsOf(s, n) == |InFlight(s, n)| <= SLOTS
  }

  // At most one result is stored for an entry, and none before its sender is done.
  ghost predicate StoredOnce(s: State) {
    forall id :: StoredFor(s, id) <= (if id in s.finished || (id in s.running && s.running[id].done) then 1 else 0)
  }

  ghost predicate StoredIfDone(s: State) {
    forall id :: id in s.finished || (id in s.running && s.running[id].done) ==> StoredFor(s, id) >= 1
  }

  ghost predicate Inv(s: State) {
    AllPlaced(s) && SlotsCount(s) && StoredOnce(s)
  }

  lemma AddKeepsPlaced(nodes: set<Node>, s: State, id: Id, e: Entry)
    requires AllPlaced(s) && Enabled(nodes, s, AddEntry(id, e))
    ensures AllPlaced(Next(nodes, s, AddEntry(id, e)))
  {
    var t := Next(nodes, s, AddEntry(id, e));
    forall x | x in t.entries && t.entries[x].ip != ""
      ensures Placed(t, x)
    {
      assert forall n :: HeldBy(t, n, x) <==> HeldBy(s, n, x);
      if x != id {
        assert Placed(s, x);
      }
    }
  }

  lemma TakeKeepsPlaced(nodes: set<Node>, s: State, n: Node, id: Id)
    requires AllPlaced(s) && Enabled(nodes, s, Take(n, id))
    ensures AllPlaced(Next(nodes, s, Take(n, id)))
  {
    hide EachPlaced, OnlyEntries, Next;
    QueuedOnlyQueued(s, id);
    TakeKeepsOnlyEntries(nodes, s, n, id);
    TakeKeepsEachPlaced(nodes, s, n, id);
  }

  lemma TakeKeepsOnlyEntries(nodes: set<Node>, s: State, n: Node, id: Id)
    requires OnlyEntries(s) && Enabled(nodes, s, Take(n, id)) && forall m :: m in s.held ==> s.held[m] != id
    ensures OnlyEntries(Next(nodes, s, Take(n, id)))
  {
  }

  lemma TakeKeepsEachPlaced(nodes: set<Node>, s: State, n: Node, id: Id)
    requires EachPlaced(s) && Enabled(nodes, s, Take(n, id))
    ensures EachPlaced(Next(nodes, s, Take(n, id)))
  {
    var t := Next(nodes, s, Take(n, id));
    forall x | x in t.entries && t.entries[x].ip != ""
      ensures Placed(t, x)
    {
      assert Placed(s, x);
      assert forall m :: m != n ==> (HeldBy(t, m, x) <==> HeldBy(s, m, x));
      assert HeldBy(t, n, x) <==> x == id && s.entries[id].ip != "";
    }
  }

  lemma LaunchKeepsPlaced(nodes: set<Node>, s: State, n: Node)
    requires AllPlaced(s) && Enabled(nodes, s, Launch(n))
    ensures AllPlaced(Next(nodes, s, Launch(n)))
  {
    var t := Next(nodes, s, Launch(n));
    assert HeldBy(s, n, s.held[n]);
    forall x | x in t.entries && t.entries[x].ip != ""
      ensures Placed(t, x)
    {
      assert Placed(s, x);
      assert forall m :: HeldBy(t, m, x) <==> m != n && HeldBy(s, m, x);
    }
  }

  lemma EndKeepsPlaced(nodes: set<Node>, s: State, a: Action)
    requires AllPlaced(s) && Enabled(nodes, s, a) && (a.StoreResult? || a.Release?)
    ensures AllPlaced(Next(nodes, s, a))
  {
    var t := Next(nodes, s, a);
    forall x | x in t.entries && t.entries[x].ip != ""
      ensures Placed(t, x)
    {
      assert Placed(s, x);
      assert forall m :: HeldBy(t, m, x) <==> HeldBy(s, m, x);
    }
  }

  lemma LaunchKeepsSlots(nodes: set<Node>, s: State, m: Node, n: Node)
    requires SlotsCount(s) && Enabled(nodes, s, Launch(m)) && s.held[m] !in s.running
    ensures var t := Next(nodes, s, Launch(m)); SlotsOf(t, n) == |InFlight(t, n)| <= SLOTS
  {
    var t, id := Next(nodes, s, Launch(m)), s.held[m];
    assert SlotsOf(s, n) == |InFlight(s, n)|;
    if n == m {
      assert InFlight(t, n) == InFlight(s, n) + {id};
      assert id !in InFlight(s, n);
    } else {
      assert InFlight(t, n) == InFlight(s, n);
    }
  }

  lemma ReleaseKeepsSlots(nodes: set<Node>, s: State, id: Id, n: Node)
    requires SlotsCount(s) && Enabled(nodes, s, Release(id))
    ensures var t := Next(nodes, s, Release(id)); SlotsOf(t, n) == |InFlight(t, n)| <= SLOTS
  {
    var t := Next(nodes, s, Release(id));
    assert SlotsOf(s, n) == |InFlight(s, n)|;
    if n == s.running[id].node {
      assert InFlight(t, n) == InFlight(s, n) - {id};
    } else {
      assert InFlight(t, n) == InFlight(s, n);
    }
  }

  lemma OthersKeepSlots(nodes: set<Node>, s: State, a: Action, n: Node)
    requires SlotsCount(s) && Enabled(nodes, s, a) && !a.Launch? && !a.Release?
    ensures var t := Next(nodes, s, a); SlotsOf(t, n) == |InFlight(t, n)| <= SLOTS
  {
    var t := Next(nodes, s, a);
    assert SlotsOf(s, n) == |InFlight(s, n)|;
    assert InFlight(t, n) == InFlight(s, n);
  }

  lemma LaunchFromHeld(nodes: set<Node>, s: State, n: Node)
    requires AllPlaced(s) && Enabled(nodes, s, Launch(n))
    ensures n in s.held && s.held[n] !in s.running && s.held[n] !in s.finished
  {
    HeldOnlyHeld(s, n);
  }

  lemma NextKeepsSlots(nodes: set<Node>, s: State, a: Action)
    requires AllPlaced(s) && SlotsCount(s) && Enabled(nodes, s, a)
    ensures SlotsCount(Next(nodes, s, a))
  {
    var t := Next(nodes, s, a);
    forall n
      ensures SlotsOf(t, n) == |InFlight(t, n)| <= SLOTS
    {
      hide AllPlaced, SlotsCount, Enabled, Next, InFlight, SlotsOf;
      match a
      case Launch(m) =>
        LaunchFromHeld(nodes, s, m);
        LaunchKeepsSlots(nodes, s, m, n);
      case Release(id) => ReleaseKeepsSlots(nodes, s, id, n);
      case _ => OthersKeepSlots(nodes, s, a, n);
    }
  }

  lemma StoreKeepsStored(nodes: set<Node>, s: State, id: Id, accepted: bool)
    requires StoredOnce(s) && Enabled(nodes, s, StoreResult(id, accepted)) && id !in s.finished
    ensures StoredOnce(Next(nodes, s, StoreResult(id, accepted)))
    ensures StoredIfDone(s) && accepted ==> StoredIfDone(Next(nodes, s, StoreResult(id, accepted)))
  {
    var t := Next(nodes, s, StoreResult(id, accepted));
    assert forall x :: x != id ==> StoredFor(t, x) == StoredFor(s, x);
    assert StoredFor(t, id) == StoredFor(s, id) + (if accepted then 1 else 0);
    hide StoredFor;
  }

  lemma OthersKeepStored(nodes: set<Node>, s: State, a: Action)
    requires StoredOnce(s) && Enabled(nodes, s, a) && !a.StoreResult?
    requires a.Launch? ==> s.held[a.node] !in s.running && s.held[a.node] !in s.finished
    ensures StoredOnce(Next(nodes, s, a))
    ensures StoredIfDone(s) ==> StoredIfDone(Next(nodes, s, a))
  {
    var t := Next(nodes, s, a);
    assert forall x :: StoredFor(t, x) == StoredFor(s, x);
    hide StoredFor;
  }

  lemma RunningNotFinished(s: State, id: Id)
    requires AllPlaced(s) && id in s.running
    ensures id !in s.finished
  {
    assert Placed(s, id);
  }

  lemma NextKeepsStored(nodes: set<Node>, s: State, a: Action)
    requires AllPlaced(s) && StoredOnce(s) && Enabled(nodes, s, a)
    ensures StoredOnce(Next(nodes, s, a))
    ensures StoredIfDone(s) && (a.StoreResult? ==> a.accepted) ==> StoredIfDone(Next(nodes, s, a))
  {
    hide AllPlaced, StoredOnce, StoredIfDone, Next;
    match a
    case Launch(n) =>
      LaunchFromHeld(nodes, s, n);
      OthersKeepStored(nodes, s, a);
    case StoreResult(id, accepted) =>
      RunningNotFinished(s, id);
      StoreKeepsStored(nodes, s, id, accepted);
    case _ =>
      OthersKeepStored(nodes, s, a);
  }

  lemma NextKeepsInv(nodes: set<Node>, s: State, a: Action)
    requires Inv(s) && Enabled(nodes, s, a)
    ensures Inv(Next(nodes, s, a))
    ensures StoredIfDone(s) && (a.StoreResult? ==> a.accepted) ==> StoredIfDone(Next(nodes, s, a))
  {
    hide AllPlaced, SlotsCount, StoredOnce, StoredIfDone, Next, Enabled;
    NextKeepsSlots(nodes, s, a);
    NextKeepsStored(nodes, s, a);
    match a
    case AddEntry(id, e) => AddKeepsPlaced(nodes, s, id, e);
    case Take(n, id) => TakeKeepsPlaced(nodes, s, n, id);
    case Launch(n) => LaunchKeepsPlaced(nodes, s, n);
    case StoreResult(_, _) => EndKeepsPlaced(nodes, s, a);
    case Release(_) => EndKeepsPlaced(nodes, s, a);
  }

  // In every reachable state of any number of nodes, each entry with an address
  // is in exactly one place, no node has more than 100 senders, and an entry
  // has at most one stored result; exactly one when it is finished and the
  // store accepted every write.
  lemma {:induction false} RunKeepsInv(nodes: set<Node>, states: seq<State>, actions: seq<Action>, i: nat)
    requires Run(nodes, states, actions) && Initial(states[0]) && i < |states|
    ensures Inv(states[i])
    ensures (forall j :: 0 <= j < i && actions[j].StoreResult? ==> actions[j].accepted) ==> StoredIfDone(states[i])
  {
    if i == 0 {
      assert forall n :: InFlight(states[0], n) == {};
    } else {
      RunKeepsInv(nodes, states, actions, i - 1);
      hide Inv, StoredIfDone, Next, Enabled, Initial;
      NextKeepsInv(nodes, states[i - 1], actions[i - 1]);
    }
  }

  lemma FinishedHasOneResult(nodes: set<Node>, states: seq<State>, actions: seq<Action>, i: nat, id: Id)
    requires Run(nodes, states, actions) && Initial(states[0]) && i < |states| && id in states[i].finished
    requires forall j :: 0 <= j < i && actions[j].StoreResult? ==> actions[j].accepted
    ensures StoredFor(states[i], id) == 1
  {
    hide Run, Initial, AllPlaced, SlotsCount;
    RunKeepsInv(nodes, states, actions, i);
  }

  // What is left to do: every step but the arrival of an entry does some of it.
  ghost function Rank(s: State): int {
    4 * |s.queue| + 3 * |s.held| + 2 * |s.running| - |Done(s)|
  }

  ghost function Done(s: State): set<Id> {
    set id | id in s.running && s.running[id].done
  }

  lemma RankIsNatural(s: State)
    ensures Rank(s) >= 0
    ensures Rank(s) == 0 <==> s.queue == {} && s.held == map[] && s.running == map[]
  {
    SubsetSize(Done(s), s.running.Keys);
  }

  lemma {:induction false} SubsetSize(a: set<Id>, b: set<Id>)
    requires a <= b
    ensures |a| <= |b|
  {
    assert b == a + (b - a);
  }

  lemma TakeLowersRank(nodes: set<Node>, s: State, n: Node, id: Id)
    requires Enabled(nodes, s, Take(n, id))
    ensures Rank(Next(nodes, s, Take(n, id))) < Rank(s)
  {
    var t := Next(nodes, s, Take(n, id));
    assert t.queue == s.queue - {id};
    assert t.running == s.running && Done(t) == Done(s);
    if s.entries[id].ip == "" {
      assert t.held == s.held;
    } else {
      OneMore(s.held, n, id);
    }
  }

  lemma OneMore(m: map<nat, nat>, k: nat, v: nat)
    requires k !in m
    ensures |m[k := v]| == |m| + 1
  {
    assert m[k := v].Keys == m.Keys + {k};
  }

  lemma OneLess(m: map<nat, nat>, k: nat)
    requires k in m
    ensures |m - {k}| == |m| - 1
  {
    assert (m - {k}).Keys == m.Keys - {k};
  }

  lemma LaunchLowersRank(nodes: set<Node>, s: State, n: Node)
    requires Enabled(nodes, s, Launch(n)) && s.held[n] !in s.running
    ensures Rank(Next(nodes, s, Launch(n))) < Rank(s)
  {
    var t, id := Next(nodes, s, Launch(n)), s.held[n];
    OneLess(s.held, n);
    assert Done(t) == Done(s);
    assert t.running.Keys == s.running.Keys + {id};
    assert t.queue == s.queue;
  }

  lemma EndLowersRank(nodes: set<Node>, s: State, a: Action)
    requires Enabled(nodes, s, a) && (a.StoreResult? || a.Release?)
    ensures Rank(Next(nodes, s, a)) < Rank(s)
  {
    var t := Next(nodes, s, a);
    assert |t.running| == |t.running.Keys| && |s.running| == |s.running.Keys|;
    match a
    case StoreResult(id, _) =>
      assert t.running.Keys == s.running.Keys;
      assert Done(t) == Done(s) + {id};
    case Release(id) =>
      assert t.running.Keys == s.running.Keys - {id};
      assert Done(t) == Done(s) - {id};
  }

  lemma StepLowersRank(nodes: set<Node>, s: State, a: Action)
    requires Inv(s) && Enabled(nodes, s, a) && !a.AddEntry?
    ensures Rank(Next(nodes, s, a)) < Rank(s)
  {
    hide AllPlaced, SlotsCount, StoredOnce, Enabled, Next, Rank;
    match a
    case Take(n, id) => TakeLowersRank(nodes, s, n, id);
    case Launch(n) =>
      LaunchFromHeld(nodes, s, n);
      LaunchLowersRank(nodes, s, n);
    case _ => EndLowersRank(nodes, s, a);
  }

  // Without new entries, every run ends.
  lemma {:induction false} RunsEnd(nodes: set<Node>, states: seq<State>, actions: seq<Action>)
    requires Run(nodes, states, actions) && Inv(states[0])
    requires forall i :: 0 <= i < |actions| ==> !actions[i].AddEntry?
    ensures Inv(states[|actions|])
    ensures |actions| + Rank(states[|actions|]) <= Rank(states[0])
    decreases |actions|
  {
    if |actions| > 0 {
      var n := |actions| - 1;
      RunsEnd(nodes, states[..n + 1], actions[..n]);
      hide Inv, Rank, Next, Enabled;
      NextKeepsInv(nodes, states[n], actions[n]);
      StepLowersRank(nodes, states[n], actions[n]);
    }
  }

  // As long as something is left to do, a step can be taken, so runs only stop
  // with every entry that has an address finished.
  lemma NeverStuck(nodes: set<Node>, s: State)
    requires Inv(s) && nodes != {} && Rank(s) != 0
    ensures exists a: Action :: Enabled(nodes, s, a) && !a.AddEntry?
  {
    RankIsNatural(s);
    if s.running != map[] {
      var id :| id in s.running;
      if s.running[id].done {
        assert id in InFlight(s, s.running[id].node);
        assert Enabled(nodes, s, Release(id));
      } else {
        assert Enabled(nodes, s, StoreResult(id, true));
      }
    } else if s.held != map[] {
      var n :| n in s.held;
      assert InFlight(s, n) == {};
      assert Enabled(nodes, s, Launch(n));
    } else {
      var id, n :| id in s.queue && n in nodes;
      assert Enabled(nodes, s, Take(n, id));
    }
  }

  lemma NothingLeftMeansFinished(s: State, id: Id)
    requires Inv(s) && Rank(s) == 0 && id in s.entries && s.entries[id].ip != ""
    ensures id in s.finished
  {
    RankIsNatural(s);
    assert Placed(s, id);
    assert forall n :: !HeldBy(s, n, id);
  }
}

/** One sender: what it stores for its entry. */
module SendTasks {
  import opened Dispatcher

  datatype Reply = Reply(status: string, data: string)

  datatype TaskResult = TaskResult(taskId: Id, ip: string, status: string, data: string)

  // The outcome of a library call, with the text of its error.
  datatype Outcome<+T> = Got(value: T) | Failed(message: string)

  // What the network, the daemon and the store do for one sender: connection,
  // encryption, the line read, the reply in it, and the first and the second insert.
  datatype Surroundings = Surroundings(dial: Outcome<()>, encryption: Outcome<()>, line: Outcome<string>, reply: Outcome<Reply>,
                                       first: Outcome<()>, second: Outcome<()>)

  class Sender {
    var results: seq<TaskResult>

    method Insert(r: TaskResult, insert: Outcome<()>) returns (outcome: Outcome<()>)
      modifies this
      ensures outcome == insert && results == if insert.Got? then old(results) + [r] else old(results)
    {
      if insert.Got? {
        results := results + [r];
      }
      return insert;
    }

    // An error was added to the results, unless the store refused it.
    ghost predicate Filed(before: seq<TaskResult>, id: Id, task: Entry, message: string, insert: Outcome<()>)
      reads this
    {
      results == if insert.Got? then before + [TaskResult(id, task.ip, "false", message)] else before
    }

    // An error is filed under the id of the queue entry, not under its task id.
    method SaveError(id: Id, task: Entry, message: string, insert: Outcome<()>)
      modifies this
      ensures results == if insert.Got? then old(results) + [TaskResult(id, task.ip, "false", message)] else old(results)
    {
      var _ := Insert(TaskResult(id, task.ip, "false", message), insert);
    }

    // An answer is stored under its task id. The first error is stored under the
    // id of the queue entry with its text; so is the refusal of an answer. Nothing
    // is stored only when the store refuses every insert that is tried.
    method SendTask(id: Id, task: Entry, w: Surroundings)
      modifies this
      ensures w.dial.Failed? ==> Filed(old(results), id, task, w.dial.message, w.first)
      ensures w.dial.Got? && w.encryption.Failed? ==> Filed(old(results), id, task, w.encryption.message, w.first)
      ensures w.dial.Got? && w.encryption.Got? && w.line.Failed? ==> Filed(old(results), id, task, w.line.message, w.first)
      ensures w.dial.Got? && w.encryption.Got? && w.line.Got? && w.reply.Failed? ==>
        Filed(old(results), id, task, w.reply.message, w.first)
      ensures w.dial.Got? && w.encryption.Got? && w.line.Got? && w.reply.Got? ==>
        if w.first.Got? then results == old(results) + [TaskResult(task.taskId, task.ip, w.reply.value.status, w.reply.value.data)]
        else Filed(old(results), id, task, w.first.message, w.second)
    {
      if w.dial.Failed? {
        SaveError(id, task, w.dial.message, w.first);
        return;
      }
      if w.encryption.Failed? {
        SaveError(id, task, w.encryption.message, w.first);
        return;
      }
      if w.line.Failed? {
        SaveError(id, task, w.line.message, w.first);
        return;
      }
      if w.reply.Failed? {
        SaveError(id, task, w.reply.message, w.first);
        return;
      }
      var res := TaskResult(task.taskId, task.ip, w.reply.value.status, w.reply.value.data);
      var inserted := Insert(res, w.first);
      if inserted.Failed? {
        SaveError(id, task, inserted.message, w.second);
      }
    }
  }
}
