/** The notice collection: its unique index, the warnings of the checks and the
    status changes of the operators. */
module Notices {
  datatype Uptime = Unset | At(time: int)

  // Status 0 is open, 1 handled, 2 ignored; above 2 a notice was learned in
  // observation mode and is not shown.
  datatype Notice = Notice(typ: string, ip: string, info: string, status: int, uptime: Uptime,
                           source: string, level: int, description: string, time: int)

  // The fields of the unique index.
  datatype Key = Key(ip: string, info: string, typ: string, status: int, uptime: Uptime)

  datatype Triple = Triple(typ: string, ip: string, info: string)

  type Docs = map<nat, Notice>

  // What a $set of the status, and of the uptime when one is given, makes of a notice.
  function Changed(n: Notice, status: int, uptime: Uptime): Notice {
    n.(status := status, uptime := if uptime.At? then uptime else n.uptime)
  }

  function KeyOf(n: Notice): Key {
    Key(n.ip, n.info, n.typ, n.status, n.uptime)
  }

  function TripleOf(n: Notice): Triple {
    Triple(n.typ, n.ip, n.info)
  }

  // The unique index.
  predicate Unique(docs: Docs) {
    forall i, j :: i in docs && j in docs && KeyOf(docs[i]) == KeyOf(docs[j]) ==> i == j
  }

  // No notice other than the one with this id has the key.
  predicate KeyFree(docs: Docs, key: Key, id: nat) {
    forall i :: i in docs && i != id ==> KeyOf(docs[i]) != key
  }

  // A notice is put in place, unless that breaks the unique index.
  function Put(docs: Docs, id: nat, n: Notice): Docs {
    if KeyFree(docs, KeyOf(n), id) then docs[id := n] else docs
  }

  // The unique index holds, and the next id is new.
  predicate Indexed(docs: Docs, nextId: nat) {
    Unique(docs) && forall i :: i in docs ==> i < nextId
  }

  predicate Ignored(docs: Docs, t: Triple) {
    exists i :: i in docs && docs[i].status == 2 && TripleOf(docs[i]) == t
  }

  // What an operator sees is the same in both: no notice with status below 3
  // came, went or changed.
  predicate SameVisible(docs: Docs, docs': Docs) {
    && (forall i :: i in docs && docs[i].status < 3 ==> i in docs' && docs'[i] == docs[i])
    && (forall i :: i in docs' && docs'[i].status < 3 ==> i in docs && docs'[i] == docs[i])
  }

  // The key of a notice is free when no other agrees with it in all five fields.
  lemma KeyFreeExactly(docs: Docs, n: Notice, id: nat)
    ensures KeyFree(docs, KeyOf(n), id) <==>
      forall i :: i in docs && i != id ==>
        docs[i].ip != n.ip || docs[i].info != n.info || docs[i].typ != n.typ || docs[i].status != n.status || docs[i].uptime != n.uptime
  {
  }

  datatype Store = Store(docs: Docs, nextId: nat, sent: seq<Notice>)

  predicate ValidStore(s: Store) {
    Indexed(s.docs, s.nextId)
  }

  // One warning outside observation mode: nothing when the triple is ignored
  // or an equal notice is open, otherwise an open notice and a message.
  function Warned(s: Store, n: Notice): Store {
    if Ignored(s.docs, TripleOf(n)) || !KeyFree(s.docs, KeyOf(Open(n)), s.nextId) then s
    else Store(s.docs[s.nextId := Open(n)], s.nextId + 1, s.sent + [Open(n)])
  }

  function Open(n: Notice): Notice {
    n.(status := 0, uptime := Unset)
  }

  // A warning opens a notice and sends a message, unless a notice of the same
  // type, address and information is ignored, or open and never handled.
  lemma WarnedExactly(s: Store, n: Notice)
    requires ValidStore(s)
    ensures var raised := n.(status := 0, uptime := Unset);
      Warned(s, n) ==
        if exists i :: i in s.docs && s.docs[i].typ == n.typ && s.docs[i].ip == n.ip && s.docs[i].info == n.info
                       && (s.docs[i].status == 2 || (s.docs[i].status == 0 && s.docs[i].uptime == Unset))
        then s else Store(s.docs[s.nextId := raised], s.nextId + 1, s.sent + [raised])
  {
    KeyFreeExactly(s.docs, Open(n), s.nextId);
    hide KeyFree, Unique;
  }

  lemma WarnedKeepsValid(s: Store, n: Notice)
    requires ValidStore(s)
    ensures ValidStore(Warned(s, n))
  {
  }

  function WarnedAll(s: Store, ns: seq<Notice>): Store {
    if ns == [] then s else Warned(WarnedAll(s, ns[..|ns| - 1]), ns[|ns| - 1])
  }

  predicate Learned(n: Notice) {
    n.status > 2
  }

  function LearnedIds(docs: Docs): set<nat> {
    set i | i in docs && Learned(docs[i])
  }

  // A notice that a write of observation mode selects.
  predicate Selected(d: Notice, n: Notice) {
    d.(uptime := Unset) == n.(status := 3, uptime := Unset)
  }

  // What such a write makes of the selected notice, or else inserts.
  function AsLearned(docs: Docs, id: nat, n: Notice): Notice {
    if id in docs then docs[id].(status := 4) else n.(status := 4, uptime := Unset)
  }

  // The collection with the given notices opened.
  function OpenedSome(docs: Docs, ids: set<nat>): Docs {
    map i | i in docs :: if i in ids then docs[i].(status := 0) else docs[i]
  }

  function WithoutLearned(docs: Docs): Docs {
    map i | i in docs && !Learned(docs[i]) :: docs[i]
  }

  // No two notices would share a key once every learned one is open.
  predicate Collisionless(docs: Docs) {
    Unique(OpenedSome(docs, LearnedIds(docs)))
  }

  // What the body of a $set holds: a status, or a further $set as a field name.
  datatype Payload = StatusField(status: int) | DollarSet(inner: Payload)

  class NoticeCollection {
    var docs: Docs
    var nextId: nat
    var sent: seq<Notice>           // messages sent to the operators
    ghost var warnings: seq<Notice>  // the warnings raised so far
    const acceptsDollar: bool       // whether the store takes field names that start with a dollar

    ghost predicate Valid()
      reads this
    {
      ValidStore(State())
    }

    ghost function State(): Store
      reads this
    {
      Store(docs, nextId, sent)
    }

    constructor (acceptsDollar: bool)
      ensures Valid() && docs == map[] && sent == [] && warnings == []
      ensures this.acceptsDollar == acceptsDollar
    {
      docs, nextId, sent, warnings := map[], 0, [], [];
      this.acceptsDollar := acceptsDollar;
    }

    method Insert(n: Notice) returns (ok: bool)
      requires Valid()
      modifies this`docs, this`nextId
      ensures Valid()
      ensures ok <==> forall i :: i in old(docs) ==>
        old(docs)[i].ip != n.ip || old(docs)[i].info != n.info || old(docs)[i].typ != n.typ
        || old(docs)[i].status != n.status || old(docs)[i].uptime != n.uptime
      ensures ok ==> docs == old(docs)[old(nextId) := n] && nextId == old(nextId) + 1
      ensures !ok ==> docs == old(docs) && nextId == old(nextId)
    {
      ok := forall i | i in docs.Keys :: KeyOf(docs[i]) != KeyOf(n);
      if ok {
        docs := docs[nextId := n];
        nextId := nextId + 1;
      }
    }

    method UpdateId(id: nat, status: int, uptime: Uptime) returns (ok: bool)
      requires Valid()
      modifies this`docs
      ensures Valid()
      ensures ok <==> id in old(docs) && KeyFree(old(docs), KeyOf(Changed(old(docs)[id], status, uptime)), id)
      ensures docs == if ok then old(docs)[id := Changed(old(docs)[id], status, uptime)] else old(docs)
      ensures ok ==> docs[id] == old(docs)[id].(status := status, uptime := if uptime == Unset then old(docs)[id].uptime else uptime)
    {
      if id !in docs {
        return false;
      }
      var n := Changed(docs[id], status, uptime);
      ok := forall i | i in docs.Keys :: i != id ==> KeyOf(docs[i]) != KeyOf(n);
      if ok {
        docs := docs[id := n];
      }
    }

    // The write of observation mode: a selected notice, which has status 3, gets
    // status 4, otherwise one with status 4 is inserted; a duplicate key makes
    // either of them fail, which is not reported.
    method UpsertLearned(n: Notice) returns (id: nat)
      requires Valid()
      modifies this`docs, this`nextId
      ensures Valid()
      ensures if exists i :: i in old(docs) && Selected(old(docs)[i], n)
              then id in old(docs) && Selected(old(docs)[id], n) else id == old(nextId)
      ensures docs == Put(old(docs), id, AsLearned(old(docs), id, n))
      ensures docs != old(docs) ==> id in docs && docs[id].status == 4
      ensures docs != old(docs) && id in old(docs) ==> old(docs)[id] == docs[id].(status := 3)
      ensures id in old(docs) <==> exists i ::
        i in old(docs) && old(docs)[i].status == 3
        && old(docs)[i].typ == n.typ && old(docs)[i].ip == n.ip && old(docs)[i].info == n.info && old(docs)[i].source == n.source
        && old(docs)[i].level == n.level && old(docs)[i].description == n.description && old(docs)[i].time == n.time
      ensures nextId == if id !in old(docs) && id in docs then old(nextId) + 1 else old(nextId)
    {
      if exists i | i in docs.Keys :: Selected(docs[i], n) {
        id :| id in docs && Selected(docs[id], n);
        var _ := UpdateId(id, 4, Unset);
      } else {
        id := nextId;
        var _ := Insert(n.(status := 4, uptime := Unset));
      }
    }

    method Warning(learn: bool, n: Notice)
      requires Valid()
      modifies this
      ensures Valid() && warnings == old(warnings) + [n]
      ensures !learn ==> State() == Warned(old(State()), n)
      ensures learn ==> SameVisible(old(docs), docs) && sent == old(sent)
      ensures learn ==> exists id ::
        && (if exists i :: i in old(docs) && Selected(old(docs)[i], n)
            then id in old(docs) && Selected(old(docs)[id], n) else id == old(nextId))
        && docs == Put(old(docs), id, AsLearned(old(docs), id, n))
    {
      warnings := warnings + [n];
      if learn {
        var _ := UpsertLearned(n);
      } else {
        if exists i | i in docs.Keys :: docs[i].status == 2 && TripleOf(docs[i]) == TripleOf(n) {
          return;
        }
        var ok := Insert(n.(status := 0, uptime := Unset));
        if ok {
          sent := sent + [n.(status := 0, uptime := Unset)];
        }
      }
    }

    // Opens the learned notices one after the other and stops at a duplicate key.
    method OpenLearned() returns (ok: bool)
      requires Valid()
      modifies this`docs
      ensures Valid()
      ensures ok ==> docs == OpenedSome(old(docs), LearnedIds(old(docs)))
      ensures !ok ==> exists done :: done < LearnedIds(old(docs)) && docs == OpenedSome(old(docs), done)
      ensures ok <==> Collisionless(old(docs))
    {
      hide Unique, KeyFree, KeyOf;
      ghost var before, done := docs, {};
      var todo := set i | i in docs && docs[i].status > 2;
      assert docs == OpenedSome(before, {});
      while todo != {}
        invariant Valid()
        invariant done !! todo && done + todo == LearnedIds(before)
        invariant docs == OpenedSome(before, done)
      {
        var id :| id in todo;
        ok := UpdateId(id, 0, Unset);
        if !ok {
          CollisionStays(before, done, id);
          return false;
        }
        todo := todo - {id};
        done := done + {id};
        assert docs == OpenedSome(before, done);
      }
      assert done == LearnedIds(before);
      return true;
    }

    method UpdateByID(id: nat, data: Payload) returns (ok: bool)
      requires Valid()
      modifies this`docs
      ensures Valid()
      ensures data.StatusField? ==>
        && (ok <==> id in old(docs) && KeyFree(old(docs), KeyOf(old(docs)[id].(status := data.status)), id))
        && docs == if ok then old(docs)[id := old(docs)[id].(status := data.status)] else old(docs)
      ensures data.DollarSet? ==> docs == old(docs) && (ok <==> acceptsDollar && id in docs)
    {
      match data {
        case StatusField(status) =>
          ok := UpdateId(id, status, Unset);
        case DollarSet(_) =>
          // a field named "$set": rejected, or stored beside the status
          ok := acceptsDollar && id in docs;
      }
    }

    method RemoveLearned()
      requires Valid()
      modifies this`docs
      ensures Valid() && docs == WithoutLearned(old(docs))
    {
      docs := map i | i in docs && !(docs[i].status > 2) :: docs[i];
    }

    // The repair after a duplicate key. Its update is wrapped in a second $set,
    // so it never opens a notice: where the store refuses the field name, every
    // notice that is still learned is removed.
    method DoneDuplicateErr()
      requires Valid()
      modifies this`docs
      ensures Valid()
      ensures docs == if acceptsDollar then old(docs) else WithoutLearned(old(docs))
    {
      ghost var before := docs;
      var update := DollarSet(StatusField(0));
      var todo := set i | i in docs && docs[i].status > 2;
      ghost var all := todo;
      NothingLearned(docs);
      while todo != {}
        invariant Valid() && todo <= all == LearnedIds(before)
        invariant todo == all ==> docs == before
        invariant todo < all ==> docs == if acceptsDollar then before else WithoutLearned(before)
      {
        var id :| id in todo;
        var ok := UpdateByID(id, update);
        if !ok {
          RemoveLearned();
        }
        todo := todo - {id};
      }
    }

    // The end of observation mode. Whatever collides, the notices that were
    // visible stay as they are and the unique key holds; no learned notice is
    // left exactly when none collides or the store refuses the repair.
    method LearnEnding()
      requires Valid()
      modifies this`docs
      ensures Valid()
      ensures forall i :: i in old(docs) && old(docs)[i].status <= 2 ==> i in docs && docs[i] == old(docs)[i]
      ensures forall i :: i in docs ==>
        i in old(docs) && (docs[i] == old(docs)[i] || (old(docs)[i].status > 2 && docs[i] == old(docs)[i].(status := 0)))
      ensures Collisionless(old(docs)) ==> docs == OpenedSome(old(docs), LearnedIds(old(docs)))
      ensures (forall i :: i in docs ==> docs[i].status <= 2) <==> Collisionless(old(docs)) || !acceptsDollar
      ensures !Collisionless(old(docs)) && !acceptsDollar ==> exists i :: i in LearnedIds(old(docs)) && i !in docs
    {
      hide Unique, KeyFree, Collisionless;
      ghost var before := docs;
      var ok := OpenLearned();
      if !ok {
        ghost var done :| done < LearnedIds(before) && docs == OpenedSome(before, done);
        LeftBehind(before, done);
        DoneDuplicateErr();
      }
    }
  }

  lemma NothingLearned(docs: Docs)
    ensures LearnedIds(docs) == {} ==> WithoutLearned(docs) == docs
    ensures LearnedIds(WithoutLearned(docs)) == {}
  {
    if LearnedIds(docs) == {} {
      forall i | i in docs
        ensures !Learned(docs[i])
      {
        assert i !in LearnedIds(docs);
      }
    }
  }

  // What stays learned, or is removed by the repair, once opening has stopped.
  lemma LeftBehind(docs: Docs, done: set<nat>)
    requires done < LearnedIds(docs)
    ensures var some := OpenedSome(docs, done);
      && LearnedIds(some) == LearnedIds(docs) - done && LearnedIds(some) != {}
      && LearnedIds(WithoutLearned(some)) == {}
      && exists i :: i in LearnedIds(docs) && i !in WithoutLearned(some)
  {
    var i :| i in LearnedIds(docs) && i !in done;
    assert i !in WithoutLearned(OpenedSome(docs, done));
    assert LearnedIds(OpenedSome(docs, done)) == LearnedIds(docs) - done;
    assert i in LearnedIds(docs) - done;
  }

  // A notice that cannot be opened while some others are keeps the collection
  // from being opened as a whole.
  lemma CollisionStays(docs: Docs, done: set<nat>, id: nat)
    requires done <= LearnedIds(docs) && id in LearnedIds(docs) - done
    requires !KeyFree(OpenedSome(docs, done), KeyOf(docs[id].(status := 0)), id)
    ensures !Collisionless(docs)
  {
    var some, all := OpenedSome(docs, done), OpenedSome(docs, LearnedIds(docs));
    var j :| j in some && j != id && KeyOf(some[j]) == KeyOf(docs[id].(status := 0));
    assert all[j] == some[j] && all[id] == docs[id].(status := 0);
  }
}
