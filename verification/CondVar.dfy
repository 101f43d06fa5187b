/**
 The async condition variable: the waker table, the future returned by
 `CondVar::wait`, and the rule by which a cancelled waiter hands its signal on.

 The table and the future are updated in place by `Wakers` and `CondVarAwait`.
 Their effect is stated on values (`WakerTable`, `Await`) so that the run-level
 modules can reason about whole interleavings of the same operations.
 */
module CondVar {
  import opened Prelude

  type WaiterId = nat

  /** The task a waker wakes. Two wakers "will wake" each other iff the tasks agree. */
  type Task = nat

  /** `None` as a table value means signalled but not woken up yet. */
  datatype WakerTable = WakerTable(wakers: map<WaiterId, Option<Task>>, nextId: WaiterId) {
    ghost predicate Valid() {
      forall id | id in wakers :: id < nextId
    }
  }

  const EMPTY := WakerTable(map[], 0)

  predicate IsSome(w: Option<Task>) { w.Some? }
  predicate IsNone(w: Option<Task>) { w.None? }

  ghost function Unsignalled(t: WakerTable): nat { Count(t.wakers, IsSome) }
  ghost function Signalled(t: WakerTable): nat { Count(t.wakers, IsNone) }

  function Put(t: WakerTable, task: Task): WakerTable {
    WakerTable(t.wakers[t.nextId := Some(task)], t.nextId + 1)
  }

  function Delete(t: WakerTable, id: WaiterId): WakerTable {
    t.(wakers := t.wakers - {id})
  }

  function Mark(t: WakerTable, id: WaiterId): WakerTable {
    t.(wakers := t.wakers[id := None])
  }

  /** `wake(true)`: one waiter not yet signalled is marked and woken, in whatever
      order the hash map iterates; with none left nothing changes. */
  ghost predicate WakesOne(t: WakerTable, t': WakerTable, woken: seq<Task>) {
    || (t' == t && woken == [] && forall id | id in t.wakers :: t.wakers[id].None?)
    || exists id :: id in t.wakers && t.wakers[id].Some? && t' == Mark(t, id) && woken == [t.wakers[id].value]
  }

  /** `order` lists the waiters `ids`, each once, and `woken` their tasks. */
  ghost predicate WokenInOrder(t: WakerTable, ids: set<WaiterId>, order: seq<WaiterId>, woken: seq<Task>) {
    && |order| == |woken|
    && (forall i, j | 0 <= i < j < |order| :: order[i] != order[j])
    && (forall id :: id in order <==> id in ids)
    && (forall i | 0 <= i < |order| :: order[i] in t.wakers && t.wakers[order[i]] == Some(woken[i]))
  }

  /** `wake(false)`: every waiter is marked, and one wake-up is issued for each
      waiter that was not already signalled, in whatever order the hash map iterates. */
  ghost predicate WakesAll(t: WakerTable, t': WakerTable, woken: seq<Task>) {
    && t'.nextId == t.nextId
    && t'.wakers.Keys == t.wakers.Keys
    && (forall id | id in t'.wakers :: t'.wakers[id].None?)
    && |woken| == Unsignalled(t)
    && exists order :: WokenInOrder(t, KeysWhere(t.wakers, IsSome), order, woken)
  }

  /** State of a `CondVarAwait`: its id while registered, and whether it still
      holds the caller's mutex guard. */
  datatype Await = Await(id: Option<WaiterId>, guard: bool)

  const NEW_AWAIT := Await(None, true)
  const RESOLVED := Await(None, false)

  datatype Polled = Polled(table: WakerTable, wait: Await, ready: bool)

  /** One poll. The first one registers; later ones are ready exactly when the
      entry has been taken by a signal (or is no longer there). */
  function Poll(t: WakerTable, a: Await, cx: Task): Polled {
    if a.guard then
      Polled(Put(t, cx), Await(Some(t.nextId), false), false)
    else if a.id.None? || a.id.value !in t.wakers then
      Polled(t, RESOLVED, true)
    else if t.wakers[a.id.value].Some? then
      Polled(t.(wakers := t.wakers[a.id.value := Some(cx)]), a, false)
    else
      Polled(Delete(t, a.id.value), RESOLVED, true)
  }

  /** Was `a` signalled without having noticed it yet? */
  predicate HoldsSignal(t: WakerTable, a: Await) {
    a.id.Some? && a.id.value in t.wakers && t.wakers[a.id.value].None?
  }

  /** Dropping the future: its entry goes, and a signal it holds is passed on. */
  ghost predicate Drops(t: WakerTable, a: Await, t': WakerTable, woken: seq<Task>) {
    if a.id.None? then t' == t && woken == []
    else if HoldsSignal(t, a) then WakesOne(Delete(t, a.id.value), t', woken)
    else t' == Delete(t, a.id.value) && woken == []
  }

  // ---- effect of each operation on the two populations of the table ----

  lemma PutCounts(t: WakerTable, task: Task)
    requires t.Valid()
    ensures Put(t, task).Valid()
    ensures Unsignalled(Put(t, task)) == Unsignalled(t) + 1
    ensures Signalled(Put(t, task)) == Signalled(t)
  {
    CountUpdate(t.wakers, t.nextId, Some(task), IsSome);
    CountUpdate(t.wakers, t.nextId, Some(task), IsNone);
  }

  lemma DeleteCounts(t: WakerTable, id: WaiterId)
    requires id in t.wakers
    ensures Unsignalled(Delete(t, id)) == Unsignalled(t) - One(t.wakers[id].Some?)
    ensures Signalled(Delete(t, id)) == Signalled(t) - One(t.wakers[id].None?)
  {
    CountRemove(t.wakers, id, IsSome);
    CountRemove(t.wakers, id, IsNone);
  }

  /** A signal moves one waiter from the unsignalled to the signalled population,
      and is without effect exactly when there is nobody to move. */
  lemma WakesOneCounts(t: WakerTable, t': WakerTable, woken: seq<Task>)
    requires WakesOne(t, t', woken)
    ensures t.Valid() ==> t'.Valid()
    ensures t'.nextId == t.nextId && t'.wakers.Keys == t.wakers.Keys
    ensures |woken| == One(Unsignalled(t) > 0)
    ensures Unsignalled(t') == Unsignalled(t) - |woken|
    ensures Signalled(t') == Signalled(t) + |woken|
  {
    CountPositive(t.wakers, IsSome);
    if woken != [] {
      var id :| id in t.wakers && t.wakers[id].Some? && t' == Mark(t, id);
      CountUpdate(t.wakers, id, None, IsSome);
      CountUpdate(t.wakers, id, None, IsNone);
    }
  }

  lemma WakesAllCounts(t: WakerTable, t': WakerTable, woken: seq<Task>)
    requires WakesAll(t, t', woken)
    ensures t.Valid() ==> t'.Valid()
    ensures Unsignalled(t') == 0
    ensures Signalled(t') == Signalled(t) + Unsignalled(t)
  {
    CountPositive(t'.wakers, IsSome);
    var some, none := KeysWhere(t.wakers, IsSome), KeysWhere(t.wakers, IsNone);
    assert KeysWhere(t'.wakers, IsNone) == some + none;
    assert some !! none;
  }

  /** A poll never disturbs anyone else's entry. */
  lemma PollCounts(t: WakerTable, a: Await, cx: Task)
    requires t.Valid()
    ensures var p := Poll(t, a, cx);
            && p.table.Valid()
            && Unsignalled(p.table) == Unsignalled(t) + One(a.guard)
            && Signalled(p.table) == Signalled(t) - One(!a.guard && HoldsSignal(t, a))
  {
    if a.guard {
      PutCounts(t, cx);
    } else if a.id.Some? && a.id.value in t.wakers {
      if t.wakers[a.id.value].Some? {
        CountUpdate(t.wakers, a.id.value, Some(cx), IsSome);
        CountUpdate(t.wakers, a.id.value, Some(cx), IsNone);
      } else {
        DeleteCounts(t, a.id.value);
      }
    }
  }

  /** Dropping a waiter that holds a signal keeps the number of signals in the
      table, unless nobody is left to take it. */
  lemma DropsCounts(t: WakerTable, a: Await, t': WakerTable, woken: seq<Task>)
    requires t.Valid() && Drops(t, a, t', woken)
    requires a.id.Some? ==> a.id.value in t.wakers
    ensures t'.Valid() && t'.nextId == t.nextId
    ensures t'.wakers.Keys == t.wakers.Keys - (if a.id.Some? then {a.id.value} else {})
    ensures |woken| == One(HoldsSignal(t, a) && Unsignalled(t) > 0)
    ensures Unsignalled(t') == Unsignalled(t) - One(a.id.Some? && !HoldsSignal(t, a)) - |woken|
    ensures Signalled(t') == Signalled(t) - One(HoldsSignal(t, a)) + |woken|
  {
    if a.id.Some? {
      DeleteCounts(t, a.id.value);
      if HoldsSignal(t, a) {
        WakesOneCounts(Delete(t, a.id.value), t', woken);
      }
    }
  }

  // ---- the mutable objects ----

  /** The table once every entry outside `todo` has been visited by a broadcast. */
  ghost function MarkExcept(t: WakerTable, todo: set<WaiterId>): WakerTable {
    t.(wakers := map id | id in t.wakers :: if id in todo then t.wakers[id] else None)
  }

  /** The waiters woken by then. */
  ghost function Taken(t: WakerTable, todo: set<WaiterId>): set<WaiterId> {
    set id | id in t.wakers && id !in todo && t.wakers[id].Some?
  }

  lemma TakenStep(t: WakerTable, todo: set<WaiterId>, id: WaiterId)
    requires id in todo && todo <= t.wakers.Keys
    ensures Taken(t, todo - {id}) == Taken(t, todo) + (if t.wakers[id].Some? then {id} else {})
    ensures |Taken(t, todo - {id})| == |Taken(t, todo)| + One(t.wakers[id].Some?)
    ensures MarkExcept(t, todo - {id}) == Mark(MarkExcept(t, todo), id)
    ensures t.wakers[id].None? ==> MarkExcept(t, todo - {id}) == MarkExcept(t, todo)
  {
  }

  lemma OneMoreWoken(t: WakerTable, ids: set<WaiterId>, order: seq<WaiterId>, woken: seq<Task>, id: WaiterId)
    requires WokenInOrder(t, ids, order, woken) && id !in ids && id in t.wakers
    ensures t.wakers[id].Some? ==> WokenInOrder(t, ids + {id}, order + [id], woken + [t.wakers[id].value])
  {
  }

  lemma TakenAll(t: WakerTable)
    ensures Taken(t, {}) == KeysWhere(t.wakers, IsSome)
    ensures Taken(t, t.wakers.Keys) == {}
  {
  }

  /** The waker table guarded by the condvar's own lock. */
  class Wakers {
    var wakers: map<WaiterId, Option<Task>>
    var nextId: WaiterId

    ghost function Table(): WakerTable
      reads this
    {
      WakerTable(wakers, nextId)
    }

    constructor ()
      ensures Table() == EMPTY
    {
      wakers, nextId := map[], 0;
    }

    method Insert(task: Task) returns (id: WaiterId)
      requires Table().Valid()
      modifies this
      ensures id == old(nextId) && id !in old(wakers)
      ensures Table() == Put(old(Table()), task) && Table().Valid()
    {
      id := nextId;
      nextId := nextId + 1;
      wakers := wakers[id := Some(task)];
    }

    method Remove(id: WaiterId) returns (entry: Option<Option<Task>>)
      modifies this
      ensures entry == if id in old(wakers) then Some(old(wakers)[id]) else None
      ensures Table() == Delete(old(Table()), id)
    {
      entry := if id in wakers then Some(wakers[id]) else None;
      wakers := wakers - {id};
    }

    /** Iterates the entries in arbitrary order, skipping those already
        signalled; stops after the first one woken when `signal` is set. */
    method Wake(signal: bool) returns (woken: seq<Task>)
      modifies this
      ensures signal ==> WakesOne(old(Table()), Table(), woken)
      ensures !signal ==> WakesAll(old(Table()), Table(), woken)
    {
      woken := [];
      var todo := wakers.Keys;
      ghost var was, order := Table(), [];
      while todo != {}
        invariant todo <= was.wakers.Keys && Table() == MarkExcept(was, todo)
        invariant |woken| == |Taken(was, todo)| && WokenInOrder(was, Taken(was, todo), order, woken)
        invariant signal ==> woken == [] && Table() == was
        decreases |todo|
      {
        var id :| id in todo;
        TakenStep(was, todo, id);
        OneMoreWoken(was, Taken(was, todo), order, woken, id);
        todo := todo - {id};
        if wakers[id].Some? {
          var task := wakers[id].value;
          wakers := wakers[id := None];
          woken, order := woken + [task], order + [id];
          if signal {
            assert Table() == Mark(was, id);
            return;
          }
        }
      }
      TakenAll(was);
      assert WokenInOrder(was, KeysWhere(was.wakers, IsSome), order, woken);
    }
  }

  /** Future returned by `CondVar::wait`. */
  class CondVarAwait {
    var id: Option<WaiterId>
    var guard: bool
    const condvar: Wakers

    ghost function Value(): Await
      reads this
    {
      Await(id, guard)
    }

    constructor (condvar: Wakers)
      ensures Value() == NEW_AWAIT && this.condvar == condvar
    {
      this.condvar := condvar;
      id, guard := None, true;
    }

    method PollOnce(cx: Task) returns (ready: bool)
      requires condvar.Table().Valid()
      modifies this, condvar
      ensures Polled(condvar.Table(), Value(), ready) == Poll(old(condvar.Table()), old(Value()), cx)
    {
      var held := guard;
      guard := false;
      if held {
        var newId := condvar.Insert(cx);
        id := Some(newId);
        return false;
      }
      if id.None? {
        return true;
      }
      var i := id.value;
      if i !in condvar.wakers {
        id := None;
        return true;
      }
      if condvar.wakers[i].Some? {
        if condvar.wakers[i].value != cx {
          condvar.wakers := condvar.wakers[i := Some(cx)];
        } else {
          assert condvar.wakers == condvar.wakers[i := Some(cx)];
        }
        return false;
      }
      var _ := condvar.Remove(i);
      id := None;
      return true;
    }

    /** `Drop for CondVarAwait`. */
    method Drop() returns (woken: seq<Task>)
      modifies condvar
      ensures Drops(old(condvar.Table()), Value(), condvar.Table(), woken)
    {
      woken := [];
      if id.Some? {
        var entry := condvar.Remove(id.value);
        if entry == Some(None) {
          woken := condvar.Wake(true);
        }
      }
    }
  }
}
