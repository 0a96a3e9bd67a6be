/**
  The effect of a reorder request on the two tables, one id at a time and
  in closed form.
 */
module Reordering {
  import opened Wrappers
  import opened Models
  import opened Tables

  /**
    What the store does when a reorder inserts the first overlay row for a
    default task: the status of that row comes from a subquery over the
    very row being inserted, which yields NULL. Whether the store accepts
    a NULL status depends on a column constraint that is not part of this
    model, so both behaviours are kept.
   */
  datatype NullStatusPolicy = RejectNullStatus | StoreNullStatus

  /**
    One iteration of the reorder loop: an unknown id fails the request; a
    default task gets the caller's overlay moved to `pos` (an existing row
    keeps its status, a new one has a NULL status); a personal task the
    caller owns is moved to `pos`; any other task is left alone.
   */
  function ReorderStep(todos: Todos, overlays: Overlays, user: string, id: string, pos: int,
                       policy: NullStatusPolicy, now: int): (r: Option<(Todos, Overlays)>)
    ensures r.None? <==>
      id !in todos || (todos[id].isDefault && (user, id) !in overlays && policy == RejectNullStatus)
    ensures r.Some? ==> r.value.0.Keys == todos.Keys
  {
    if id !in todos then None
    else if todos[id].isDefault then
      var k := (user, id);
      if k in overlays then Some((todos, overlays[k := overlays[k].(position := pos, updatedAt := now)]))
      else if policy == RejectNullStatus then None
      else Some((todos, overlays[k := Overlay(None, pos, now)]))
    else if todos[id].owner == Some(user) then Some((todos[id := todos[id].(position := pos)], overlays))
    else Some((todos, overlays))
  }

  /** The tables after the first `n` ids, or None once an iteration has failed. */
  function ReorderUpTo(todos: Todos, overlays: Overlays, user: string, ids: seq<string>, n: nat,
                       policy: NullStatusPolicy, now: int): Option<(Todos, Overlays)>
    requires n <= |ids|
  {
    if n == 0 then Some((todos, overlays))
    else match ReorderUpTo(todos, overlays, user, ids, n - 1, policy, now)
      case None => None
      case Some(st) => ReorderStep(st.0, st.1, user, ids[n - 1], OrderPosition(n - 1), policy, now)
  }

  /** The committed tables of a whole request, or None when it is rolled back. */
  function ReorderAll(todos: Todos, overlays: Overlays, user: string, ids: seq<string>,
                      policy: NullStatusPolicy, now: int): Option<(Todos, Overlays)>
  {
    ReorderUpTo(todos, overlays, user, ids, |ids|, policy, now)
  }

  /** A failed iteration fails the whole request. */
  lemma {:induction false} ReorderFailurePersists(todos: Todos, overlays: Overlays, user: string,
                                                  ids: seq<string>, n: nat, policy: NullStatusPolicy, now: int)
    requires n <= |ids| && ReorderUpTo(todos, overlays, user, ids, n, policy, now).None?
    ensures ReorderAll(todos, overlays, user, ids, policy, now).None?
    decreases |ids| - n
  {
    if n < |ids| {
      ReorderFailurePersists(todos, overlays, user, ids, n + 1, policy, now);
    }
  }

  lemma ReorderStepKeepsWellFormed(todos: Todos, overlays: Overlays, user: string, id: string, pos: int,
                                   policy: NullStatusPolicy, now: int)
    requires pos % PositionIncrement == 0
    ensures WellFormed(todos, overlays) && ReorderStep(todos, overlays, user, id, pos, policy, now).Some? ==>
      var st := ReorderStep(todos, overlays, user, id, pos, policy, now).value;
      WellFormed(st.0, st.1)
  {
  }

  // ---- Closed form ----

  /** The index of the last occurrence of `id`: later ids overwrite earlier ones. */
  function LastIndex(ids: seq<string>, id: string): (k: nat)
    requires id in ids
    ensures k < |ids| && ids[k] == id
    ensures forall j :: k < j < |ids| ==> ids[j] != id
    decreases |ids|
  {
    if ids[|ids| - 1] == id then |ids| - 1 else LastIndex(ids[..|ids| - 1], id)
  }

  /** The request succeeds: every id names a task, and a rejected NULL status is never needed. */
  predicate ReorderSucceeds(todos: Todos, overlays: Overlays, user: string, ids: seq<string>,
                            policy: NullStatusPolicy)
  {
    && (forall i :: 0 <= i < |ids| ==> ids[i] in todos)
    && (policy == RejectNullStatus ==>
          forall i :: 0 <= i < |ids| && ids[i] in todos && todos[ids[i]].isDefault ==> (user, ids[i]) in overlays)
  }

  /** The overlay keys a reorder touches: the caller's, for each default task it lists. */
  function TouchedOverlays(todos: Todos, user: string, ids: seq<string>): (keys: set<(string, string)>)
    ensures forall k :: k in keys <==> k.0 == user && k.1 in ids && k.1 in todos && todos[k.1].isDefault
  {
    set id | id in ids && id in todos && todos[id].isDefault :: (user, id)
  }

  /**
    `todos` after a successful reorder: each personal task of the caller
    that is listed sits at the position of its last occurrence; every
    other row is as before.
   */
  function ReorderedTodos(todos: Todos, user: string, ids: seq<string>): (r: Todos)
    ensures r.Keys == todos.Keys
    ensures forall id :: id in todos ==>
      r[id] == if id in ids && !todos[id].isDefault && todos[id].owner == Some(user)
               then todos[id].(position := OrderPosition(LastIndex(ids, id)))
               else todos[id]
  {
    map id | id in todos ::
      if id in ids && !todos[id].isDefault && todos[id].owner == Some(user)
      then todos[id].(position := OrderPosition(LastIndex(ids, id)))
      else todos[id]
  }

  /**
    `user_todo_state` after a successful reorder: the caller's row for
    each listed default task exists, sits at the position of that task's
    last occurrence, keeps the status it had (NULL for a new row) and is
    stamped `now`; every other row is as before.
   */
  function ReorderedOverlays(todos: Todos, overlays: Overlays, user: string, ids: seq<string>,
                             now: int): (r: Overlays)
    ensures r.Keys == overlays.Keys + TouchedOverlays(todos, user, ids)
    ensures forall k :: k in r ==>
      r[k] == if k in TouchedOverlays(todos, user, ids)
              then Overlay(if k in overlays then overlays[k].status else None, OrderPosition(LastIndex(ids, k.1)), now)
              else overlays[k]
  {
    var touched := TouchedOverlays(todos, user, ids);
    map k | k in overlays.Keys + touched ::
      if k in touched
      then Overlay(if k in overlays then overlays[k].status else None, OrderPosition(LastIndex(ids, k.1)), now)
      else overlays[k]
  }

  lemma LastIndexSnoc(ids: seq<string>, x: string, id: string)
    requires id in ids + [x]
    ensures id == x ==> LastIndex(ids + [x], id) == |ids|
    ensures id != x ==> id in ids && LastIndex(ids + [x], id) == LastIndex(ids, id)
  {
    assert (ids + [x])[..|ids|] == ids;
  }

  /** The prefix state after `n` ids, in closed form. */
  lemma {:induction false} ReorderUpToClosedForm(todos: Todos, overlays: Overlays, user: string,
                                                 ids: seq<string>, n: nat, policy: NullStatusPolicy, now: int)
    requires n <= |ids|
    ensures ReorderUpTo(todos, overlays, user, ids, n, policy, now).Some? <==>
              ReorderSucceeds(todos, overlays, user, ids[..n], policy)
    ensures ReorderSucceeds(todos, overlays, user, ids[..n], policy) ==>
              ReorderUpTo(todos, overlays, user, ids, n, policy, now) ==
                Some((ReorderedTodos(todos, user, ids[..n]), ReorderedOverlays(todos, overlays, user, ids[..n], now)))
    decreases n
  {
    if n == 0 {
      assert ids[..0] == [];
      assert ReorderedTodos(todos, user, []) == todos;
      assert ReorderedOverlays(todos, overlays, user, [], now) == overlays;
    } else {
      ReorderUpToClosedForm(todos, overlays, user, ids, n - 1, policy, now);
      var pre, x := ids[..n - 1], ids[n - 1];
      assert ids[..n] == pre + [x];
      var prev := ReorderUpTo(todos, overlays, user, ids, n - 1, policy, now);
      assert ReorderUpTo(todos, overlays, user, ids, n, policy, now) ==
        if prev.None? then None
        else ReorderStep(prev.value.0, prev.value.1, user, x, OrderPosition(|pre|), policy, now);
      if ReorderSucceeds(todos, overlays, user, pre + [x], policy) {
        ReorderSucceedsPrefix(todos, overlays, user, pre, x, policy);
        ReorderSucceedsSnoc(todos, overlays, user, pre, x, policy);
        StepMatchesClosedForm(todos, overlays, user, pre, x, policy, now);
      } else if ReorderSucceeds(todos, overlays, user, pre, policy) {
        StepFailsClosedForm(todos, overlays, user, pre, x, policy, now);
      }
    }
  }

  /** From the closed form after `pre`, the step for an `x` that makes the request fail fails. */
  lemma StepFailsClosedForm(todos: Todos, overlays: Overlays, user: string, pre: seq<string>, x: string,
                            policy: NullStatusPolicy, now: int)
    requires ReorderSucceeds(todos, overlays, user, pre, policy)
    requires !ReorderSucceeds(todos, overlays, user, pre + [x], policy)
    ensures var t0, o0 := ReorderedTodos(todos, user, pre), ReorderedOverlays(todos, overlays, user, pre, now);
      ReorderStep(t0, o0, user, x, OrderPosition(|pre|), policy, now).None?
  {
    ReorderSucceedsSnoc(todos, overlays, user, pre, x, policy);
    var t0 := ReorderedTodos(todos, user, pre);
    if x in todos {
      assert t0[x].isDefault == todos[x].isDefault;
    }
  }

  lemma ReorderSucceedsPrefix(todos: Todos, overlays: Overlays, user: string, pre: seq<string>, x: string,
                              policy: NullStatusPolicy)
    requires ReorderSucceeds(todos, overlays, user, pre + [x], policy)
    ensures ReorderSucceeds(todos, overlays, user, pre, policy)
  {
    forall i | 0 <= i < |pre|
      ensures pre[i] == (pre + [x])[i]
    {
    }
  }

  /**
    Success after one more id: the earlier ids succeeded, the id names a
    task and, when NULL statuses are rejected, a default task has an
    overlay row by now.
   */
  lemma ReorderSucceedsSnoc(todos: Todos, overlays: Overlays, user: string, pre: seq<string>, x: string,
                            policy: NullStatusPolicy)
    requires ReorderSucceeds(todos, overlays, user, pre, policy)
    ensures ReorderSucceeds(todos, overlays, user, pre + [x], policy) <==>
      x in todos && (policy == RejectNullStatus && todos[x].isDefault ==>
                       (user, x) in overlays.Keys + TouchedOverlays(todos, user, pre))
  {
    var ids := pre + [x];
    assert ids[|pre|] == x;
    forall i | 0 <= i < |pre|
      ensures ids[i] == pre[i]
    {
    }
    if x in todos && policy == RejectNullStatus && todos[x].isDefault && (user, x) in TouchedOverlays(todos, user, pre) {
      var i :| 0 <= i < |pre| && pre[i] == x;
      assert (user, pre[i]) in overlays;
    }
  }

  /** Appending `x` moves only what mentions `x` in the closed forms, and records its new last index. */
  lemma LastIndexFacts(pre: seq<string>, x: string)
    ensures forall id :: id in pre + [x] <==> id in pre || id == x
    ensures LastIndex(pre + [x], x) == |pre|
    ensures forall id :: id in pre && id != x ==> LastIndex(pre + [x], id) == LastIndex(pre, id)
  {
    var ids := pre + [x];
    assert ids[|pre|] == x;
    forall id | id in pre
      ensures id in ids
    {
      var i :| 0 <= i < |pre| && pre[i] == id;
      assert ids[i] == id;
    }
    forall id | id in ids
      ensures id in pre || id == x
    {
      LastIndexSnoc(pre, x, id);
    }
    LastIndexSnoc(pre, x, x);
    forall id | id in pre && id != x
      ensures LastIndex(ids, id) == LastIndex(pre, id)
    {
      LastIndexSnoc(pre, x, id);
    }
  }

  /** A step on a task that is not default leaves the overlays in closed form. */
  lemma OverlaysUntouchedByPersonal(todos: Todos, overlays: Overlays, user: string, pre: seq<string>, x: string,
                                    now: int)
    requires x in todos && !todos[x].isDefault
    ensures ReorderedOverlays(todos, overlays, user, pre + [x], now) == ReorderedOverlays(todos, overlays, user, pre, now)
  {
    LastIndexFacts(pre, x);
    assert TouchedOverlays(todos, user, pre + [x]) == TouchedOverlays(todos, user, pre);
  }

  /** A step on a default task leaves `todos` in closed form. */
  lemma TodosUntouchedByDefault(todos: Todos, user: string, pre: seq<string>, x: string)
    requires x in todos && todos[x].isDefault
    ensures ReorderedTodos(todos, user, pre + [x]) == ReorderedTodos(todos, user, pre)
  {
    LastIndexFacts(pre, x);
  }

  /** A step on a personal task the caller does not own changes nothing. */
  lemma TodosUntouchedByOthers(todos: Todos, user: string, pre: seq<string>, x: string)
    requires x in todos && !todos[x].isDefault && todos[x].owner != Some(user)
    ensures ReorderedTodos(todos, user, pre + [x]) == ReorderedTodos(todos, user, pre)
  {
    LastIndexFacts(pre, x);
  }

  /** A step on a personal task of the caller moves that row only. */
  lemma OwnedStep(todos: Todos, user: string, pre: seq<string>, x: string)
    requires x in todos && !todos[x].isDefault && todos[x].owner == Some(user)
    ensures var t0 := ReorderedTodos(todos, user, pre);
      ReorderedTodos(todos, user, pre + [x]) == t0[x := t0[x].(position := OrderPosition(|pre|))]
  {
    var t0, t1 := ReorderedTodos(todos, user, pre), ReorderedTodos(todos, user, pre + [x]);
    var want := t0[x := t0[x].(position := OrderPosition(|pre|))];
    assert t1.Keys == want.Keys;
    forall id | id in t1
      ensures t1[id] == want[id]
    {
      if id == x {
        LastIndexSnoc(pre, x, x);
        assert (pre + [x])[|pre|] == x;
      } else {
        InPrefixOrLast(pre, x, id);
        if id in pre + [x] {
          LastIndexSnoc(pre, x, id);
        }
      }
    }
  }

  lemma InPrefixOrLast(pre: seq<string>, x: string, id: string)
    ensures id in pre + [x] <==> id in pre || id == x
  {
    if id in pre {
      var i :| 0 <= i < |pre| && pre[i] == id;
      assert (pre + [x])[i] == id;
    }
    if id == x {
      assert (pre + [x])[|pre|] == x;
    }
  }

  lemma TouchedSnoc(todos: Todos, user: string, pre: seq<string>, x: string)
    requires x in todos && todos[x].isDefault
    ensures TouchedOverlays(todos, user, pre + [x]) == TouchedOverlays(todos, user, pre) + {(user, x)}
  {
    var a, b := TouchedOverlays(todos, user, pre + [x]), TouchedOverlays(todos, user, pre) + {(user, x)};
    forall j | j in a
      ensures j in b
    {
      InPrefixOrLast(pre, x, j.1);
    }
    forall j | j in b
      ensures j in a
    {
      InPrefixOrLast(pre, x, j.1);
    }
  }

  /** A step on a default task keeps every other overlay row. */
  lemma DefaultStepKeepsOthers(todos: Todos, overlays: Overlays, user: string, pre: seq<string>, x: string,
                               now: int, j: (string, string))
    requires x in todos && todos[x].isDefault
    requires j in ReorderedOverlays(todos, overlays, user, pre + [x], now) && j != (user, x)
    ensures j in ReorderedOverlays(todos, overlays, user, pre, now)
    ensures ReorderedOverlays(todos, overlays, user, pre + [x], now)[j] ==
            ReorderedOverlays(todos, overlays, user, pre, now)[j]
  {
    TouchedSnoc(todos, user, pre, x);
    if j in TouchedOverlays(todos, user, pre) {
      LastIndexSnoc(pre, x, j.1);
    }
  }

  lemma ExistingRowMoved(todos: Todos, overlays: Overlays, user: string, pre: seq<string>, x: string, now: int)
    requires x in todos && todos[x].isDefault
    requires (user, x) in ReorderedOverlays(todos, overlays, user, pre, now)
    ensures var o0, o1 := ReorderedOverlays(todos, overlays, user, pre, now),
                          ReorderedOverlays(todos, overlays, user, pre + [x], now);
      o1.Keys == o0.Keys && o1[(user, x)] == o0[(user, x)].(position := OrderPosition(|pre|), updatedAt := now)
  {
    var o0 := ReorderedOverlays(todos, overlays, user, pre, now);
    var o1 := ReorderedOverlays(todos, overlays, user, pre + [x], now);
    var k := (user, x);
    TouchedSnoc(todos, user, pre, x);
    LastIndexSnoc(pre, x, x);
    var status := if k in overlays then overlays[k].status else None;
    assert o1[k] == Overlay(status, OrderPosition(|pre|), now);
    if k !in TouchedOverlays(todos, user, pre) {
      assert o0[k] == overlays[k];
    }
    assert o0[k].status == status;
  }

  /** A step on a default task the caller already has an overlay row for moves that row. */
  lemma DefaultStepExisting(todos: Todos, overlays: Overlays, user: string, pre: seq<string>, x: string, now: int)
    requires x in todos && todos[x].isDefault
    requires (user, x) in ReorderedOverlays(todos, overlays, user, pre, now)
    ensures var o0 := ReorderedOverlays(todos, overlays, user, pre, now);
      ReorderedOverlays(todos, overlays, user, pre + [x], now) ==
        o0[(user, x) := o0[(user, x)].(position := OrderPosition(|pre|), updatedAt := now)]
  {
    var o0 := ReorderedOverlays(todos, overlays, user, pre, now);
    var o1 := ReorderedOverlays(todos, overlays, user, pre + [x], now);
    var k := (user, x);
    var want := o0[k := o0[k].(position := OrderPosition(|pre|), updatedAt := now)];
    assert o1.Keys == want.Keys && o1[k] == want[k] by {
      ExistingRowMoved(todos, overlays, user, pre, x, now);
    }
    assert forall j :: j in o1 && j != k ==> o1[j] == want[j] by {
      forall j | j in o1 && j != k
        ensures o1[j] == want[j]
      {
        DefaultStepKeepsOthers(todos, overlays, user, pre, x, now, j);
      }
    }
    OverlaysEqual(o1, want);
  }

  /** A step on a default task the caller has no overlay row for creates one with a NULL status. */
  lemma DefaultStepNew(todos: Todos, overlays: Overlays, user: string, pre: seq<string>, x: string, now: int)
    requires x in todos && todos[x].isDefault
    requires (user, x) !in ReorderedOverlays(todos, overlays, user, pre, now)
    ensures var o0 := ReorderedOverlays(todos, overlays, user, pre, now);
      ReorderedOverlays(todos, overlays, user, pre + [x], now) ==
        o0[(user, x) := Overlay(None, OrderPosition(|pre|), now)]
  {
    var o0 := ReorderedOverlays(todos, overlays, user, pre, now);
    var o1 := ReorderedOverlays(todos, overlays, user, pre + [x], now);
    var k := (user, x);
    var want := o0[k := Overlay(None, OrderPosition(|pre|), now)];
    assert o1.Keys == want.Keys && o1[k] == want[k] by {
      TouchedSnoc(todos, user, pre, x);
      LastIndexSnoc(pre, x, x);
    }
    assert forall j :: j in o1 && j != k ==> o1[j] == want[j] by {
      forall j | j in o1 && j != k
        ensures o1[j] == want[j]
      {
        DefaultStepKeepsOthers(todos, overlays, user, pre, x, now, j);
      }
    }
    OverlaysEqual(o1, want);
  }

  /** Two overlay tables with the same keys and the same row under each key are equal. */
  lemma OverlaysEqual(a: Overlays, b: Overlays)
    requires a.Keys == b.Keys && forall j :: j in a ==> a[j] == b[j]
    ensures a == b
  {
  }

  /** From the closed form after `pre`, one step gives the closed form after `pre + [x]`. */
  lemma StepMatchesClosedForm(todos: Todos, overlays: Overlays, user: string, pre: seq<string>, x: string,
                              policy: NullStatusPolicy, now: int)
    requires x in todos
    requires ReorderSucceeds(todos, overlays, user, pre + [x], policy)
    requires ReorderSucceeds(todos, overlays, user, pre, policy)
    requires policy == RejectNullStatus && todos[x].isDefault ==>
               (user, x) in overlays.Keys + TouchedOverlays(todos, user, pre)
    ensures var t0, o0 := ReorderedTodos(todos, user, pre), ReorderedOverlays(todos, overlays, user, pre, now);
      ReorderStep(t0, o0, user, x, OrderPosition(|pre|), policy, now) ==
        Some((ReorderedTodos(todos, user, pre + [x]), ReorderedOverlays(todos, overlays, user, pre + [x], now)))
  {
    if todos[x].isDefault {
      TodosUntouchedByDefault(todos, user, pre, x);
      if (user, x) in ReorderedOverlays(todos, overlays, user, pre, now) {
        DefaultStepExisting(todos, overlays, user, pre, x, now);
      } else {
        DefaultStepNew(todos, overlays, user, pre, x, now);
      }
    } else {
      OverlaysUntouchedByPersonal(todos, overlays, user, pre, x, now);
      if todos[x].owner == Some(user) {
        OwnedStep(todos, user, pre, x);
      } else {
        TodosUntouchedByOthers(todos, user, pre, x);
      }
    }
  }

  /**
    The whole request: it commits exactly when every id names a task and
    no NULL status would be rejected, and then leaves the tables in the
    closed form above.
   */
  lemma ReorderAllClosedForm(todos: Todos, overlays: Overlays, user: string, ids: seq<string>,
                             policy: NullStatusPolicy, now: int)
    ensures ReorderAll(todos, overlays, user, ids, policy, now).Some? <==>
              ReorderSucceeds(todos, overlays, user, ids, policy)
    ensures ReorderSucceeds(todos, overlays, user, ids, policy) ==>
              ReorderAll(todos, overlays, user, ids, policy, now) ==
                Some((ReorderedTodos(todos, user, ids), ReorderedOverlays(todos, overlays, user, ids, now)))
  {
    ReorderUpToClosedForm(todos, overlays, user, ids, |ids|, policy, now);
    assert ids[..|ids|] == ids;
  }

  /** An id that names no task rolls the whole request back. */
  lemma ReorderRejectsUnknownId(todos: Todos, overlays: Overlays, user: string, ids: seq<string>,
                                policy: NullStatusPolicy, now: int, i: nat)
    requires i < |ids| && ids[i] !in todos
    ensures ReorderAll(todos, overlays, user, ids, policy, now).None?
  {
    ReorderAllClosedForm(todos, overlays, user, ids, policy, now);
  }

  /**
    When NULL statuses are rejected, listing a default task the caller
    has never touched rolls the whole request back.
   */
  lemma ReorderNeedsOverlayWhenNullRejected(todos: Todos, overlays: Overlays, user: string, ids: seq<string>,
                                            now: int, i: nat)
    requires i < |ids| && ids[i] in todos && todos[ids[i]].isDefault && (user, ids[i]) !in overlays
    ensures ReorderAll(todos, overlays, user, ids, RejectNullStatus, now).None?
  {
    ReorderAllClosedForm(todos, overlays, user, ids, RejectNullStatus, now);
  }

  /** Sending the same order again, at the same instant, changes nothing more. */
  lemma ReorderIdempotent(todos: Todos, overlays: Overlays, user: string, ids: seq<string>,
                          policy: NullStatusPolicy, now: int)
    requires ReorderAll(todos, overlays, user, ids, policy, now).Some?
    ensures var st := ReorderAll(todos, overlays, user, ids, policy, now).value;
      ReorderAll(st.0, st.1, user, ids, policy, now) == Some(st)
  {
    ReorderAllClosedForm(todos, overlays, user, ids, policy, now);
    var t1, o1 := ReorderedTodos(todos, user, ids), ReorderedOverlays(todos, overlays, user, ids, now);
    assert TouchedOverlays(t1, user, ids) == TouchedOverlays(todos, user, ids);
    assert ReorderSucceeds(t1, o1, user, ids, policy);
    ReorderAllClosedForm(t1, o1, user, ids, policy, now);
    assert ReorderedTodos(t1, user, ids) == t1;
    assert ReorderedOverlays(t1, o1, user, ids, now) == o1;
  }

  /** A committed reorder keeps the tables well formed. */
  lemma {:induction false} ReorderKeepsWellFormed(todos: Todos, overlays: Overlays, user: string,
                                                  ids: seq<string>, n: nat, policy: NullStatusPolicy, now: int)
    requires n <= |ids| && WellFormed(todos, overlays)
    requires ReorderUpTo(todos, overlays, user, ids, n, policy, now).Some?
    ensures var st := ReorderUpTo(todos, overlays, user, ids, n, policy, now).value;
      WellFormed(st.0, st.1)
    decreases n
  {
    if n > 0 {
      ReorderKeepsWellFormed(todos, overlays, user, ids, n - 1, policy, now);
      var st := ReorderUpTo(todos, overlays, user, ids, n - 1, policy, now).value;
      ReorderStepKeepsWellFormed(st.0, st.1, user, ids[n - 1], OrderPosition(n - 1), policy, now);
    }
  }
}
