/**
  The two tables every handler reads and writes — `todos` and
  `user_todo_state` — with the `users` table that the operator handlers
  consult, the position allocator and the overlay upserts.
 */
module Tables {
  import opened Wrappers
  import opened Models

  /** `todos`, keyed by task id. */
  type Todos = map<string, Todo>

  /** `user_todo_state`, keyed by (user id, task id). */
  type Overlays = map<(string, string), Overlay>

  /**
    What the handlers keep true of the tables: a default task has no owner
    and its own status stays pending (per-user status lives in the
    overlay), and every position is a whole multiple of PositionIncrement,
    which is why positions are integers here.
   */
  ghost predicate WellFormed(todos: Todos, overlays: Overlays)
  {
    && (forall id :: id in todos && todos[id].isDefault ==>
          todos[id].owner.None? && todos[id].status == StatusPending)
    && (forall id :: id in todos ==> todos[id].position % PositionIncrement == 0)
    && (forall k :: k in overlays ==> overlays[k].position % PositionIncrement == 0)
  }

  /** The database the handlers share. */
  class Database {
    var todos: Todos
    var overlays: Overlays
    var users: set<string>

    ghost predicate Valid()
      reads this
    {
      WellFormed(todos, overlays)
    }

    /** A newly generated task id collides with no row of either table. */
    ghost predicate FreshId(id: string)
      reads this
    {
      id !in todos && forall k :: k in overlays ==> k.1 != id
    }

    /**
      `SELECT COALESCE(MIN(position), 0) FROM todos WHERE <scope>`, one row
      at a time.
     */
    method MinPosition(scope: set<string>) returns (m: int)
      requires scope <= todos.Keys
      ensures m == MinOrZero(todos, scope)
    {
      var rest, seen := scope, {};
      var found := false;
      ghost var best := "";
      m := 0;
      while rest != {}
        invariant rest + seen == scope && rest !! seen
        invariant found <==> seen != {}
        invariant !found ==> m == 0
        invariant found ==> best in seen && todos[best].position == m
        invariant forall id :: id in seen ==> m <= todos[id].position
        decreases |rest|
      {
        var id :| id in rest;
        if !found || todos[id].position < m {
          m := todos[id].position;
          best := id;
        }
        found := true;
        rest, seen := rest - {id}, seen + {id};
      }
      ghost var least := MinOrZero(todos, scope);
      if scope != {} {
        ghost var b :| b in scope && todos[b].position == least;
        assert m <= todos[b].position && least <= todos[best].position;
      }
    }

    constructor (users: set<string>)
      ensures todos == map[] && overlays == map[] && this.users == users
      ensures Valid()
    {
      todos := map[];
      overlays := map[];
      this.users := users;
    }
  }

  /**
    The LEFT JOIN on (task, viewer): the viewer's overlay row, looked up for
    default tasks only.
   */
  function OverlayFor(overlays: Overlays, user: string, id: string, t: Todo): (ov: Option<Overlay>)
    ensures ov.Some? <==> t.isDefault && (user, id) in overlays
    ensures ov.Some? ==> ov.value == overlays[(user, id)]
  {
    if t.isDefault && (user, id) in overlays then Some(overlays[(user, id)]) else None
  }

  /** Task `id` as `user` sees it. */
  function Effective(todos: Todos, overlays: Overlays, user: string, id: string): (v: View)
    requires id in todos
    ensures !todos[id].isDefault ==> v == CanonicalView(id, todos[id])
    ensures v.id == id && v.text == todos[id].text
  {
    Resolve(id, todos[id], OverlayFor(overlays, user, id, todos[id]))
  }

  // ---- Position allocator ----

  /** Some row of `scope` has the least position in it. */
  lemma {:induction false} LeastExists(todos: Todos, scope: set<string>)
    requires scope != {} && scope <= todos.Keys
    ensures exists id :: id in scope && forall x :: x in scope ==> todos[id].position <= todos[x].position
    decreases |scope|
  {
    var y :| y in scope;
    var rest := scope - {y};
    if rest == {} {
      assert scope == {y};
      assert forall x :: x in scope ==> todos[y].position <= todos[x].position;
    } else {
      LeastExists(todos, rest);
      var m :| m in rest && forall x :: x in rest ==> todos[m].position <= todos[x].position;
      if todos[m].position <= todos[y].position {
        assert m in scope && forall x :: x in scope ==> todos[m].position <= todos[x].position by {
          forall x | x in scope ensures todos[m].position <= todos[x].position {
            if x != y { assert x in rest; }
          }
        }
      } else {
        assert y in scope && forall x :: x in scope ==> todos[y].position <= todos[x].position by {
          forall x | x in scope ensures todos[y].position <= todos[x].position {
            if x != y { assert x in rest; }
          }
        }
      }
    }
  }

  /** SQL's `COALESCE(MIN(position), 0)` over the rows `scope`. */
  ghost function MinOrZero(todos: Todos, scope: set<string>): (m: int)
    requires scope <= todos.Keys
    ensures scope == {} ==> m == 0
    ensures scope != {} ==> exists id :: id in scope && todos[id].position == m
    ensures forall id :: id in scope ==> m <= todos[id].position
  {
    if scope == {} then 0
    else
      LeastExists(todos, scope);
      var id :| id in scope && forall x :: x in scope ==> todos[id].position <= todos[x].position;
      todos[id].position
  }

  /**
    The position of a task inserted at the top of the rows `scope`: one
    increment below the least of their positions, or below 0 when there is
    none. It lies strictly below every position in the scope and, like
    them, on the 1024 grid.
   */
  ghost function PrependPosition(todos: Todos, scope: set<string>): (p: int)
    requires scope <= todos.Keys
    ensures forall id :: id in scope ==> p < todos[id].position
    ensures scope == {} ==> p == -PositionIncrement
    ensures (forall id :: id in scope ==> todos[id].position % PositionIncrement == 0) ==>
              p % PositionIncrement == 0
  {
    MinOrZero(todos, scope) - PositionIncrement
  }

  /** The rows `user` owns: the definition of `WHERE user_id = $1`, which the list and position lemmas use. */
  function OwnedBy(todos: Todos, user: string): (scope: set<string>)
    ensures scope <= todos.Keys
    ensures forall id :: id in scope <==> id in todos && todos[id].owner == Some(user)
  {
    set id | id in todos && todos[id].owner == Some(user)
  }

  /** The default rows: the definition of `WHERE is_default_task = true`. */
  function DefaultRows(todos: Todos): (scope: set<string>)
    ensures scope <= todos.Keys
    ensures forall id :: id in scope <==> id in todos && todos[id].isDefault
  {
    set id | id in todos && todos[id].isDefault
  }

  /** The position a full reorder gives the `index`-th id. */
  function OrderPosition(index: nat): (p: int)
    ensures p >= 0 && p % PositionIncrement == 0 && p / PositionIncrement == index
  {
    index * PositionIncrement
  }

  /** A prepended row's position is on the grid, so inserting it keeps the tables well formed. */
  lemma InsertKeepsWellFormed(todos: Todos, overlays: Overlays, id: string, t: Todo)
    requires WellFormed(todos, overlays)
    requires t.position % PositionIncrement == 0
    requires t.isDefault ==> t.owner.None? && t.status == StatusPending
    ensures WellFormed(todos[id := t], overlays)
  {
  }

  // ---- Overlay upserts ----

  /**
    The status upsert on `user_todo_state`: an existing row gets the new
    status and keeps its position; a new row takes that task's canonical
    position.
   */
  function SetOverlayStatus(todos: Todos, overlays: Overlays, user: string, id: string,
                            status: string, now: int): (r: Overlays)
    requires id in todos
    ensures r.Keys == overlays.Keys + {(user, id)}
    ensures forall k :: k in overlays && k != (user, id) ==> r[k] == overlays[k]
    ensures r[(user, id)].status == Some(status)
    ensures r[(user, id)].position ==
      if (user, id) in overlays then overlays[(user, id)].position else todos[id].position
    ensures r[(user, id)].updatedAt == now
  {
    var k := (user, id);
    if k in overlays then overlays[k := overlays[k].(status := Some(status), updatedAt := now)]
    else overlays[k := Overlay(Some(status), todos[id].position, now)]
  }

  /**
    Setting a user's status on a default task changes what that user sees
    of that task to the new status and nothing else — in particular it
    does not move it — and changes nothing anyone else sees.
   */
  lemma StatusChangeKeepsPlace(todos: Todos, overlays: Overlays, user: string, id: string,
                               status: string, now: int)
    requires id in todos && todos[id].isDefault
    ensures var after := SetOverlayStatus(todos, overlays, user, id, status, now);
      && Effective(todos, after, user, id) == Effective(todos, overlays, user, id).(status := status)
      && forall u, id' :: id' in todos && (u, id') != (user, id) ==>
           Effective(todos, after, u, id') == Effective(todos, overlays, u, id')
  {
  }

  lemma SetOverlayStatusKeepsWellFormed(todos: Todos, overlays: Overlays, user: string, id: string,
                                        status: string, now: int)
    requires id in todos && WellFormed(todos, overlays)
    ensures WellFormed(todos, SetOverlayStatus(todos, overlays, user, id, status, now))
  {
  }
}
