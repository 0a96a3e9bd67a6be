/**
  The signed-in user's task endpoints: the listing that merges default
  tasks with the caller's own, and the create, update and delete
  handlers with their permission decisions. The caller's id (absent when
  the request carries no session) and role are explicit parameters; task
  ids and clock readings are parameters too.
 */
module TodoApi {
  import opened Wrappers
  import opened Models
  import opened Ordering
  import opened Tables
  import opened Reordering

  /** The LIMIT of every user listing. */
  const ListLimit: nat := 100

  // ---- Listing ----

  /** The listing leaves default tasks out when asked to, and always for an operator. */
  predicate ExcludesDefaults(role: string, excludeParam: string)
  {
    excludeParam == "true" || role == RoleAdmin
  }

  /**
    The WHERE clause of the listing: with defaults excluded, the caller's
    own personal rows, hidden or not; otherwise the caller's rows and all
    default tasks, minus hidden rows.
   */
  predicate Listed(t: Todo, user: string, exclude: bool)
  {
    if exclude then t.owner == Some(user) && !t.isDefault
    else (t.owner == Some(user) || t.isDefault) && !t.hiddenFromUser
  }

  /** A listed row as the caller receives it: overlay resolved, `user_id` not selected. */
  function ListedView(todos: Todos, overlays: Overlays, user: string, id: string): (v: View)
    requires id in todos
    ensures v.id == id && v.owner.None?
    ensures !todos[id].isDefault ==> v == CanonicalView(id, todos[id]).(owner := None)
  {
    Effective(todos, overlays, user, id).(owner := None)
  }

  /** The rows the listing query selects: the definition of its `WHERE` clause, used by the list lemmas. */
  function ListedRows(todos: Todos, user: string, exclude: bool): (ids: set<string>)
    ensures ids <= todos.Keys
    ensures forall id :: id in ids <==> id in todos && Listed(todos[id], user, exclude)
  {
    set id | id in todos && Listed(todos[id], user, exclude)
  }

  ghost function ViewsOf(todos: Todos, overlays: Overlays, user: string, ids: set<string>): (s: set<View>)
    requires ids <= todos.Keys
    ensures forall v :: v in s ==> v.id in ids && v == ListedView(todos, overlays, user, v.id)
    ensures forall id :: id in ids ==> ListedView(todos, overlays, user, id) in s
  {
    set id | id in ids :: ListedView(todos, overlays, user, id)
  }

  /** One view per row, so there are never more views than rows. */
  lemma {:induction false} ViewsNoMoreThanRows(todos: Todos, overlays: Overlays, user: string, ids: set<string>)
    requires ids <= todos.Keys
    ensures |ViewsOf(todos, overlays, user, ids)| <= |ids|
    decreases |ids|
  {
    if ids != {} {
      var x :| x in ids;
      var rest := ids - {x};
      ViewsNoMoreThanRows(todos, overlays, user, rest);
      assert ViewsOf(todos, overlays, user, ids) ==
        ViewsOf(todos, overlays, user, rest) + {ListedView(todos, overlays, user, x)};
    }
  }

  /**
    GET /api/todos: 401 without a session; otherwise the selected rows in
    listing order, at most ListLimit of them, each exactly as the caller
    sees it, and an empty array rather than null when there are none.
   */
  ghost function List(todos: Todos, overlays: Overlays, caller: Option<string>,
                      role: string, excludeParam: string): (r: Response)
    ensures caller.None? <==> r == Unauthorized
    ensures caller.Some? ==> r.Ok? && r.body.Many?
    ensures caller.Some? ==> |r.body.views| <= ListLimit && Sorted(r.body.views)
    ensures caller.Some? ==> forall v :: v in r.body.views ==>
      && v.id in todos
      && Listed(todos[v.id], caller.value, ExcludesDefaults(role, excludeParam))
      && v == ListedView(todos, overlays, caller.value, v.id)
    ensures caller.Some? && ListedRows(todos, caller.value, ExcludesDefaults(role, excludeParam)) == {} ==>
      r == Ok(Many([]))
  {
    if caller.None? then Unauthorized
    else
      var user := caller.value;
      var rows := ListedRows(todos, user, ExcludesDefaults(role, excludeParam));
      Ok(Many(Take(SortViews(ViewsOf(todos, overlays, user, rows)), ListLimit)))
  }

  /**
    An ordinary user who does not ask for exclusion sees exactly the
    default tasks and their own tasks, minus hidden ones, whenever there
    are no more than ListLimit of them.
   */
  lemma ListShowsDefaultsAndOwn(todos: Todos, overlays: Overlays, user: string, role: string,
                                excludeParam: string, id: string)
    requires !ExcludesDefaults(role, excludeParam) && id in todos
    requires |ListedRows(todos, user, false)| <= ListLimit
    ensures var r := List(todos, overlays, Some(user), role, excludeParam);
      (exists v :: v in r.body.views && v.id == id) <==>
        (todos[id].isDefault || todos[id].owner == Some(user)) && !todos[id].hiddenFromUser
  {
    var rows := ListedRows(todos, user, false);
    ViewsNoMoreThanRows(todos, overlays, user, rows);
    TakeAll(ViewsOf(todos, overlays, user, rows), ListLimit);
    if id in rows {
      assert ListedView(todos, overlays, user, id) in ViewsOf(todos, overlays, user, rows);
    }
  }

  /**
    With defaults excluded (an operator, or exclude_admin_todos=true) the
    listing holds the caller's own personal tasks only, hidden ones
    included, each with its own canonical fields.
   */
  lemma ListExcludingDefaults(todos: Todos, overlays: Overlays, user: string, role: string,
                              excludeParam: string, id: string)
    requires ExcludesDefaults(role, excludeParam) && id in todos
    requires |ListedRows(todos, user, true)| <= ListLimit
    ensures var r := List(todos, overlays, Some(user), role, excludeParam);
      && ((exists v :: v in r.body.views && v.id == id) <==> todos[id].owner == Some(user) && !todos[id].isDefault)
      && forall v :: v in r.body.views ==> v == CanonicalView(v.id, todos[v.id]).(owner := None)
  {
    var rows := ListedRows(todos, user, true);
    ViewsNoMoreThanRows(todos, overlays, user, rows);
    TakeAll(ViewsOf(todos, overlays, user, rows), ListLimit);
    if id in rows {
      assert ListedView(todos, overlays, user, id) in ViewsOf(todos, overlays, user, rows);
    }
  }

  /**
    A listed default task shows the caller's overlay status (that task's
    own when the overlay's is NULL) and overlay position when the caller
    has an overlay row, its own fields otherwise; a personal task
    always shows its own fields.
   */
  lemma ListResolvesOverlay(todos: Todos, overlays: Overlays, user: string, role: string,
                            excludeParam: string, v: View)
    requires v in List(todos, overlays, Some(user), role, excludeParam).body.views
    ensures var t := todos[v.id];
      && (t.isDefault && (user, v.id) in overlays ==>
            v.status == overlays[(user, v.id)].status.GetOr(t.status) &&
            v.position == overlays[(user, v.id)].position)
      && (!(t.isDefault && (user, v.id) in overlays) ==> v.status == t.status && v.position == t.position)
      && v.text == t.text && v.created == t.created && v.isDefault == t.isDefault
  {
  }

  /**
    The cut at ListLimit keeps the first rows: a selected row that is not
    returned comes after every row that is.
   */
  lemma ListKeepsFirstRows(todos: Todos, overlays: Overlays, user: string, role: string,
                           excludeParam: string, id: string)
    requires id in ListedRows(todos, user, ExcludesDefaults(role, excludeParam))
    ensures var r := List(todos, overlays, Some(user), role, excludeParam);
      var v := ListedView(todos, overlays, user, id);
      v !in r.body.views ==> |r.body.views| == ListLimit && forall w :: w in r.body.views ==> Before(w, v)
  {
    var rows := ListedRows(todos, user, ExcludesDefaults(role, excludeParam));
    var s := ViewsOf(todos, overlays, user, rows);
    var v := ListedView(todos, overlays, user, id);
    assert v in s;
    if v !in Take(SortViews(s), ListLimit) {
      TakeKeepsFirst(s, ListLimit, v);
    }
  }

  // ---- Creation ----

  /**
    The row POST /api/todos inserts for `user`: pending, personal, owned
    and created by `user`, shared with operators unless the request says
    otherwise, placed above every row `user` owns.
   */
  ghost function NewPersonalTask(todos: Todos, user: string, text: string, shared: Option<bool>,
                                 now: int): (t: Todo)
    ensures t.text == text && t.status == StatusPending && t.created == now
    ensures t.owner == Some(user) && t.createdBy == Some(user)
    ensures !t.isDefault && !t.hiddenFromUser
    ensures t.sharedWithAdmin <==> shared != Some(false)
    ensures forall id :: id in todos && todos[id].owner == Some(user) ==> t.position < todos[id].position
  {
    Todo(text, StatusPending, now, PrependPosition(todos, OwnedBy(todos, user)), Some(user), Some(user),
         false, shared.GetOr(true), false)
  }

  /** May the caller change task `t` at all (before looking at which fields)? */
  predicate MayUpdate(t: Todo, user: string)
  {
    t.isDefault || t.owner == Some(user)
  }

  /** This task was put on the caller's list by someone else (an operator). */
  predicate AssignedByOther(t: Todo, user: string)
  {
    t.createdBy.Some? && t.createdBy.value != user
  }

  /** Non-empty text must pass ValidateText and a non-empty status must be one of the three. */
  predicate UpdateInputValid(text: string, status: string)
  {
    (text == "" || ValidateText(text)) && (status == "" || IsValidStatus(status))
  }

  /**
    A personal row after an update: every field present in the request
    (non-empty text or status, a given sharing flag) is replaced, the rest
    are kept.
   */
  function Patch(t: Todo, text: string, status: string, shared: Option<bool>): (p: Todo)
    ensures p.created == t.created && p.position == t.position && p.owner == t.owner
    ensures p.createdBy == t.createdBy && p.isDefault == t.isDefault && p.hiddenFromUser == t.hiddenFromUser
    ensures text == "" ==> p.text == t.text
    ensures status == "" ==> p.status == t.status
    ensures shared.None? ==> p.sharedWithAdmin == t.sharedWithAdmin
  {
    t.(text := if text != "" then text else t.text,
       status := if status != "" then status else t.status,
       sharedWithAdmin := if shared.Some? then shared.value else t.sharedWithAdmin)
  }

  /** Sending the same update twice changes nothing the second time. */
  lemma PatchIdempotent(t: Todo, text: string, status: string, shared: Option<bool>)
    ensures Patch(Patch(t, text, status, shared), text, status, shared) == Patch(t, text, status, shared)
  {
  }

  /** An update that carries a field leaves it with the value sent. */
  lemma PatchWritesPresentFields(t: Todo, text: string, status: string, shared: Option<bool>)
    ensures text != "" ==> Patch(t, text, status, shared).text == text
    ensures status != "" ==> Patch(t, text, status, shared).status == status
    ensures shared.Some? ==> Patch(t, text, status, shared).sharedWithAdmin == shared.value
    ensures text == "" && status == "" && shared.None? ==> Patch(t, text, status, shared) == t
  {
  }

  /** May the caller delete task `t`? */
  predicate MayDelete(t: Todo, user: string, role: string)
  {
    if t.isDefault then role == RoleAdmin
    else t.owner == Some(user) && (role == RoleAdmin || !AssignedByOther(t, user))
  }

  /**
    The three delete rules: only an operator deletes a default task; only
    the owner deletes a personal task; and an ordinary user may not delete
    a task someone else put on their list.
   */
  lemma DeleteRules(t: Todo, user: string, role: string)
    ensures t.isDefault ==> (MayDelete(t, user, role) <==> role == RoleAdmin)
    ensures !t.isDefault && t.owner != Some(user) ==> !MayDelete(t, user, role)
    ensures !t.isDefault && role != RoleAdmin && AssignedByOther(t, user) ==> !MayDelete(t, user, role)
    ensures !t.isDefault && t.owner == Some(user) && t.createdBy == Some(user) ==> MayDelete(t, user, role)
  {
  }

  /** The user-facing handlers over the shared database. */
  class TodoHandler {
    const db: Database

    constructor (db: Database)
      ensures this.db == db
    {
      this.db := db;
    }

    /** POST /api/todos. */
    method Create(caller: Option<string>, text: string, shared: Option<bool>, id: string, now: int)
      returns (r: Response)
      requires db.FreshId(id)
      modifies db`todos
      ensures caller.None? ==> r == Unauthorized
      ensures caller.Some? && !ValidateText(text) ==> r == BadRequest
      ensures !r.Created? ==> db.todos == old(db.todos)
      ensures r.Created? <==> caller.Some? && ValidateText(text)
      ensures r.Created? ==>
        var t := NewPersonalTask(old(db.todos), caller.value, text, shared, now);
        db.todos == old(db.todos)[id := t] && r.created == CanonicalView(id, t).(owner := None)
      ensures old(db.Valid()) ==> db.Valid()
    {
      if caller.None? {
        return Unauthorized;
      }
      if !ValidateText(text) {
        return BadRequest;
      }
      var user := caller.value;
      var sharedWithAdmin := true;
      if shared.Some? {
        sharedWithAdmin := shared.value;
      }
      ghost var scope := OwnedBy(db.todos, user);
      var minPos := db.MinPosition(OwnedBy(db.todos, user));
      var t := Todo(text, StatusPending, now, minPos - PositionIncrement, Some(user), Some(user),
                    false, sharedWithAdmin, false);
      assert t == NewPersonalTask(db.todos, user, text, shared, now);
      if db.Valid() {
        InsertKeepsWellFormed(db.todos, db.overlays, id, t);
      }
      db.todos := db.todos[id := t];
      r := Created(CanonicalView(id, t).(owner := None));
    }

    /** PUT /api/todos/{id}. */
    method Update(caller: Option<string>, id: string, text: string, status: string,
                  shared: Option<bool>, now: int) returns (r: Response)
      modifies db`todos, db`overlays
      ensures caller.None? ==> r == Unauthorized
      ensures caller.Some? && (id == "" || !UpdateInputValid(text, status)) ==> r == BadRequest
      ensures caller.Some? && id != "" && UpdateInputValid(text, status) && id !in old(db.todos) ==>
        r == NotFound
      ensures caller.Some? && id != "" && UpdateInputValid(text, status) && id in old(db.todos) ==>
        var t := old(db.todos)[id];
        r == Forbidden <==> !MayUpdate(t, caller.value) || (!t.isDefault && AssignedByOther(t, caller.value) && (text != "" || shared.Some?))
      ensures r.Ok? <==>
        && caller.Some? && id != "" && UpdateInputValid(text, status) && id in old(db.todos)
        && var t := old(db.todos)[id];
           MayUpdate(t, caller.value) && !(!t.isDefault && AssignedByOther(t, caller.value) && (text != "" || shared.Some?))
      ensures !r.Ok? ==> db.todos == old(db.todos) && db.overlays == old(db.overlays)
      ensures r.Ok? ==>
        && caller.Some? && id in old(db.todos) && id in db.todos
        && r == Ok(One(Effective(db.todos, db.overlays, caller.value, id).(owner := None, hiddenFromUser := false)))
      ensures r.Ok? && old(db.todos)[id].isDefault ==>
        && db.todos == old(db.todos)
        && db.overlays == if status == "" then old(db.overlays)
                          else SetOverlayStatus(old(db.todos), old(db.overlays), caller.value, id, status, now)
      ensures r.Ok? && !old(db.todos)[id].isDefault ==>
        && db.overlays == old(db.overlays)
        && db.todos == old(db.todos)[id := Patch(old(db.todos)[id], text, status, shared)]
      ensures r.Ok? || r.Forbidden? || r.BadRequest? || r.NotFound? || r.Unauthorized?
      ensures old(db.Valid()) ==> db.Valid()
    {
      if caller.None? {
        return Unauthorized;
      }
      var user := caller.value;
      if id == "" {
        return BadRequest;
      }
      if text != "" && !ValidateText(text) {
        return BadRequest;
      }
      if status != "" && !IsValidStatus(status) {
        return BadRequest;
      }
      if id !in db.todos {
        return NotFound;
      }
      var t := db.todos[id];
      if !(t.isDefault || t.owner == Some(user)) {
        return Forbidden;
      }
      if t.isDefault {
        if status != "" {
          if db.Valid() {
            SetOverlayStatusKeepsWellFormed(db.todos, db.overlays, user, id, status, now);
          }
          db.overlays := SetOverlayStatus(db.todos, db.overlays, user, id, status, now);
        }
      } else if t.createdBy.Some? && t.createdBy.value != user {
        if text != "" {
          return Forbidden;
        }
        if shared.Some? {
          return Forbidden;
        }
        if status != "" {
          db.todos := db.todos[id := t.(status := status)];
        }
      } else {
        // The SET list is built one present field at a time.
        var row := t;
        var columns := 0;
        if text != "" {
          row := row.(text := text);
          columns := columns + 1;
        }
        if status != "" {
          row := row.(status := status);
          columns := columns + 1;
        }
        if shared.Some? {
          row := row.(sharedWithAdmin := shared.value);
          columns := columns + 1;
        }
        if columns > 0 {
          db.todos := db.todos[id := row];
        } else {
          assert db.todos == db.todos[id := row];
        }
      }
      r := Ok(One(Effective(db.todos, db.overlays, user, id).(owner := None, hiddenFromUser := false)));
    }

    /** DELETE /api/todos/{id}. */
    method Delete(caller: Option<string>, role: string, id: string) returns (r: Response)
      modifies db`todos
      ensures caller.None? ==> r == Unauthorized
      ensures caller.Some? && id == "" ==> r == BadRequest
      ensures caller.Some? && id != "" && id !in old(db.todos) ==> r == NotFound
      ensures caller.Some? && id != "" && id in old(db.todos) ==>
        (r == Forbidden <==> !MayDelete(old(db.todos)[id], caller.value, role))
      ensures r == Ok(Success) <==>
        caller.Some? && id != "" && id in old(db.todos) && MayDelete(old(db.todos)[id], caller.value, role)
      ensures r == Ok(Success) ==> db.todos == old(db.todos) - {id}
      ensures r != Ok(Success) ==> db.todos == old(db.todos)
      ensures old(db.Valid()) ==> db.Valid()
    {
      if caller.None? {
        return Unauthorized;
      }
      var user := caller.value;
      if id == "" {
        return BadRequest;
      }
      if id !in db.todos {
        return NotFound;
      }
      var t := db.todos[id];
      if t.isDefault && role != RoleAdmin {
        return Forbidden;
      }
      if !t.isDefault && (t.owner.None? || t.owner.value != user) {
        return Forbidden;
      }
      if !t.isDefault && role != RoleAdmin {
        if t.createdBy.Some? && t.createdBy.value != user {
          return Forbidden;
        }
      }
      db.todos := db.todos - {id};
      r := Ok(Success);
    }

    /**
      PUT /api/todos/reorder: all or nothing. The i-th id is moved to
      position i * PositionIncrement, in the caller's overlay for a default
      task and in the row itself for a task the caller owns; the writes go
      to a transaction that is committed only after the last id.
     */
    method Reorder(caller: Option<string>, ids: seq<string>, policy: NullStatusPolicy, now: int)
      returns (r: Response)
      modifies db`todos, db`overlays
      ensures caller.None? ==> r == Unauthorized
      ensures caller.Some? && ids == [] ==> r == Ok(NoBody)
      ensures caller.Some? && ids != [] ==>
        match ReorderAll(old(db.todos), old(db.overlays), caller.value, ids, policy, now)
        case None => r == InternalError
        case Some(after) => r == Ok(Success) && db.todos == after.0 && db.overlays == after.1
      ensures r != Ok(Success) ==> db.todos == old(db.todos) && db.overlays == old(db.overlays)
      ensures old(db.Valid()) ==> db.Valid()
    {
      if caller.None? {
        return Unauthorized;
      }
      var user := caller.value;
      if |ids| == 0 {
        return Ok(NoBody);
      }
      // The transaction's view of the two tables.
      var todos, overlays := db.todos, db.overlays;
      for i := 0 to |ids|
        invariant db.todos == old(db.todos) && db.overlays == old(db.overlays)
        invariant ReorderUpTo(db.todos, db.overlays, user, ids, i, policy, now) == Some((todos, overlays))
        invariant WellFormed(db.todos, db.overlays) ==> WellFormed(todos, overlays)
      {
        var id := ids[i];
        var pos := OrderPosition(i);
        if id !in todos {
          ReorderFailurePersists(db.todos, db.overlays, user, ids, i + 1, policy, now);
          return InternalError;
        }
        ghost var before := (todos, overlays);
        if todos[id].isDefault {
          var k := (user, id);
          if k in overlays {
            overlays := overlays[k := overlays[k].(position := pos, updatedAt := now)];
          } else if policy == StoreNullStatus {
            overlays := overlays[k := Overlay(None, pos, now)];
          } else {
            ReorderFailurePersists(db.todos, db.overlays, user, ids, i + 1, policy, now);
            return InternalError;
          }
        } else if todos[id].owner == Some(user) {
          todos := todos[id := todos[id].(position := pos)];
        }
        ReorderStepKeepsWellFormed(before.0, before.1, user, id, pos, policy, now);
      }
      assert ReorderAll(db.todos, db.overlays, user, ids, policy, now) == Some((todos, overlays));
      db.todos, db.overlays := todos, overlays;
      r := Ok(Success);
    }
  }
}
