/**
  The operator endpoints under /api/admin: the role gate in front of them,
  the default-task catalogue (list, create, edit text, delete) and the
  per-user views an operator works with (a user's list, tasks assigned to
  a user, edits and deletes on a user's behalf). Apart from the two
  create handlers, which need the operator's id for `created_by_user_id`,
  the handlers do not look at the caller: the gate does.
 */
module AdminApi {
  import opened Wrappers
  import opened Models
  import opened Ordering
  import opened Tables
  import opened Auth
  import opened TodoApi

  // ---- The gate ----

  /** A role was set on the request and it is the operator role. */
  predicate IsAdmin(role: Option<string>)
  {
    role.Some? && role.value == RoleAdmin
  }

  /**
    The middleware in front of every operator route: the request is
    refused with 403 unless the caller is an operator, and otherwise
    handed on (None) to the route's handler.
   */
  function RequireAdmin(role: Option<string>): (denied: Option<Response>)
    ensures denied.None? <==> role == Some(RoleAdmin)
    ensures denied.Some? ==> denied.value == Forbidden
  {
    if !IsAdmin(role) then Some(Forbidden) else None
  }

  /**
    Only an ordinary user, a request without a role and any role spelled
    differently from "admin" are turned away; an operator passes.
   */
  lemma RequireAdminCases()
    ensures RequireAdmin(Some(RoleUser)) == Some(Forbidden)
    ensures RequireAdmin(None) == Some(Forbidden)
    ensures RequireAdmin(Some("Admin")) == Some(Forbidden)
    ensures RequireAdmin(Some(RoleAdmin)).None?
  {
    assert "Admin"[0] != RoleAdmin[0];
  }

  /**
    With the role the sign-in assigns, the gate lets through exactly the
    addresses on the operator list.
   */
  lemma GateAdmitsListedAdmins(email: string, list: string)
    ensures var role := if IsListedAdmin(email, list) then RoleAdmin else RoleUser;
      RequireAdmin(Some(role)).None? <==> IsListedAdmin(email, list)
  {
    assert RoleUser != RoleAdmin by { assert RoleUser[0] != RoleAdmin[0]; }
  }

  // ---- The default-task catalogue ----

  /** A default task as the catalogue returns it: `user_id` and `hidden_from_user` are not selected. */
  function CatalogueView(id: string, t: Todo): (v: View)
    ensures v.owner.None? && !v.hiddenFromUser
    ensures v.id == id && v.text == t.text && v.status == t.status && v.position == t.position
    ensures v.created == t.created && v.createdBy == t.createdBy && v.isDefault == t.isDefault
    ensures v.sharedWithAdmin == t.sharedWithAdmin
  {
    CanonicalView(id, t).(owner := None, hiddenFromUser := false)
  }

  ghost function CatalogueViews(todos: Todos): (s: set<View>)
    ensures forall v :: v in s ==> v.id in todos && todos[v.id].isDefault && v == CatalogueView(v.id, todos[v.id])
    ensures forall id :: id in todos && todos[id].isDefault ==> CatalogueView(id, todos[id]) in s
  {
    set id | id in todos && todos[id].isDefault :: CatalogueView(id, todos[id])
  }

  /**
    GET /api/admin/todos: every default task with its own status and
    position (no overlay is consulted), in listing order, with no limit,
    and an empty array when there is none.
   */
  ghost function ListAdminTodos(todos: Todos): (r: Response)
    ensures r.Ok? && r.body.Many? && Sorted(r.body.views)
    ensures forall v :: v in r.body.views <==>
      v.id in todos && todos[v.id].isDefault && v == CatalogueView(v.id, todos[v.id])
    ensures forall i, j :: 0 <= i < j < |r.body.views| ==> r.body.views[i] != r.body.views[j]
    ensures DefaultRows(todos) == {} ==> r == Ok(Many([]))
  {
    Ok(Many(SortViews(CatalogueViews(todos))))
  }

  /** Each default task appears in the catalogue exactly once, and nothing else does. */
  lemma CatalogueListsEachDefaultOnce(todos: Todos, id: string)
    ensures var views := ListAdminTodos(todos).body.views;
      && ((exists i :: 0 <= i < |views| && views[i].id == id) <==> id in todos && todos[id].isDefault)
      && forall i, j :: 0 <= i < j < |views| ==> views[i].id != views[j].id
  {
    var views := ListAdminTodos(todos).body.views;
    if id in todos && todos[id].isDefault {
      var v := CatalogueView(id, todos[id]);
      assert v in views;
      var i :| 0 <= i < |views| && views[i] == v;
      assert views[i].id == id;
    }
    forall i, j | 0 <= i < j < |views|
      ensures views[i].id != views[j].id
    {
      assert views[i] in views && views[j] in views;
    }
  }

  /**
    The default row POST /api/admin/todos inserts: pending, without an
    owner, created by the operator, not shared, not hidden, placed above
    every default task.
   */
  ghost function NewDefaultTask(todos: Todos, admin: string, text: string, now: int): (t: Todo)
    ensures t.text == text && t.status == StatusPending && t.created == now
    ensures t.isDefault && t.owner.None? && t.createdBy == Some(admin)
    ensures !t.sharedWithAdmin && !t.hiddenFromUser
    ensures forall id :: id in todos && todos[id].isDefault ==> t.position < todos[id].position
  {
    Todo(text, StatusPending, now, PrependPosition(todos, DefaultRows(todos)), None, Some(admin),
         true, false, false)
  }

  /** A new default task heads the catalogue. */
  lemma NewDefaultTaskHeadsCatalogue(todos: Todos, admin: string, text: string, now: int, id: string)
    requires id !in todos
    ensures var t := NewDefaultTask(todos, admin, text, now);
      var views := ListAdminTodos(todos[id := t]).body.views;
      |views| > 0 && views[0] == CatalogueView(id, t)
  {
    var t := NewDefaultTask(todos, admin, text, now);
    var after := todos[id := t];
    var views := ListAdminTodos(after).body.views;
    var v := CatalogueView(id, t);
    assert v in views;
    var k :| 0 <= k < |views| && views[k] == v;
    assert views[0] in views;
    assert k == 0;
  }

  /**
    Changing the text of a default task changes only the text of what
    every user sees of it: each user's status and position stay.
   */
  lemma CatalogueTextChangeKeepsUserViews(todos: Todos, overlays: Overlays, id: string, text: string, user: string)
    requires id in todos && todos[id].isDefault
    ensures Effective(todos[id := todos[id].(text := text)], overlays, user, id) ==
      Effective(todos, overlays, user, id).(text := text)
  {
    ResolveTextOnly(id, todos[id], OverlayFor(overlays, user, id, todos[id]), text);
  }

  // ---- A user's tasks as an operator sees them ----

  /**
    The rows an operator sees for `target`: every default task, and the
    target's personal tasks that are shared with operators, hidden or not.
   */
  predicate OperatorSees(t: Todo, target: string)
  {
    (t.owner == Some(target) && t.sharedWithAdmin) || t.isDefault
  }

  /** The definition of the rows `ListUserTodos` selects, each resolved through the target's overlay. */
  ghost function TargetViews(todos: Todos, overlays: Overlays, target: string): (s: set<View>)
    ensures forall v :: v in s ==>
      v.id in todos && OperatorSees(todos[v.id], target) && v == Effective(todos, overlays, target, v.id)
    ensures forall id :: id in todos && OperatorSees(todos[id], target) ==>
      Effective(todos, overlays, target, id) in s
  {
    set id | id in todos && OperatorSees(todos[id], target) :: Effective(todos, overlays, target, id)
  }

  /**
    GET /api/admin/users/{userId}/todos: 400 without a user id, 404 for an
    unknown user; otherwise the rows above in listing order, each resolved
    through the target's overlay, with `user_id` and `hidden_from_user`
    included and no limit.
   */
  ghost function ListUserTodos(todos: Todos, overlays: Overlays, users: set<string>, target: string): (r: Response)
    ensures target == "" <==> r == BadRequest
    ensures target != "" && target !in users <==> r == NotFound
    ensures target != "" && target in users ==>
      && r.Ok? && r.body.Many? && Sorted(r.body.views)
      && forall v :: v in r.body.views <==> v in TargetViews(todos, overlays, target)
  {
    if target == "" then BadRequest
    else if target !in users then NotFound
    else Ok(Many(SortViews(TargetViews(todos, overlays, target))))
  }

  /**
    The operator's list for a user holds every default task and exactly
    those personal tasks of the user that are shared, never a task of
    someone else; a default task shows the user's own overlay; and every
    task the user's own listing shows is shown to the operator the same
    way, apart from the owner and hidden columns.
   */
  lemma OperatorSeesWhatUserSees(todos: Todos, overlays: Overlays, users: set<string>, target: string, id: string)
    requires target != "" && target in users && id in todos
    ensures var views := ListUserTodos(todos, overlays, users, target).body.views;
      && ((exists v :: v in views && v.id == id) <==>
            todos[id].isDefault || (todos[id].owner == Some(target) && todos[id].sharedWithAdmin))
      && (forall v :: v in views ==> v.owner == todos[v.id].owner && v.hiddenFromUser == todos[v.id].hiddenFromUser)
      && (forall v :: v in views ==> v.(owner := None) == ListedView(todos, overlays, target, v.id))
  {
    if todos[id].isDefault || (todos[id].owner == Some(target) && todos[id].sharedWithAdmin) {
      assert Effective(todos, overlays, target, id) in TargetViews(todos, overlays, target);
    }
  }

  // ---- Tasks an operator assigns ----

  /**
    The row POST /api/admin/users/{userId}/todos inserts: pending,
    personal, owned by the target, created by the operator, shared with
    operators, hidden or not as asked, placed above every row the target
    owns.
   */
  ghost function NewAssignedTask(todos: Todos, admin: string, target: string, text: string, hidden: bool,
                                 now: int): (t: Todo)
    ensures t.text == text && t.status == StatusPending && t.created == now
    ensures t.owner == Some(target) && t.createdBy == Some(admin)
    ensures !t.isDefault && t.sharedWithAdmin && t.hiddenFromUser == hidden
    ensures forall id :: id in todos && todos[id].owner == Some(target) ==> t.position < todos[id].position
  {
    Todo(text, StatusPending, now, PrependPosition(todos, OwnedBy(todos, target)), Some(target), Some(admin),
         false, true, hidden)
  }

  /**
    A task an operator assigns to someone else shows on the operator's
    list for that user, may not be deleted by the user (only by an
    operator through DeleteUserTodo) and its text may not be edited by
    the user; an operator may delete it on the user's behalf.
   */
  lemma AssignedTaskRules(todos: Todos, admin: string, target: string, text: string, hidden: bool, now: int)
    requires admin != target
    ensures var t := NewAssignedTask(todos, admin, target, text, hidden, now);
      && OperatorSees(t, target)
      && AssignedByOther(t, target)
      && !MayDelete(t, target, RoleUser)
      && OperatorMayDelete(t, target)
  {
  }

  // ---- Operator edits of a user's task ----

  /** The first write of the personal-task branch: the hidden flag, when the request carries one. */
  function SetHidden(t: Todo, hidden: Option<bool>): (h: Todo)
    ensures hidden.Some? ==> h.hiddenFromUser == hidden.value
    ensures hidden.None? ==> h == t
    ensures h.(hiddenFromUser := t.hiddenFromUser) == t
  {
    if hidden.Some? then t.(hiddenFromUser := hidden.value) else t
  }

  /**
    The personal row after an operator's update that is accepted: the
    hidden flag, the text and the status are each replaced when present
    (the status without validation); nothing else changes.
   */
  function OperatorPatch(t: Todo, text: Option<string>, status: Option<string>, hidden: Option<bool>): (p: Todo)
    ensures p.created == t.created && p.position == t.position && p.owner == t.owner
    ensures p.createdBy == t.createdBy && p.isDefault == t.isDefault && p.sharedWithAdmin == t.sharedWithAdmin
    ensures p.text == text.GetOr(t.text) && p.status == status.GetOr(t.status)
    ensures p.hiddenFromUser == hidden.GetOr(t.hiddenFromUser)
  {
    var h := SetHidden(t, hidden);
    var h := if text.Some? then h.(text := text.value) else h;
    if status.Some? then h.(status := status.value) else h
  }

  /** An operator may change the text of a user's task only when someone else created it. */
  predicate OperatorMayEditText(t: Todo, target: string)
  {
    AssignedByOther(t, target)
  }

  /** An operator may delete a user's task when it is the user's own personal task and someone else created it. */
  predicate OperatorMayDelete(t: Todo, target: string)
  {
    !t.isDefault && t.owner == Some(target) && AssignedByOther(t, target)
  }

  /**
    The delete rules of DeleteUserTodo: never a default task, never a task
    of another user, never a task the user created; and these are the
    tasks an ordinary user may not delete themselves.
   */
  lemma OperatorDeleteRules(t: Todo, target: string)
    ensures t.isDefault ==> !OperatorMayDelete(t, target)
    ensures t.owner != Some(target) ==> !OperatorMayDelete(t, target)
    ensures t.createdBy.None? || t.createdBy == Some(target) ==> !OperatorMayDelete(t, target)
    ensures OperatorMayDelete(t, target) ==> !MayDelete(t, target, RoleUser) && MayDelete(t, target, RoleAdmin)
  {
  }

  /** The operator handlers over the shared database. */
  class AdminHandler {
    const db: Database

    constructor (db: Database)
      ensures this.db == db
    {
      this.db := db;
    }

    /** POST /api/admin/todos. */
    method CreateAdminTodo(caller: Option<string>, text: string, id: string, now: int) returns (r: Response)
      requires db.FreshId(id)
      modifies db`todos
      ensures caller.None? ==> r == Unauthorized
      ensures caller.Some? && !ValidateText(text) ==> r == BadRequest
      ensures r.Created? <==> caller.Some? && ValidateText(text)
      ensures !r.Created? ==> db.todos == old(db.todos)
      ensures r.Created? ==>
        var t := NewDefaultTask(old(db.todos), caller.value, text, now);
        db.todos == old(db.todos)[id := t] && r.created == CanonicalView(id, t)
      ensures old(db.Valid()) ==> db.Valid()
    {
      if caller.None? {
        return Unauthorized;
      }
      if !ValidateText(text) {
        return BadRequest;
      }
      var admin := caller.value;
      var minPos := db.MinPosition(DefaultRows(db.todos));
      var t := Todo(text, StatusPending, now, minPos - PositionIncrement, None, Some(admin), true, false, false);
      assert t == NewDefaultTask(db.todos, admin, text, now);
      if db.Valid() {
        InsertKeepsWellFormed(db.todos, db.overlays, id, t);
      }
      db.todos := db.todos[id := t];
      r := Created(CanonicalView(id, t));
    }

    /**
      PUT /api/admin/todos/{id}: replaces the text of a default task. An
      empty text skips the length check and is written as it is.
     */
    method UpdateAdminTodo(id: string, text: string) returns (r: Response)
      modifies db`todos
      ensures id == "" || (text != "" && !ValidateText(text)) ==> r == BadRequest
      ensures id != "" && (text == "" || ValidateText(text)) ==>
        if id !in old(db.todos) then r == NotFound
        else if !old(db.todos)[id].isDefault then r == BadRequest
        else r.Ok?
      ensures !r.Ok? ==> db.todos == old(db.todos)
      ensures r.Ok? ==>
        && id in old(db.todos)
        && db.todos == old(db.todos)[id := old(db.todos)[id].(text := text)]
        && r == Ok(One(CatalogueView(id, db.todos[id])))
      ensures old(db.Valid()) ==> db.Valid()
    {
      if id == "" {
        return BadRequest;
      }
      if text != "" && !ValidateText(text) {
        return BadRequest;
      }
      if id !in db.todos {
        return NotFound;
      }
      if !db.todos[id].isDefault {
        return BadRequest;
      }
      db.todos := db.todos[id := db.todos[id].(text := text)];
      r := Ok(One(CatalogueView(id, db.todos[id])));
    }

    /** DELETE /api/admin/todos/{id}: removes a default task. */
    method DeleteAdminTodo(id: string) returns (r: Response)
      modifies db`todos
      ensures id == "" ==> r == BadRequest
      ensures id != "" && id !in old(db.todos) ==> r == NotFound
      ensures id != "" && id in old(db.todos) && !old(db.todos)[id].isDefault ==> r == BadRequest
      ensures r == Ok(Success) <==> id != "" && id in old(db.todos) && old(db.todos)[id].isDefault
      ensures r == Ok(Success) ==> db.todos == old(db.todos) - {id}
      ensures r != Ok(Success) ==> db.todos == old(db.todos)
      ensures old(db.Valid()) ==> db.Valid()
    {
      if id == "" {
        return BadRequest;
      }
      if id !in db.todos {
        return NotFound;
      }
      if !db.todos[id].isDefault {
        return BadRequest;
      }
      db.todos := db.todos - {id};
      r := Ok(Success);
    }

    /**
      POST /api/admin/users/{userId}/todos. The user id is checked before
      the session; whether the user exists is not checked.
     */
    method CreateUserTodo(caller: Option<string>, target: string, text: string, hidden: bool,
                          id: string, now: int) returns (r: Response)
      requires db.FreshId(id)
      modifies db`todos
      ensures target == "" ==> r == BadRequest
      ensures target != "" && caller.None? ==> r == Unauthorized
      ensures target != "" && caller.Some? && !ValidateText(text) ==> r == BadRequest
      ensures r.Created? <==> target != "" && caller.Some? && ValidateText(text)
      ensures !r.Created? ==> db.todos == old(db.todos)
      ensures r.Created? ==>
        var t := NewAssignedTask(old(db.todos), caller.value, target, text, hidden, now);
        db.todos == old(db.todos)[id := t] && r.created == CanonicalView(id, t)
      ensures old(db.Valid()) ==> db.Valid()
    {
      if target == "" {
        return BadRequest;
      }
      if caller.None? {
        return Unauthorized;
      }
      if !ValidateText(text) {
        return BadRequest;
      }
      var admin := caller.value;
      var minPos := db.MinPosition(OwnedBy(db.todos, target));
      var t := Todo(text, StatusPending, now, minPos - PositionIncrement, Some(target), Some(admin),
                    false, true, hidden);
      assert t == NewAssignedTask(db.todos, admin, target, text, hidden, now);
      if db.Valid() {
        InsertKeepsWellFormed(db.todos, db.overlays, id, t);
      }
      db.todos := db.todos[id := t];
      r := Created(CanonicalView(id, t));
    }

    /**
      PUT /api/admin/users/{userId}/todos/{todoId}. On a default task a
      status goes to the target's overlay. On a personal task the writes
      happen one after another — hidden flag, text, status — so a text
      that is refused after a hidden flag was sent leaves the flag written.
      Nothing requires that row to belong to the target.
     */
    method UpdateUserTodo(target: string, id: string, text: Option<string>, status: Option<string>,
                          hidden: Option<bool>, now: int) returns (r: Response)
      modifies db`todos, db`overlays
      ensures target == "" || id == "" ==> r == BadRequest
      ensures target != "" && id != "" && target !in db.users ==> r == NotFound
      ensures target != "" && id != "" && target in db.users && id !in old(db.todos) ==> r == NotFound
      ensures r.NotFound? || r.BadRequest? ==> db.overlays == old(db.overlays)
      ensures r.NotFound? || (r.BadRequest? && (target == "" || id == "")) ==> db.todos == old(db.todos)
      ensures target != "" && id != "" && target in db.users && id in old(db.todos) ==>
        var t := old(db.todos)[id];
        if t.isDefault then
          && r == Ok(Success)
          && db.todos == old(db.todos)
          && db.overlays == if status.None? then old(db.overlays)
                            else SetOverlayStatus(old(db.todos), old(db.overlays), target, id, status.value, now)
        else
          && db.overlays == old(db.overlays)
          && (text.Some? && !OperatorMayEditText(t, target) ==>
                r == Forbidden && db.todos == old(db.todos)[id := SetHidden(t, hidden)])
          && (text.Some? && OperatorMayEditText(t, target) && !ValidateText(text.value) ==>
                r == BadRequest && db.todos == old(db.todos)[id := SetHidden(t, hidden)])
          && ((text.None? || (OperatorMayEditText(t, target) && ValidateText(text.value))) ==>
                r == Ok(Success) && db.todos == old(db.todos)[id := OperatorPatch(t, text, status, hidden)])
      ensures old(db.Valid()) ==> db.Valid()
    {
      if target == "" || id == "" {
        return BadRequest;
      }
      if target !in db.users {
        return NotFound;
      }
      if id !in db.todos {
        return NotFound;
      }
      var t := db.todos[id];
      if t.isDefault {
        if status.Some? {
          if db.Valid() {
            SetOverlayStatusKeepsWellFormed(db.todos, db.overlays, target, id, status.value, now);
          }
          db.overlays := SetOverlayStatus(db.todos, db.overlays, target, id, status.value, now);
        }
        return Ok(Success);
      }
      ghost var before := db.todos;
      if hidden.Some? {
        db.todos := db.todos[id := db.todos[id].(hiddenFromUser := hidden.value)];
      }
      assert db.todos == before[id := SetHidden(t, hidden)];
      if text.Some? {
        if t.createdBy.Some? && t.createdBy.value != target {
          if !ValidateText(text.value) {
            return BadRequest;
          }
          db.todos := db.todos[id := db.todos[id].(text := text.value)];
        } else {
          return Forbidden;
        }
      }
      if status.Some? {
        db.todos := db.todos[id := db.todos[id].(status := status.value)];
      }
      assert db.todos == before[id := OperatorPatch(t, text, status, hidden)];
      r := Ok(Success);
    }

    /**
      DELETE /api/admin/users/{userId}/todos/{todoId}: removes a task an
      operator assigned to the user.
     */
    method DeleteUserTodo(target: string, id: string) returns (r: Response)
      modifies db`todos
      ensures target == "" || id == "" ==> r == BadRequest
      ensures target != "" && id != "" && id !in old(db.todos) ==> r == NotFound
      ensures target != "" && id != "" && id in old(db.todos) && old(db.todos)[id].isDefault ==> r == BadRequest
      ensures target != "" && id != "" && id in old(db.todos) && !old(db.todos)[id].isDefault ==>
        (r == Forbidden <==> !OperatorMayDelete(old(db.todos)[id], target))
      ensures r == Ok(Success) <==>
        target != "" && id != "" && id in old(db.todos) && OperatorMayDelete(old(db.todos)[id], target)
      ensures r == Ok(Success) ==> db.todos == old(db.todos) - {id}
      ensures r != Ok(Success) ==> db.todos == old(db.todos)
      ensures old(db.Valid()) ==> db.Valid()
    {
      if target == "" || id == "" {
        return BadRequest;
      }
      if id !in db.todos {
        return NotFound;
      }
      var t := db.todos[id];
      if t.isDefault {
        return BadRequest;
      }
      if t.owner.None? || t.owner.value != target {
        return Forbidden;
      }
      if t.createdBy.None? || t.createdBy.value == target {
        return Forbidden;
      }
      db.todos := db.todos - {id};
      r := Ok(Success);
    }
  }
}
