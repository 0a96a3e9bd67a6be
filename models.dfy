/**
  The shared task types: the status enumeration, the text rule, the two
  constants, the canonical task row, the per-user overlay row and the
  task as a response shows it.

  Every `string` in this model is the byte sequence of the corresponding
  Go string: one `char` per byte, so `|s|` is Go's `len(s)`.
 */
module Models {
  import opened Wrappers

  const StatusPending: string := "pending"
  const StatusInProgress: string := "in-progress"
  const StatusDone: string := "done"

  /** Longest accepted task text, in bytes. */
  const MaxTextLength: nat := 200

  /** Gap between neighbouring positions. */
  const PositionIncrement: int := 1024

  const RoleAdmin: string := "admin"
  const RoleUser: string := "user"

  /** A status is valid exactly when it is one of the three enumeration values. */
  predicate IsValidStatus(s: string)
  {
    s == StatusPending || s == StatusInProgress || s == StatusDone
  }

  /** A task text is accepted when it has between 1 and MaxTextLength bytes. */
  predicate ValidateText(text: string)
  {
    |text| > 0 && |text| <= MaxTextLength
  }

  /** The status rule is exact and case-sensitive; the empty string is not a status. */
  lemma StatusEnumeration()
    ensures IsValidStatus("pending") && IsValidStatus("in-progress") && IsValidStatus("done")
    ensures !IsValidStatus("") && !IsValidStatus("invalid") && !IsValidStatus("Pending")
    ensures !IsValidStatus("completed")
  {
  }

  /** `n` copies of `s` one after another. */
  function Repeat(s: string, n: nat): (r: string)
  {
    if n == 0 then [] else s + Repeat(s, n - 1)
  }

  lemma {:induction false} RepeatLength(s: string, n: nat)
    ensures |Repeat(s, n)| == n * |s|
  {
    if n > 0 {
      RepeatLength(s, n - 1);
    }
  }

  /**
    The limit counts bytes, not characters: 200 ASCII letters pass, 201 do
    not, and 101 copies of the two-byte UTF-8 encoding of U+00E9 (101
    characters, 202 bytes) are rejected as well.
   */
  lemma {:induction false} TextLimitCountsBytes()
    ensures !ValidateText("")
    ensures ValidateText(Repeat("a", 200)) && !ValidateText(Repeat("a", 201))
    ensures !ValidateText(Repeat("\U{C3}\U{A9}", 101))
    ensures ValidateText(Repeat("\U{C3}\U{A9}", 100))
  {
    RepeatLength("a", 200);
    RepeatLength("a", 201);
    RepeatLength("\U{C3}\U{A9}", 101);
    RepeatLength("\U{C3}\U{A9}", 100);
  }

  /** A canonical row of the `todos` table; its id is the key it is stored under. */
  datatype Todo = Todo(
    text: string,
    status: string,
    created: int,
    position: int,
    owner: Option<string>,        // user_id; None for a default task
    createdBy: Option<string>,    // created_by_user_id
    isDefault: bool,
    sharedWithAdmin: bool,
    hiddenFromUser: bool)

  /**
    A row of `user_todo_state`, keyed by (user id, task id). Its status
    column may hold NULL (see the reorder of a task the user never touched).
   */
  datatype Overlay = Overlay(status: Option<string>, position: int, updatedAt: int)

  /** A task as a handler returns it. */
  datatype View = View(
    id: string,
    text: string,
    status: string,
    created: int,
    position: int,
    createdBy: Option<string>,
    isDefault: bool,
    sharedWithAdmin: bool,
    hiddenFromUser: bool,
    owner: Option<string>)

  /** The row with its own fields only. */
  function CanonicalView(id: string, t: Todo): (v: View)
    ensures v.id == id && v.text == t.text && v.status == t.status && v.position == t.position
    ensures v.created == t.created && v.isDefault == t.isDefault && v.owner == t.owner
  {
    View(id, t.text, t.status, t.created, t.position, t.createdBy, t.isDefault,
         t.sharedWithAdmin, t.hiddenFromUser, t.owner)
  }

  /**
    The overlay resolver: a default task takes status and position from the
    viewer's overlay row when there is one (a NULL overlay status falls back
    to its own); a personal task never consults the overlay.
   */
  function Resolve(id: string, t: Todo, ov: Option<Overlay>): (v: View)
    ensures !t.isDefault ==> v == CanonicalView(id, t)
    ensures ov.None? ==> v == CanonicalView(id, t)
    ensures t.isDefault && ov.Some? ==>
      v == CanonicalView(id, t).(status := ov.value.status.GetOr(t.status), position := ov.value.position)
  {
    var status := if t.isDefault && ov.Some? then ov.value.status.GetOr(t.status) else t.status;
    var position := if t.isDefault && ov.Some? then ov.value.position else t.position;
    CanonicalView(id, t).(status := status, position := position)
  }

  /** Changing only the text of a task changes only the text of every view of it. */
  lemma ResolveTextOnly(id: string, t: Todo, ov: Option<Overlay>, text: string)
    ensures Resolve(id, t.(text := text), ov) == Resolve(id, t, ov).(text := text)
  {
  }

  /** What a handler sends back in its JSON body. */
  datatype Body =
    | NoBody                   // a 200 with nothing written
    | Success                  // {"success": true}
    | One(view: View)          // a single task
    | Many(views: seq<View>)   // {"todos": [...]}, never null

  /** The HTTP outcome of a handler. */
  datatype Response =
    | Ok(body: Body)           // 200
    | Created(created: View)   // 201
    | BadRequest               // 400
    | Unauthorized             // 401
    | Forbidden                // 403
    | NotFound                 // 404
    | InternalError            // 500
}
