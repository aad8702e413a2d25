/** The administrator's AJAX handlers: per-hostel flag edits, bulk hostel actions, and the
    user deletion and bulk user actions with their guards for superusers and the requester. */
module AdminViews {
  import opened Wrappers
  import opened Sorting
  import opened Models

  datatype AdminError =
    | Forbidden              // the permission mixin refuses the request
    | NotFound               // no row with the given id
    | MissingInput           // no action or no ids in a bulk request
    | InvalidAction          // a bulk action the handler does not know
    | CannotDeleteSuperuser
    | CannotDeleteSelf
    | BadRequest             // the request body does not read as the view expects

  /** `AdminRequiredMixin.test_func`: a signed-in administrator or superuser. `None` is an
      anonymous visitor. */
  predicate IsAdmin(requester: Option<User>) {
    requester.Some? && (requester.value.role == Admin || requester.value.isSuperuser)
  }

  predicate HasHostel(table: seq<Hostel>, id: HostelId) {
    exists i :: 0 <= i < |table| && table[i].id == id
  }

  /** Applies `edit` to the rows with id `id`, leaving every other row as it is. */
  function EditWhere(table: seq<Hostel>, id: HostelId, edit: Hostel -> Hostel): (r: seq<Hostel>)
    ensures |r| == |table|
    ensures forall i :: 0 <= i < |table| && table[i].id != id ==> r[i] == table[i]
    ensures forall i :: 0 <= i < |table| && table[i].id == id ==> r[i] == edit(table[i])
  {
    seq(|table|, i requires 0 <= i < |table| => if table[i].id == id then edit(table[i]) else table[i])
  }

  /** An edit followed by `hostel.save()`, which fills a blank slug from the name. */
  function ThenSave(edit: Hostel -> Hostel, slugify: string -> string): Hostel -> Hostel {
    (h: Hostel) => SaveHostel(edit(h), slugify)
  }

  /** The handler shared by the four single-hostel views: permission, then
      `get_object_or_404(Hostel, id=hostel_id)`, then the edit and `hostel.save()`. */
  function EditHostel(requester: Option<User>, table: seq<Hostel>, id: HostelId, edit: Hostel -> Hostel,
                      slugify: string -> string)
    : (r: Result<seq<Hostel>, AdminError>)
    ensures r == Err(Forbidden) <==> !IsAdmin(requester)
    ensures r == Err(NotFound) <==> IsAdmin(requester) && !HasHostel(table, id)
    ensures r.Err? <==> !IsAdmin(requester) || !HasHostel(table, id)
    ensures r.Ok? ==> r.value == EditWhere(table, id, ThenSave(edit, slugify))
    ensures r.Ok? ==> forall i :: 0 <= i < |table| && table[i].id == id ==>
      r.value[i] == SaveHostel(edit(table[i]), slugify)
  {
    if !IsAdmin(requester) then Err(Forbidden)
    else if !HasHostel(table, id) then Err(NotFound)
    else Ok(EditWhere(table, id, ThenSave(edit, slugify)))
  }

  function MarkVerified(h: Hostel): Hostel { h.(isVerified := true) }
  function MarkInactive(h: Hostel): Hostel { h.(isActive := false) }
  function FlipFeatured(h: Hostel): Hostel { h.(isFeatured := !h.isFeatured) }
  function FlipActive(h: Hostel): Hostel { h.(isActive := !h.isActive) }

  /** The slug `save()` leaves on `h`. */
  function SavedSlug(h: Hostel, slugify: string -> string): string {
    if h.slug == "" then slugify(h.name) else h.slug
  }

  /** `ApproveHostelView.post`. */
  function ApproveHostel(requester: Option<User>, table: seq<Hostel>, id: HostelId, slugify: string -> string)
    : (r: Result<seq<Hostel>, AdminError>)
    ensures r.Err? <==> !IsAdmin(requester) || !HasHostel(table, id)
    ensures r.Ok? ==> |r.value| == |table|
    ensures r.Ok? ==> forall i :: 0 <= i < |table| && table[i].id == id ==>
      && r.value[i].isVerified
      && r.value[i].slug == SavedSlug(table[i], slugify)
      && r.value[i].(isVerified := table[i].isVerified, slug := table[i].slug) == table[i]
    ensures r.Ok? ==> forall i :: 0 <= i < |table| && table[i].id != id ==> r.value[i] == table[i]
  {
    EditHostel(requester, table, id, MarkVerified, slugify)
  }

  /** The request body of a rejection as `json.loads(request.body) if request.body else {}`
      and then `data.get('reason', '')` read it: an empty body and a JSON object read; any
      other body (text that is not JSON, or JSON that is not an object) raises. */
  datatype RejectBody = EmptyBody | JsonObject(reason: string) | UnreadableBody

  /** `RejectHostelView.post`: reads the body, then deactivates the hostel; the reason itself
      is not used. */
  function RejectHostel(requester: Option<User>, table: seq<Hostel>, id: HostelId, body: RejectBody,
                        slugify: string -> string)
    : (r: Result<seq<Hostel>, AdminError>)
    ensures r == Err(BadRequest) <==> IsAdmin(requester) && body.UnreadableBody?
    ensures r.Err? <==> !IsAdmin(requester) || body.UnreadableBody? || !HasHostel(table, id)
    ensures r.Ok? ==> |r.value| == |table|
    ensures r.Ok? ==> forall i :: 0 <= i < |table| && table[i].id == id ==>
      && !r.value[i].isActive
      && r.value[i].slug == SavedSlug(table[i], slugify)
      && r.value[i].(isActive := table[i].isActive, slug := table[i].slug) == table[i]
    ensures r.Ok? ==> forall i :: 0 <= i < |table| && table[i].id != id ==> r.value[i] == table[i]
  {
    if IsAdmin(requester) && body.UnreadableBody? then Err(BadRequest)
    else EditHostel(requester, table, id, MarkInactive, slugify)
  }

  /** The reason given with a rejection changes nothing in the outcome. */
  lemma RejectIgnoresReason(requester: Option<User>, table: seq<Hostel>, id: HostelId, a: string, b: string,
                            slugify: string -> string)
    ensures RejectHostel(requester, table, id, JsonObject(a), slugify)
         == RejectHostel(requester, table, id, JsonObject(b), slugify)
         == RejectHostel(requester, table, id, EmptyBody, slugify)
  {
  }

  /** `ToggleFeaturedView.post`. */
  function ToggleFeatured(requester: Option<User>, table: seq<Hostel>, id: HostelId, slugify: string -> string)
    : (r: Result<seq<Hostel>, AdminError>)
    ensures r.Err? <==> !IsAdmin(requester) || !HasHostel(table, id)
    ensures r.Ok? ==> |r.value| == |table|
    ensures r.Ok? ==> forall i :: 0 <= i < |table| && table[i].id == id ==>
      && r.value[i].isFeatured == !table[i].isFeatured
      && r.value[i].slug == SavedSlug(table[i], slugify)
      && r.value[i].(isFeatured := table[i].isFeatured, slug := table[i].slug) == table[i]
    ensures r.Ok? ==> forall i :: 0 <= i < |table| && table[i].id != id ==> r.value[i] == table[i]
  {
    EditHostel(requester, table, id, FlipFeatured, slugify)
  }

  /** `ToggleActiveView.post`. */
  function ToggleActive(requester: Option<User>, table: seq<Hostel>, id: HostelId, slugify: string -> string)
    : (r: Result<seq<Hostel>, AdminError>)
    ensures r.Err? <==> !IsAdmin(requester) || !HasHostel(table, id)
    ensures r.Ok? ==> |r.value| == |table|
    ensures r.Ok? ==> forall i :: 0 <= i < |table| && table[i].id == id ==>
      && r.value[i].isActive == !table[i].isActive
      && r.value[i].slug == SavedSlug(table[i], slugify)
      && r.value[i].(isActive := table[i].isActive, slug := table[i].slug) == table[i]
    ensures r.Ok? ==> forall i :: 0 <= i < |table| && table[i].id != id ==> r.value[i] == table[i]
  {
    EditHostel(requester, table, id, FlipActive, slugify)
  }

  /** Every row with the id has a slug, so `save()` stores it as it is. */
  predicate SlugsSet(table: seq<Hostel>, id: HostelId) {
    forall i :: 0 <= i < |table| && table[i].id == id ==> table[i].slug != ""
  }

  /** Toggling the featured flag twice only saves the hostel: its slug is filled if it was
      blank, and nothing else changes; with its slug set, the table is restored. */
  lemma ToggleFeaturedTwice(requester: Option<User>, table: seq<Hostel>, id: HostelId, slugify: string -> string)
    requires ToggleFeatured(requester, table, id, slugify).Ok?
    ensures var twice := ToggleFeatured(requester, ToggleFeatured(requester, table, id, slugify).value, id, slugify);
      && twice.Ok?
      && |twice.value| == |table|
      && forall i :: 0 <= i < |table| ==>
           twice.value[i] == if table[i].id == id then SaveHostel(table[i], slugify) else table[i]
    ensures SlugsSet(table, id) ==>
      ToggleFeatured(requester, ToggleFeatured(requester, table, id, slugify).value, id, slugify) == Ok(table)
  {
    var once := ToggleFeatured(requester, table, id, slugify).value;
    assert HasHostel(once, id) by {
      var i :| 0 <= i < |table| && table[i].id == id;
      assert once[i].id == id;
    }
    var twice := EditWhere(once, id, ThenSave(FlipFeatured, slugify));
    forall i | 0 <= i < |table|
      ensures twice[i] == if table[i].id == id then SaveHostel(table[i], slugify) else table[i]
    {
      assert once[i].id == table[i].id;
      if table[i].id == id {
        assert twice[i] == SaveHostel(FlipFeatured(once[i]), slugify);
      }
    }
    if SlugsSet(table, id) {
      assert twice == table;
    }
  }

  /** Toggling the active flag twice only saves the hostel: its slug is filled if it was
      blank, and nothing else changes; with its slug set, the table is restored. */
  lemma ToggleActiveTwice(requester: Option<User>, table: seq<Hostel>, id: HostelId, slugify: string -> string)
    requires ToggleActive(requester, table, id, slugify).Ok?
    ensures var twice := ToggleActive(requester, ToggleActive(requester, table, id, slugify).value, id, slugify);
      && twice.Ok?
      && |twice.value| == |table|
      && forall i :: 0 <= i < |table| ==>
           twice.value[i] == if table[i].id == id then SaveHostel(table[i], slugify) else table[i]
    ensures SlugsSet(table, id) ==>
      ToggleActive(requester, ToggleActive(requester, table, id, slugify).value, id, slugify) == Ok(table)
  {
    var once := ToggleActive(requester, table, id, slugify).value;
    assert HasHostel(once, id) by {
      var i :| 0 <= i < |table| && table[i].id == id;
      assert once[i].id == id;
    }
    var twice := EditWhere(once, id, ThenSave(FlipActive, slugify));
    forall i | 0 <= i < |table|
      ensures twice[i] == if table[i].id == id then SaveHostel(table[i], slugify) else table[i]
    {
      assert once[i].id == table[i].id;
      if table[i].id == id {
        assert twice[i] == SaveHostel(FlipActive(once[i]), slugify);
      }
    }
    if SlugsSet(table, id) {
      assert twice == table;
    }
  }

  /** Approving twice is approving once. */
  lemma ApproveIdempotent(requester: Option<User>, table: seq<Hostel>, id: HostelId, slugify: string -> string)
    requires ApproveHostel(requester, table, id, slugify).Ok?
    ensures ApproveHostel(requester, ApproveHostel(requester, table, id, slugify).value, id, slugify)
         == ApproveHostel(requester, table, id, slugify)
  {
    var once := ApproveHostel(requester, table, id, slugify).value;
    assert HasHostel(once, id) by {
      var i :| 0 <= i < |table| && table[i].id == id;
      assert once[i].id == id;
    }
    var twice := EditWhere(once, id, ThenSave(MarkVerified, slugify));
    forall i | 0 <= i < |table|
      ensures twice[i] == once[i]
    {
      assert once[i].id == table[i].id;
      if table[i].id == id {
        assert twice[i] == SaveHostel(MarkVerified(once[i]), slugify);
      }
    }
    assert twice == once;
  }

  // ---------------------------------------------------------------------------------------
  // Bulk hostel actions
  // ---------------------------------------------------------------------------------------

  /** The table after a bulk action and the `affected_count` of the reply. */
  datatype BulkOutcome<T> = BulkOutcome(rows: seq<T>, affected: nat)

  predicate KnownHostelAction(action: string) {
    action in {"approve", "reject", "feature", "unfeature", "activate", "deactivate", "delete"}
  }

  /** The selection `Hostel.objects.filter(id__in=hostel_ids)`. */
  function InIds(ids: seq<HostelId>): Hostel -> bool {
    (h: Hostel) => h.id in ids
  }

  /** The `update(...)` each bulk action other than `delete` performs on one row. */
  function BulkEdit(action: string, h: Hostel): Hostel {
    match action
    case "approve" => h.(isVerified := true)
    case "reject" => h.(isActive := false, isVerified := false)
    case "feature" => h.(isFeatured := true)
    case "unfeature" => h.(isFeatured := false)
    case "activate" => h.(isActive := true)
    case _ => h.(isActive := false)
  }

  /** `BulkHostelActionView.post`. */
  function BulkHostelAction(requester: Option<User>, table: seq<Hostel>, action: Option<string>, ids: seq<HostelId>)
    : (r: Result<BulkOutcome<Hostel>, AdminError>)
    ensures r == Err(Forbidden) <==> !IsAdmin(requester)
    ensures r == Err(MissingInput) <==> IsAdmin(requester) && (action.None? || action.value == "" || ids == [])
    ensures r == Err(InvalidAction) <==>
      IsAdmin(requester) && action.Some? && action.value != "" && ids != [] && !KnownHostelAction(action.value)
    ensures r.Ok? ==> r.value.affected == Count(table, InIds(ids))
    ensures r.Ok? && action.value != "delete" ==>
      && |r.value.rows| == |table|
      && forall i :: 0 <= i < |table| ==>
           r.value.rows[i] == if table[i].id in ids then BulkEdit(action.value, table[i]) else table[i]
    ensures r.Ok? && action.value == "delete" ==>
      forall x :: x in r.value.rows <==> x in table && x.id !in ids
  {
    if !IsAdmin(requester) then Err(Forbidden)
    else if action.None? || action.value == "" || ids == [] then Err(MissingInput)
    else if !KnownHostelAction(action.value) then Err(InvalidAction)
    else
      var affected := Count(table, InIds(ids));
      if action.value == "delete" then
        var keep := (h: Hostel) => h.id !in ids;
        FilterMembers(table, keep);
        Ok(BulkOutcome(Filter(table, keep), affected))
      else
        var rows := seq(|table|, i requires 0 <= i < |table| =>
          if table[i].id in ids then BulkEdit(action.value, table[i]) else table[i]);
        Ok(BulkOutcome(rows, affected))
  }

  /** A bulk request with no action or no ids, or an unknown action, changes nothing. */
  lemma BulkHostelRefusalChangesNothing(requester: Option<User>, table: seq<Hostel>, action: Option<string>, ids: seq<HostelId>)
    requires IsAdmin(requester)
    requires action.None? || action.value == "" || ids == [] || !KnownHostelAction(action.value)
    ensures BulkHostelAction(requester, table, action, ids).Err?
  {
  }

  /** Bulk `reject` takes the listed hostels off the site entirely: neither active nor
      verified; every other field of theirs, and every other hostel, is unchanged. */
  lemma BulkRejectHides(requester: Option<User>, table: seq<Hostel>, ids: seq<HostelId>)
    requires BulkHostelAction(requester, table, Some("reject"), ids).Ok?
    ensures var rows := BulkHostelAction(requester, table, Some("reject"), ids).value.rows;
      && |rows| == |table|
      && (forall i :: 0 <= i < |table| && table[i].id in ids ==>
            !rows[i].isActive && !rows[i].isVerified
            && rows[i].(isActive := table[i].isActive, isVerified := table[i].isVerified) == table[i])
      && (forall i :: 0 <= i < |table| && table[i].id !in ids ==> rows[i] == table[i])
  {
  }

  /** Bulk `delete` reports as many hostels as it removes. */
  lemma BulkDeleteCount(requester: Option<User>, table: seq<Hostel>, ids: seq<HostelId>)
    requires BulkHostelAction(requester, table, Some("delete"), ids).Ok?
    ensures var out := BulkHostelAction(requester, table, Some("delete"), ids).value;
      out.affected + |out.rows| == |table|
  {
    FilterCountSplit(table, (h: Hostel) => true, InIds(ids), (h: Hostel) => h.id !in ids);
    FilterKeepsAll(table, (h: Hostel) => true);
  }

  // ---------------------------------------------------------------------------------------
  // Users
  // ---------------------------------------------------------------------------------------

  predicate HasUser(users: seq<User>, id: UserId) {
    exists i :: 0 <= i < |users| && users[i].id == id
  }

  predicate DifferentUserIds(a: User, b: User) {
    a.id != b.id
  }

  /** Position of the user with id `id`, or `|users|` when there is none. */
  function UserIndex(users: seq<User>, id: UserId): (k: nat)
    ensures k <= |users|
    ensures k < |users| ==> users[k].id == id
    ensures k == |users| <==> !HasUser(users, id)
  {
    FirstWhere(users, (u: User) => u.id == id)
  }

  /** The users that remain after deleting the account with id `id`. */
  function WithoutUser(users: seq<User>, id: UserId): (r: seq<User>)
    ensures forall x :: x in r <==> x in users && x.id != id
  {
    var keep := (u: User) => u.id != id;
    FilterMembers(users, keep);
    Filter(users, keep)
  }

  /** `DeleteUserView.post`: a missing user is a 404, then superusers and the requester's
      own account are refused. */
  function DeleteUser(requester: Option<User>, users: seq<User>, id: UserId): (r: Result<seq<User>, AdminError>)
    ensures r == Err(Forbidden) <==> !IsAdmin(requester)
    ensures r == Err(NotFound) <==> IsAdmin(requester) && !HasUser(users, id)
    ensures r == Err(CannotDeleteSuperuser) <==>
      IsAdmin(requester) && HasUser(users, id) && users[UserIndex(users, id)].isSuperuser
    ensures r == Err(CannotDeleteSelf) <==>
      IsAdmin(requester) && HasUser(users, id) && !users[UserIndex(users, id)].isSuperuser && id == requester.value.id
    ensures r.Ok? ==> forall x :: x in r.value <==> x in users && x.id != id
  {
    if !IsAdmin(requester) then Err(Forbidden)
    else
      var k := UserIndex(users, id);
      if k == |users| then Err(NotFound)
      else if users[k].isSuperuser then Err(CannotDeleteSuperuser)
      else if id == requester.value.id then Err(CannotDeleteSelf)
      else Ok(WithoutUser(users, id))
  }

  /** With unique user ids, a single delete never removes a superuser or the requester. */
  lemma DeleteUserSparesProtected(requester: Option<User>, users: seq<User>, id: UserId, x: User)
    requires Pairwise(users, DifferentUserIds)
    requires DeleteUser(requester, users, id).Ok?
    requires x in users && (x.isSuperuser || x.id == requester.value.id)
    ensures x in DeleteUser(requester, users, id).value
  {
    var k := UserIndex(users, id);
    var j :| 0 <= j < |users| && users[j] == x;
    assert j == k || users[j].id != users[k].id by {
      if j < k {
        assert DifferentUserIds(users[j], users[k]);
      } else if k < j {
        assert DifferentUserIds(users[k], users[j]);
      }
    }
    assert x.id != id;
  }

  predicate KnownUserAction(action: string) {
    action in {"activate", "deactivate", "delete"}
  }

  /** The users a bulk action applies to: the listed ones, less superusers and the requester
      for `delete` and `deactivate`. */
  function UserTarget(action: string, ids: seq<UserId>, me: UserId): User -> bool {
    if action == "delete" || action == "deactivate" then
      (u: User) => u.id in ids && !u.isSuperuser && u.id != me
    else
      (u: User) => u.id in ids
  }

  /** `BulkUserActionView.post`. */
  function BulkUserAction(requester: Option<User>, users: seq<User>, action: Option<string>, ids: seq<UserId>)
    : (r: Result<BulkOutcome<User>, AdminError>)
    ensures r == Err(Forbidden) <==> !IsAdmin(requester)
    ensures r == Err(MissingInput) <==> IsAdmin(requester) && (action.None? || action.value == "" || ids == [])
    ensures r == Err(InvalidAction) <==>
      IsAdmin(requester) && action.Some? && action.value != "" && ids != [] && !KnownUserAction(action.value)
    ensures r.Ok? ==> r.value.affected == Count(users, UserTarget(action.value, ids, requester.value.id))
    ensures r.Ok? && action.value == "delete" ==>
      forall x :: x in r.value.rows <==> x in users && !UserTarget("delete", ids, requester.value.id)(x)
    ensures r.Ok? && action.value != "delete" ==>
      && |r.value.rows| == |users|
      && forall i :: 0 <= i < |users| ==>
           r.value.rows[i] == if UserTarget(action.value, ids, requester.value.id)(users[i])
                              then users[i].(isActive := action.value == "activate")
                              else users[i]
  {
    if !IsAdmin(requester) then Err(Forbidden)
    else if action.None? || action.value == "" || ids == [] then Err(MissingInput)
    else if !KnownUserAction(action.value) then Err(InvalidAction)
    else
      var target := UserTarget(action.value, ids, requester.value.id);
      var affected := Count(users, target);
      if action.value == "delete" then
        var keep := (u: User) => !target(u);
        FilterMembers(users, keep);
        Ok(BulkOutcome(Filter(users, keep), affected))
      else
        var rows := seq(|users|, i requires 0 <= i < |users| =>
          if target(users[i]) then users[i].(isActive := action.value == "activate") else users[i]);
        Ok(BulkOutcome(rows, affected))
  }

  /** Bulk `delete` and `deactivate` leave superusers and the requester as they are. */
  lemma BulkUserSparesProtected(requester: Option<User>, users: seq<User>, action: string, ids: seq<UserId>, i: int)
    requires action == "delete" || action == "deactivate"
    requires BulkUserAction(requester, users, Some(action), ids).Ok?
    requires 0 <= i < |users| && (users[i].isSuperuser || users[i].id == requester.value.id)
    ensures var rows := BulkUserAction(requester, users, Some(action), ids).value.rows;
      if action == "delete" then users[i] in rows else rows[i] == users[i]
  {
  }

  /** Bulk `activate` has no such guard: a listed, deactivated superuser is reactivated. */
  lemma BulkActivateReachesSuperusers(requester: Option<User>, users: seq<User>, ids: seq<UserId>, i: int)
    requires BulkUserAction(requester, users, Some("activate"), ids).Ok?
    requires 0 <= i < |users| && users[i].isSuperuser && users[i].id in ids
    ensures BulkUserAction(requester, users, Some("activate"), ids).value.rows[i] == users[i].(isActive := true)
  {
  }
}
