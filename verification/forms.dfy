/** Form-level rules: replacing a hostel's facility links when its form is saved, the size
    limit on a payment screenshot, and the initial values of the featured-request form. */
module Forms {
  import opened Wrappers
  import opened Text
  import opened Sorting
  import opened Models

  // ---------------------------------------------------------------------------------------
  // Hostel form: facility links
  // ---------------------------------------------------------------------------------------

  /** The facility table and the hostel/facility link table. */
  datatype FacilityTables = FacilityTables(facilities: seq<Facility>, links: seq<HostelFacility>)

  /** Position of the facility named `name`, or `|facilities|` when there is none. */
  function FacilityIndex(facilities: seq<Facility>, name: string): (k: nat)
    ensures k <= |facilities|
    ensures k < |facilities| ==> facilities[k].name == name
    ensures forall i :: 0 <= i < k ==> facilities[i].name != name
  {
    FirstWhere(facilities, (f: Facility) => f.name == name)
  }

  /** `Facility.objects.get_or_create(name=name)`: the id of the facility with that name, after
      adding one under `freshId` when there is none. */
  function GetOrCreateFacility(facilities: seq<Facility>, name: string, freshId: FacilityId)
    : (r: (seq<Facility>, FacilityId))
    ensures (exists i :: 0 <= i < |facilities| && facilities[i].name == name) ==>
      r.0 == facilities && exists i :: 0 <= i < |facilities| && facilities[i].name == name && facilities[i].id == r.1
    ensures !(exists i :: 0 <= i < |facilities| && facilities[i].name == name) ==>
      r == (facilities + [Facility(freshId, name)], freshId)
  {
    var k := FacilityIndex(facilities, name);
    if k < |facilities| then (facilities, facilities[k].id)
    else (facilities + [Facility(freshId, name)], freshId)
  }

  /** Links of `hostel` to each of `selected`, in order. */
  function LinksTo(hostel: HostelId, selected: seq<FacilityId>): (r: seq<HostelFacility>)
    ensures |r| == |selected|
    ensures forall i :: 0 <= i < |r| ==> r[i] == HostelFacility(hostel, selected[i])
  {
    seq(|selected|, i requires 0 <= i < |selected| => HostelFacility(hostel, selected[i]))
  }

  /** The new facility's name as the save uses it: the form field strips its input, an empty
      result means no new facility, and the save strips it once more. */
  function NewFacilityName(newFacility: Option<string>): (name: Option<string>)
    ensures name.Some? ==> newFacility.Some? && name.value != [] && name.value == Strip(newFacility.value)
    ensures name.None? <==> newFacility.None? || AllSpace(newFacility.value)
  {
    if newFacility.None? then None
    else
      var cleaned := Strip(newFacility.value);
      StripIdempotent(newFacility.value);
      if cleaned == "" then None else Some(Strip(cleaned))
  }

  /** `HostelForm.save`'s facility handling. With `commit` false nothing is touched; otherwise
      every link of the hostel is deleted, one link per selected facility is created, and a
      named new facility is looked up or created and linked unless already linked. */
  function SaveFacilities(
    commit: bool, hostel: HostelId, tables: FacilityTables,
    selected: seq<FacilityId>, newFacility: Option<string>, freshId: FacilityId): (r: FacilityTables)
    ensures !commit ==> r == tables
  {
    if !commit then tables
    else
      var relinked := Relinked(hostel, tables.links, selected);
      var name := NewFacilityName(newFacility);
      if name.None? then FacilityTables(tables.facilities, relinked)
      else
        var (facilities, fid) := GetOrCreateFacility(tables.facilities, name.value, freshId);
        var link := HostelFacility(hostel, fid);
        FacilityTables(facilities, if link in relinked then relinked else relinked + [link])
  }

  /** The facility a committed save links as new, when a name is given. */
  function NewFacilityId(tables: FacilityTables, newFacility: Option<string>, freshId: FacilityId): Option<FacilityId> {
    var name := NewFacilityName(newFacility);
    if name.None? then None else Some(GetOrCreateFacility(tables.facilities, name.value, freshId).1)
  }

  /** The link table once the hostel's links are replaced by the selected ones. */
  function Relinked(hostel: HostelId, links: seq<HostelFacility>, selected: seq<FacilityId>): (r: seq<HostelFacility>)
    ensures forall f :: HostelFacility(hostel, f) in r <==> f in selected
    ensures forall l: HostelFacility :: l.hostel != hostel ==> (l in r <==> l in links)
  {
    var other := (l: HostelFacility) => l.hostel != hostel;
    var kept := Filter(links, other);
    FilterMembers(links, other);
    var added := LinksTo(hostel, selected);
    forall f ensures HostelFacility(hostel, f) in added <==> f in selected {
      if f in selected {
        var i :| 0 <= i < |selected| && selected[i] == f;
        assert added[i] == HostelFacility(hostel, f);
      }
    }
    kept + added
  }

  /** After a committed save the hostel is linked to exactly the selected facilities and the
      new one, and every other hostel keeps exactly its links. */
  lemma SaveFacilitiesLinks(
    hostel: HostelId, tables: FacilityTables,
    selected: seq<FacilityId>, newFacility: Option<string>, freshId: FacilityId)
    ensures var r := SaveFacilities(true, hostel, tables, selected, newFacility, freshId);
      var extra := NewFacilityId(tables, newFacility, freshId);
      && (forall f :: HostelFacility(hostel, f) in r.links <==> f in selected || extra == Some(f))
      && (forall l: HostelFacility :: l.hostel != hostel ==> (l in r.links <==> l in tables.links))
  {
    var relinked := Relinked(hostel, tables.links, selected);
    var name := NewFacilityName(newFacility);
    if name.Some? {
      var link := HostelFacility(hostel, GetOrCreateFacility(tables.facilities, name.value, freshId).1);
      assert forall l :: l in relinked + [link] <==> l in relinked || l == link;
    }
  }

  /** A facility linked before and not selected is unlinked, unless it is the new one. */
  lemma SaveFacilitiesDropsUnselected(
    hostel: HostelId, tables: FacilityTables,
    selected: seq<FacilityId>, newFacility: Option<string>, freshId: FacilityId, f: FacilityId)
    requires HostelFacility(hostel, f) in tables.links
    requires f !in selected && NewFacilityId(tables, newFacility, freshId) != Some(f)
    ensures HostelFacility(hostel, f) !in SaveFacilities(true, hostel, tables, selected, newFacility, freshId).links
  {
    SaveFacilitiesLinks(hostel, tables, selected, newFacility, freshId);
  }

  /** The new facility is found by its stripped name: when a facility of that name exists,
      no facility is created and the existing one is linked. */
  lemma SaveFacilitiesReusesByName(
    hostel: HostelId, tables: FacilityTables,
    selected: seq<FacilityId>, raw: string, freshId: FacilityId, i: int)
    requires 0 <= i < |tables.facilities| && tables.facilities[i].name == Strip(raw) && Strip(raw) != ""
    ensures var r := SaveFacilities(true, hostel, tables, selected, Some(raw), freshId);
      && r.facilities == tables.facilities
      && exists j :: 0 <= j < |tables.facilities| && tables.facilities[j].name == Strip(raw)
           && HostelFacility(hostel, tables.facilities[j].id) in r.links
  {
    var name := NewFacilityName(Some(raw));
    assert name == Some(Strip(raw));
    SaveFacilitiesLinks(hostel, tables, selected, Some(raw), freshId);
  }

  predicate DifferentLinks(a: HostelFacility, b: HostelFacility) {
    a != b
  }

  predicate DifferentFacilityIds(a: FacilityId, b: FacilityId) {
    a != b
  }

  /** Without duplicate links before and with distinct selected facilities, as the multiple
      choice field delivers them, the save creates no duplicate (hostel, facility) link. */
  lemma SaveFacilitiesNoDuplicateLinks(
    hostel: HostelId, tables: FacilityTables,
    selected: seq<FacilityId>, newFacility: Option<string>, freshId: FacilityId)
    requires Pairwise(tables.links, DifferentLinks)
    requires Pairwise(selected, DifferentFacilityIds)
    ensures Pairwise(SaveFacilities(true, hostel, tables, selected, newFacility, freshId).links, DifferentLinks)
  {
    var other := (l: HostelFacility) => l.hostel != hostel;
    var kept := Filter(tables.links, other);
    FilterPairwise(tables.links, other, DifferentLinks);
    var added := LinksTo(hostel, selected);
    assert Pairwise(added, DifferentLinks) by {
      forall i, j | 0 <= i < j < |added| ensures DifferentLinks(added[i], added[j]) {
        assert DifferentFacilityIds(selected[i], selected[j]);
      }
    }
    ConcatPairwise(kept, added, DifferentLinks);
    var relinked := kept + added;
    var name := NewFacilityName(newFacility);
    if name.Some? {
      var fid := GetOrCreateFacility(tables.facilities, name.value, freshId).1;
      var link := HostelFacility(hostel, fid);
      if link !in relinked {
        forall i, j | 0 <= i < |relinked| && 0 <= j < |[link]|
          ensures DifferentLinks(relinked[i], [link][j])
        {
        }
        ConcatPairwise(relinked, [link], DifferentLinks);
      }
    }
  }

  // ---------------------------------------------------------------------------------------
  // Featured-request form
  // ---------------------------------------------------------------------------------------

  /** The upload limit of a payment screenshot: 5 MB. */
  const MaxScreenshotBytes: nat := 5 * 1024 * 1024

  datatype FormError = FileTooLarge

  /** `FeaturedRequestForm.clean_payment_screenshot`: `None` is no file; a file over the limit
      is refused; the size of an accepted file is passed through. */
  function CheckScreenshot(size: Option<nat>): (r: Result<Option<nat>, FormError>)
    ensures r.Err? <==> size.Some? && size.value > MaxScreenshotBytes
    ensures r.Ok? ==> r.value == size
  {
    if size.Some? && size.value > MaxScreenshotBytes then Err(FileTooLarge) else Ok(size)
  }

  /** The limit is inclusive: a file of exactly 5 MB passes, one byte more does not. */
  lemma ScreenshotLimitBoundary()
    ensures CheckScreenshot(Some(5_242_880)).Ok?
    ensures CheckScreenshot(Some(5_242_881)).Err?
    ensures CheckScreenshot(None).Ok?
  {
  }

  predicate PlanIsActive(p: FeaturedPlan) {
    p.isActive
  }

  function PlanDurationKey(p: FeaturedPlan): real {
    p.durationDays as real
  }

  /** The plan choices: `FeaturedPlan.objects.filter(is_active=True)` in the model's
      `duration_days` order. */
  function ActivePlanChoices(plans: seq<FeaturedPlan>): (r: seq<FeaturedPlan>)
    ensures SortedBy(r, PlanDurationKey)
    ensures forall p :: p in r <==> p in plans && p.isActive
  {
    var active := Filter(plans, PlanIsActive);
    FilterMembers(plans, PlanIsActive);
    var r := SortBy(active, PlanDurationKey);
    SameMembers(r, active);
    r
  }

  /** Django's `get_full_name`: first and last name joined by a space, stripped. */
  function FullName(u: User): string {
    Strip(u.firstName + " " + u.lastName)
  }

  /** The initial contact name: the full name, or the username when the full name is empty;
      no value without a signed-in user. */
  function ContactNameDefault(user: Option<User>): (name: Option<string>)
    ensures user.None? <==> name.None?
  {
    if user.None? then None
    else
      var full := FullName(user.value);
      Some(if full != "" then full else user.value.username)
  }

  /** A text made of two parts and a space is all whitespace exactly when both parts are. */
  lemma AllSpaceJoin(a: string, b: string)
    ensures AllSpace(a + " " + b) <==> AllSpace(a) && AllSpace(b)
  {
    var s := a + " " + b;
    if AllSpace(s) {
      assert forall i :: 0 <= i < |a| ==> s[i] == a[i];
      assert forall i :: 0 <= i < |b| ==> s[|a| + 1 + i] == b[i];
    }
  }

  /** The contact name falls back to the username exactly when both name parts are blank,
      and otherwise is the full name. */
  lemma ContactNameFallback(u: User)
    ensures ContactNameDefault(Some(u)) == Some(u.username) || ContactNameDefault(Some(u)) == Some(FullName(u))
    ensures AllSpace(u.firstName) && AllSpace(u.lastName) ==> ContactNameDefault(Some(u)) == Some(u.username)
    ensures !(AllSpace(u.firstName) && AllSpace(u.lastName)) ==>
      ContactNameDefault(Some(u)) == Some(FullName(u)) && FullName(u) != ""
  {
    AllSpaceJoin(u.firstName, u.lastName);
  }
}
