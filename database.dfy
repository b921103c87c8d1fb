/** `DatabaseManager` of database.py as a class whose fields are the three
    tables.  Each method changes the fields step by step as the source
    changes the rows, and is proved to end in the state, with the result,
    that the transition of the same name in `Ledger` (or `Claim.Claim`)
    describes.  Read-only queries are the functions `Ledger.FindProject`,
    `Ledger.ProjectNames` and `Ledger.GetStock` applied to `State()`. */
module Database {
  import opened Options
  import opened Ledger
  import opened Claim

  class DatabaseManager {
    var projects: seq<Project>
    var coupons: seq<Coupon>
    var bans: seq<Ban>
    var nextProjectId: nat

    /** The store the fields hold. */
    function State(): Store
      reads this
    {
      Store(projects, coupons, bans, nextProjectId)
    }

    ghost predicate Valid()
      reads this
    {
      WellFormed(State())
    }

    /** A freshly created, empty database. */
    constructor ()
      ensures Valid() && State() == EmptyStore
    {
      projects, coupons, bans, nextProjectId := [], [], [], 1;
      EmptyStoreWellFormed();
    }

    method CreateProject(name: string) returns (ok: bool)
      requires Valid()
      modifies this
      ensures Valid()
      ensures (ok, State()) == Ledger.CreateProject(old(State()), name)
    {
      ghost var before := State();
      ok := FindProject(projects, name).None?;
      if ok {
        // session.add of a row with the column defaults
        projects := projects + [NewProject(nextProjectId, name)];
        nextProjectId := nextProjectId + 1;
      }
      assert (ok, State()) == Ledger.CreateProject(before, name);
    }

    method SetProjectSetting(name: string, key: string, value: SettingValue) returns (ok: bool)
      requires Valid()
      modifies this
      ensures Valid()
      ensures (ok, State()) == Ledger.SetProjectSetting(old(State()), name, key, value)
    {
      ghost var before := State();
      if !ValidSetting(key, value) {
        ok := false;
        return;
      }
      ok := FindProject(projects, name).Some?;
      // the bulk update touches every row of that name, none if there is none
      projects := UpdateNamed(projects, name, key, value);
      assert !ok ==> projects == before.projects;
      assert (ok, State()) == Ledger.SetProjectSetting(before, name, key, value);
    }

    method DeleteProject(name: string) returns (ok: bool)
      requires Valid()
      modifies this
      ensures Valid()
      ensures (ok, State()) == Ledger.DeleteProject(old(State()), name)
    {
      ghost var before := State();
      var project := FindProject(projects, name);
      if project.None? {
        ok := false;
        return;
      }
      var pid := project.value.id;
      // the cascades on coupons.project_id and bans.project_id, then the row
      coupons := CouponsNotOf(coupons, pid);
      bans := BansNotOf(bans, pid);
      projects := WithoutProject(projects, pid);
      ok := true;
      assert (ok, State()) == Ledger.DeleteProject(before, name);
    }

    method BanUser(user: int, projectName: Option<string>, reason: string,
                   durationHours: Option<int>, now: int) returns (ok: bool)
      requires Valid()
      modifies this
      ensures Valid()
      ensures (ok, State()) == Ledger.BanUser(old(State()), user, projectName, reason, durationHours, now)
    {
      ghost var before := State();
      var scope: Option<nat> := None;
      if Given(projectName) && projectName.value != "global" {
        var project := FindProject(projects, projectName.value);
        if project.None? {
          ok := false;
          return;
        }
        scope := Some(project.value.id);
      }
      var until := BanUntil(durationHours, now);
      var existing := FindBan(bans, user, scope);
      if existing.Some? {
        // in-place update of the existing row
        var i := existing.value;
        bans := bans[i := bans[i].(bannedUntil := until, reason := reason)];
      } else {
        bans := bans + [Ban(user, scope, until, reason)];
      }
      ok := true;
      assert (ok, State()) == Ledger.BanUser(before, user, projectName, reason, durationHours, now);
    }

    method UnbanUser(user: int, projectName: Option<string>) returns (ok: bool)
      requires Valid()
      modifies this
      ensures Valid()
      ensures (ok, State()) == Ledger.UnbanUser(old(State()), user, projectName)
    {
      ghost var before := State();
      var scope: Option<nat> := None;
      if Given(projectName) {
        var project := FindProject(projects, projectName.value);
        if project.None? {
          ok := false;
          return;
        }
        scope := Some(project.value.id);
      }
      var rowsBefore := |bans|;
      bans := RemoveBans(bans, user, scope);
      ok := |bans| < rowsBefore;
      assert (ok, State()) == Ledger.UnbanUser(before, user, projectName);
    }

    method AddCoupons(name: string, codes: seq<string>) returns (r: AddOutcome)
      requires Valid()
      modifies this
      ensures Valid()
      ensures (r, State()) == Ledger.AddCoupons(old(State()), name, codes)
    {
      ghost var before := State();
      ghost var expected := Ledger.AddCoupons(before, name, codes);
      var project := FindProject(projects, name);
      if project.None? {
        return ProjectMissing;
      }
      var existing := StoredCodes(coupons, codes);
      var incoming := NewCodes(codes, existing);
      r := Inserted(|incoming|, |codes| - |incoming|);
      if incoming == [] {
        assert expected == (r, before);
        return;
      }
      if !Distinct(incoming) {
        // the commit violates the unique constraint on code and rolls back
        assert expected == (UniqueViolation, before);
        return UniqueViolation;
      }
      coupons := coupons + NewCoupons(incoming, project.value.id);
      assert expected == (r, before.(coupons := coupons));
    }

    method ClaimCoupon(user: int, name: string, now: int) returns (r: ClaimResult)
      requires Valid()
      modifies this
      ensures Valid()
      ensures (r, State()) == Claim.Claim(old(State()), user, name, now)
    {
      ghost var before := State();
      ClaimPreservesWellFormed(before, user, name, now);
      var project := FindProject(projects, name);
      if project.None? {
        return NoProject;
      }
      var p := project.value;
      var candidates := BansFor(bans, user, p.id);
      var active := FirstActiveBan(candidates, now);
      if active.Some? {
        return Banned(candidates[active.value].reason);
      }
      if !p.isClaimActive {
        return Disabled;
      }
      var last := LatestClaim(coupons, user, p.id);
      if last.Some? {
        var end := CooldownEnd(coupons[last.value], p);
        if now < end {
          var hm := Remaining(end - now);
          return Cooldown(hm.0, hm.1, coupons[last.value].code);
        }
      }
      var pick := FirstClaimable(coupons, p.id);
      if pick.None? {
        return NoStock;
      }
      var k := pick.value;
      r := Success(coupons[k].code);
      coupons := coupons[k := MarkClaimed(coupons[k], user, now)];
      assert (r, State()) == Claim.Claim(before, user, name, now);
    }
  }

  /** The loop of database.py:215-217 over the fetched ban rows: the first
      one still in force, if any. */
  method FirstActiveBan(candidates: seq<Ban>, now: int) returns (r: Option<nat>)
    ensures r == FirstActive(candidates, now)
  {
    var i := 0;
    while i < |candidates|
      invariant 0 <= i <= |candidates|
      invariant forall j :: 0 <= j < i ==> !BanActive(candidates[j], now)
    {
      if BanActive(candidates[i], now) {
        return Some(i);
      }
      i := i + 1;
    }
    return None;
  }
}
