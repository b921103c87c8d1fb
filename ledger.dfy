/** The coupon ledger of database.py as a value: the three tables, the
    integrity constraints the schema declares, the read-only queries, and
    every state-changing operation of `DatabaseManager` as a pure transition
    from the old store to the new one.  The class in database.dfy is proved
    to follow these transitions; what the source promises about them is
    stated here. */
module Ledger {
  import opened Options
  import opened LexOrder

  /** `claim_cooldown_hours` column default (database.py:34). */
  const DefaultCooldownHours: int := 168
  /** `timedelta(hours=1)`, with timestamps modelled as whole seconds. */
  const SecondsPerHour: int := 3600

  /** Row of the `projects` table (database.py:29-36). */
  datatype Project = Project(id: nat, name: string, isClaimActive: bool, claimCooldownHours: int)

  /** Row of the `coupons` table (database.py:38-46); a row is identified by
      its position, which follows the insertion (rowid) order. */
  datatype Coupon = Coupon(code: string, isClaimed: bool, claimedBy: Option<int>,
                           claimedAt: Option<int>, projectId: nat)

  /** Row of the `bans` table (database.py:48-56): `projectId == None` is a
      global ban, `bannedUntil == None` a permanent one. */
  datatype Ban = Ban(userId: int, projectId: Option<nat>, bannedUntil: Option<int>, reason: string)

  /** The whole database; `nextProjectId` is the id the next project row gets. */
  datatype Store = Store(projects: seq<Project>, coupons: seq<Coupon>, bans: seq<Ban>, nextProjectId: nat)

  const EmptyStore: Store := Store([], [], [], 1)

  // ---------------------------------------------------------------------
  // Integrity constraints
  // ---------------------------------------------------------------------

  /** `name` is unique (database.py:32). */
  predicate UniqueNames(ps: seq<Project>) {
    forall i, j :: 0 <= i < j < |ps| ==> ps[i].name != ps[j].name
  }

  predicate UniqueIds(ps: seq<Project>) {
    forall i, j :: 0 <= i < j < |ps| ==> ps[i].id != ps[j].id
  }

  /** `code` is unique across all projects (database.py:41). */
  predicate UniqueCodes(cs: seq<Coupon>) {
    forall i, j :: 0 <= i < j < |cs| ==> cs[i].code != cs[j].code
  }

  /** The row is the ban of `user` in `scope`: the key (user, scope). */
  predicate HasKey(b: Ban, user: int, scope: Option<nat>) {
    b.userId == user && b.projectId == scope
  }

  /** Two rows with the same key. */
  predicate SameBanKey(a: Ban, b: Ban) {
    HasKey(a, b.userId, b.projectId)
  }

  /** At most one row per (user, scope) (database.py:56).  SQLite would let
      two global rows of one user through, since NULLs are distinct in a
      unique constraint; `ban_user`'s upsert keeps them unique anyway. */
  predicate UniqueBanKeys(bs: seq<Ban>) {
    forall i, j :: 0 <= i < j < |bs| ==> !SameBanKey(bs[i], bs[j])
  }

  function ProjectIds(ps: seq<Project>): set<nat> {
    set p | p in ps :: p.id
  }

  /** A coupon is claimed exactly when it has a claimant and a claim time. */
  predicate ClaimConsistent(c: Coupon) {
    c.isClaimed == c.claimedBy.Some? && c.isClaimed == c.claimedAt.Some?
  }

  /** The declared constraints (unique names, ids and codes, the foreign keys
      of database.py:45 and 52, one scoped ban per user and project) and the
      invariants only the operations keep (one global ban per user, claim
      columns set together, ids below the next project id). */
  predicate WellFormed(s: Store) {
    && UniqueNames(s.projects)
    && UniqueIds(s.projects)
    && (forall p :: p in s.projects ==> p.id < s.nextProjectId)
    && UniqueCodes(s.coupons)
    && (forall c :: c in s.coupons ==> c.projectId in ProjectIds(s.projects) && ClaimConsistent(c))
    && (forall b :: b in s.bans && b.projectId.Some? ==> b.projectId.value in ProjectIds(s.projects))
    && UniqueBanKeys(s.bans)
  }

  lemma EmptyStoreWellFormed()
    ensures WellFormed(EmptyStore)
  {
  }

  // ---------------------------------------------------------------------
  // Queries
  // ---------------------------------------------------------------------

  /** `get_project`: the row with that exact name, if any (database.py:77-80). */
  function FindProject(ps: seq<Project>, name: string): (r: Option<Project>)
    ensures r.Some? ==> r.value in ps && r.value.name == name
    ensures r.None? <==> forall p :: p in ps ==> p.name != name
  {
    if ps == [] then None
    else if ps[0].name == name then Some(ps[0])
    else FindProject(ps[1..], name)
  }

  /** With unique names, the row `FindProject` returns is the only one. */
  lemma FindProjectUnique(ps: seq<Project>, name: string, p: Project)
    requires UniqueNames(ps)
    requires p in ps && p.name == name
    ensures FindProject(ps, name) == Some(p)
  {
    var q := FindProject(ps, name).value;
    var i :| 0 <= i < |ps| && ps[i] == p;
    var j :| 0 <= j < |ps| && ps[j] == q;
    assert i == j;
  }

  function Names(ps: seq<Project>): (r: seq<string>)
    ensures |r| == |ps|
    ensures forall i :: 0 <= i < |ps| ==> r[i] == ps[i].name
  {
    if ps == [] then [] else [ps[0].name] + Names(ps[1..])
  }

  /** `get_all_project_names`: every name, ordered by name (database.py:82-85). */
  function ProjectNames(s: Store): (r: seq<string>)
    ensures Sorted(r)
    ensures multiset(r) == multiset(Names(s.projects))
  {
    Sort(Names(s.projects))
  }

  lemma {:induction false} NameCount(ps: seq<Project>, name: string)
    requires UniqueNames(ps)
    ensures multiset(Names(ps))[name] == if FindProject(ps, name).Some? then 1 else 0
  {
    if ps != [] {
      assert Names(ps) == [ps[0].name] + Names(ps[1..]);
      NameCount(ps[1..], name);
      if ps[0].name == name {
        assert FindProject(ps[1..], name).None? by {
          forall p | p in ps[1..] ensures p.name != name {
            var j :| 0 <= j < |ps[1..]| && ps[1..][j] == p;
            assert ps[j + 1] == p;
          }
        }
      }
    }
  }

  /** In a well-formed store every project name is listed exactly once and
      no other name is listed. */
  lemma ProjectNamesListEachOnce(s: Store, name: string)
    requires WellFormed(s)
    ensures multiset(ProjectNames(s))[name] == if FindProject(s.projects, name).Some? then 1 else 0
  {
    NameCount(s.projects, name);
  }

  /** In a well-formed store the name listing is strictly increasing. */
  lemma ProjectNamesStrictlyIncreasing(s: Store)
    requires WellFormed(s)
    ensures var r := ProjectNames(s);
      forall i, j :: 0 <= i < j < |r| ==> LexLe(r[i], r[j]) && !LexLe(r[j], r[i])
  {
    var r := ProjectNames(s);
    forall x ensures multiset(r)[x] <= 1 { ProjectNamesListEachOnce(s, x); }
    DistinctIffNoRepeats(r);
    forall i, j | 0 <= i < j < |r| ensures LexLe(r[i], r[j]) && !LexLe(r[j], r[i]) {
      SortedDistinctIsStrict(r, i, j);
    }
  }

  predicate Claimable(c: Coupon, pid: nat) {
    c.projectId == pid && !c.isClaimed
  }

  /** `select count(...) where project_id == pid and is_claimed == False`. */
  function CountClaimable(cs: seq<Coupon>, pid: nat): (n: nat)
    ensures n <= |cs|
    ensures n == 0 <==> forall c :: c in cs ==> !Claimable(c, pid)
  {
    if cs == [] then 0
    else (if Claimable(cs[0], pid) then 1 else 0) + CountClaimable(cs[1..], pid)
  }

  lemma {:induction false} CountClaimableAppend(a: seq<Coupon>, b: seq<Coupon>, pid: nat)
    ensures CountClaimable(a + b, pid) == CountClaimable(a, pid) + CountClaimable(b, pid)
  {
    if a == [] {
      assert a + b == b;
    } else {
      assert (a + b)[0] == a[0] && (a + b)[1..] == a[1..] + b;
      CountClaimableAppend(a[1..], b, pid);
    }
  }

  /** `get_stock` (database.py:187-198): `None` for an unknown project,
      otherwise the number of its unclaimed coupons; no expiry is involved. */
  function GetStock(s: Store, name: string): (r: Option<nat>)
    ensures r.None? <==> FindProject(s.projects, name).None?
    ensures r.Some? ==> r.value <= |s.coupons|
    ensures r.Some? ==>
      (r.value == 0 <==> forall c :: c in s.coupons ==> !Claimable(c, FindProject(s.projects, name).value.id))
  {
    match FindProject(s.projects, name)
    case None => None
    case Some(p) => Some(CountClaimable(s.coupons, p.id))
  }

  // ---------------------------------------------------------------------
  // create_project
  // ---------------------------------------------------------------------

  function NewProject(id: nat, name: string): Project {
    Project(id, name, true, DefaultCooldownHours)
  }

  /** `create_project` (database.py:66-75): the unique constraint on `name`
      turns a second project of the same name into a failure. */
  function CreateProject(s: Store, name: string): (r: (bool, Store))
    ensures r.0 <==> FindProject(s.projects, name).None?
    ensures !r.0 ==> r.1 == s
    ensures r.0 ==> r.1.coupons == s.coupons && r.1.bans == s.bans
    ensures r.0 ==> FindProject(r.1.projects, name) == Some(NewProject(s.nextProjectId, name))
    ensures r.0 ==> forall p :: p in r.1.projects <==> p in s.projects || p == NewProject(s.nextProjectId, name)
    ensures WellFormed(s) ==> WellFormed(r.1)
  {
    if FindProject(s.projects, name).Some? then (false, s)
    else
      var ps := s.projects + [NewProject(s.nextProjectId, name)];
      assert FindProject(ps, name) == Some(NewProject(s.nextProjectId, name)) by {
        FindProjectAppend(s.projects, NewProject(s.nextProjectId, name), name);
      }
      assert ProjectIds(ps) == ProjectIds(s.projects) + {s.nextProjectId};
      (true, s.(projects := ps, nextProjectId := s.nextProjectId + 1))
  }

  lemma {:induction false} FindProjectAppend(ps: seq<Project>, p: Project, name: string)
    requires FindProject(ps, name).None? && p.name == name
    ensures FindProject(ps + [p], name) == Some(p)
  {
    if ps != [] {
      assert (ps + [p])[1..] == ps[1..] + [p];
      FindProjectAppend(ps[1..], p, name);
    }
  }

  /** After a successful `create_project` the new name is listed exactly once. */
  lemma CreatedProjectListedOnce(s: Store, name: string)
    requires WellFormed(s)
    requires CreateProject(s, name).0
    ensures multiset(ProjectNames(CreateProject(s, name).1))[name] == 1
  {
    ProjectNamesListEachOnce(CreateProject(s, name).1, name);
  }

  // ---------------------------------------------------------------------
  // set_project_setting
  // ---------------------------------------------------------------------

  /** The value passed to `set_project_setting`. */
  datatype SettingValue = BoolValue(b: bool) | IntValue(n: int)

  const ClaimActiveKey: string := "is_claim_active"
  const CooldownHoursKey: string := "claim_cooldown_hours"

  /** The two settable columns, each with a value of its own type. */
  predicate ValidSetting(key: string, value: SettingValue) {
    (key == ClaimActiveKey && value.BoolValue?) || (key == CooldownHoursKey && value.IntValue?)
  }

  function ApplySetting(p: Project, key: string, value: SettingValue): Project
    requires ValidSetting(key, value)
  {
    if key == ClaimActiveKey then p.(isClaimActive := value.b)
    else p.(claimCooldownHours := value.n)
  }

  /** The bulk `update ... where name == project_name` (database.py:94). */
  function UpdateNamed(ps: seq<Project>, name: string, key: string, value: SettingValue): (r: seq<Project>)
    requires ValidSetting(key, value)
    ensures |r| == |ps|
    ensures forall i :: 0 <= i < |ps| ==> r[i].id == ps[i].id && r[i].name == ps[i].name
    ensures forall i :: 0 <= i < |ps| && ps[i].name != name ==> r[i] == ps[i]
    ensures forall i :: 0 <= i < |ps| && ps[i].name == name ==>
      if key == ClaimActiveKey then r[i].isClaimActive == value.b && r[i].claimCooldownHours == ps[i].claimCooldownHours
      else r[i].claimCooldownHours == value.n && r[i].isClaimActive == ps[i].isClaimActive
  {
    seq(|ps|, i requires 0 <= i < |ps| =>
      if ps[i].name == name then ApplySetting(ps[i], key, value) else ps[i])
  }

  /** Rewriting project rows without touching their ids or names keeps every
      integrity constraint. */
  lemma SameKeysWellFormed(s: Store, ps: seq<Project>)
    requires |ps| == |s.projects|
    requires forall i :: 0 <= i < |ps| ==> ps[i].id == s.projects[i].id && ps[i].name == s.projects[i].name
    ensures WellFormed(s) ==> WellFormed(s.(projects := ps))
  {
    assert ProjectIds(ps) == ProjectIds(s.projects) by {
      forall x | x in ProjectIds(ps) ensures x in ProjectIds(s.projects) {
        var p :| p in ps && p.id == x;
        var i :| 0 <= i < |ps| && ps[i] == p;
        assert s.projects[i] in s.projects;
      }
      forall x | x in ProjectIds(s.projects) ensures x in ProjectIds(ps) {
        var p :| p in s.projects && p.id == x;
        var i :| 0 <= i < |s.projects| && s.projects[i] == p;
        assert ps[i] in ps;
      }
    }
    if WellFormed(s) {
      forall p | p in ps ensures p.id < s.nextProjectId {
        var i :| 0 <= i < |ps| && ps[i] == p;
        assert s.projects[i] in s.projects;
      }
    }
  }

  /** `set_project_setting` (database.py:87-97): an unknown key is refused
      before the store is touched; otherwise the result says whether a row
      was updated, and only the named field of the named project changes. */
  function SetProjectSetting(s: Store, name: string, key: string, value: SettingValue): (r: (bool, Store))
    ensures !ValidSetting(key, value) ==> r == (false, s)
    ensures ValidSetting(key, value) ==> (r.0 <==> FindProject(s.projects, name).Some?)
    ensures !r.0 ==> r.1 == s
    ensures r.1.coupons == s.coupons && r.1.bans == s.bans && r.1.nextProjectId == s.nextProjectId
    ensures |r.1.projects| == |s.projects|
    ensures forall i :: 0 <= i < |s.projects| ==>
      var (p, q) := (s.projects[i], r.1.projects[i]);
      && q.id == p.id && q.name == p.name
      && (p.name != name ==> q == p)
      && (p.name == name && key == ClaimActiveKey ==> q.claimCooldownHours == p.claimCooldownHours)
      && (p.name == name && key == CooldownHoursKey ==> q.isClaimActive == p.isClaimActive)
      && (p.name == name && ValidSetting(key, value) ==>
            if value.BoolValue? then q.isClaimActive == value.b else q.claimCooldownHours == value.n)
    ensures WellFormed(s) ==> WellFormed(r.1)
  {
    if !ValidSetting(key, value) then (false, s)
    else
      var ps := UpdateNamed(s.projects, name, key, value);
      if FindProject(s.projects, name).None? then
        assert ps == s.projects;
        (false, s)
      else
        SameKeysWellFormed(s, ps);
        (true, s.(projects := ps))
  }

  // ---------------------------------------------------------------------
  // delete_project
  // ---------------------------------------------------------------------

  lemma ConsUniqueNames(p: Project, ps: seq<Project>)
    requires UniqueNames(ps) && forall q :: q in ps ==> q.name != p.name
    ensures UniqueNames([p] + ps)
  {
    forall i, j | 0 <= i < j < |[p] + ps| ensures ([p] + ps)[i].name != ([p] + ps)[j].name {
      if i == 0 { assert ([p] + ps)[j] == ps[j - 1]; }
    }
  }

  lemma ConsUniqueIds(p: Project, ps: seq<Project>)
    requires UniqueIds(ps) && forall q :: q in ps ==> q.id != p.id
    ensures UniqueIds([p] + ps)
  {
    forall i, j | 0 <= i < j < |[p] + ps| ensures ([p] + ps)[i].id != ([p] + ps)[j].id {
      if i == 0 { assert ([p] + ps)[j] == ps[j - 1]; }
    }
  }

  /** The projects the delete keeps. */
  function WithoutProject(ps: seq<Project>, pid: nat): (r: seq<Project>)
    ensures forall p :: p in r <==> p in ps && p.id != pid
    ensures UniqueNames(ps) ==> UniqueNames(r)
    ensures UniqueIds(ps) ==> UniqueIds(r)
  {
    if ps == [] then []
    else
      var rest := WithoutProject(ps[1..], pid);
      assert ps == [ps[0]] + ps[1..];
      if ps[0].id == pid then rest
      else
        assert UniqueNames(ps) ==> UniqueNames([ps[0]] + rest) by {
          if UniqueNames(ps) {
            forall p | p in rest ensures p.name != ps[0].name {
              var j :| 0 <= j < |ps[1..]| && ps[1..][j] == p;
              assert ps[j + 1] == p;
            }
            ConsUniqueNames(ps[0], rest);
          }
        }
        assert UniqueIds(ps) ==> UniqueIds([ps[0]] + rest) by {
          if UniqueIds(ps) {
            forall p | p in rest ensures p.id != ps[0].id {
              var j :| 0 <= j < |ps[1..]| && ps[1..][j] == p;
              assert ps[j + 1] == p;
            }
            ConsUniqueIds(ps[0], rest);
          }
        }
        [ps[0]] + rest
  }

  /** The coupons the cascade keeps: those of other projects. */
  function CouponsNotOf(cs: seq<Coupon>, pid: nat): (r: seq<Coupon>)
    ensures forall c :: c in r <==> c in cs && c.projectId != pid
    ensures UniqueCodes(cs) ==> UniqueCodes(r)
  {
    if cs == [] then []
    else
      var rest := CouponsNotOf(cs[1..], pid);
      if cs[0].projectId == pid then rest
      else
        assert UniqueCodes(cs) ==> forall c :: c in rest ==> c.code != cs[0].code by {
          if UniqueCodes(cs) {
            forall c | c in rest ensures c.code != cs[0].code {
              var j :| 0 <= j < |cs[1..]| && cs[1..][j] == c;
              assert cs[j + 1] == c;
            }
          }
        }
        [cs[0]] + rest
  }

  /** The bans the cascade keeps: global ones and those of other projects. */
  function BansNotOf(bs: seq<Ban>, pid: nat): (r: seq<Ban>)
    ensures forall b :: b in r <==> b in bs && b.projectId != Some(pid)
    ensures UniqueBanKeys(bs) ==> UniqueBanKeys(r)
  {
    if bs == [] then []
    else
      var rest := BansNotOf(bs[1..], pid);
      if bs[0].projectId == Some(pid) then rest
      else
        assert UniqueBanKeys(bs) ==> forall b :: b in rest ==> !SameBanKey(b, bs[0]) by {
          if UniqueBanKeys(bs) {
            forall b | b in rest ensures !SameBanKey(b, bs[0]) {
              var j :| 0 <= j < |bs[1..]| && bs[1..][j] == b;
              assert bs[j + 1] == b;
            }
          }
        }
        [bs[0]] + rest
  }

  /** `delete_project` (database.py:99-112): the row and, through the
      cascades of database.py:35-36, every coupon of the project and every
      ban scoped to it go; global bans and other projects' rows stay. */
  function DeleteProject(s: Store, name: string): (r: (bool, Store))
    ensures r.0 <==> FindProject(s.projects, name).Some?
    ensures !r.0 ==> r.1 == s
    ensures r.0 ==> var pid := FindProject(s.projects, name).value.id;
      && (forall p :: p in r.1.projects <==> p in s.projects && p.id != pid)
      && (forall c :: c in r.1.coupons <==> c in s.coupons && c.projectId != pid)
      && (forall b :: b in r.1.bans <==> b in s.bans && b.projectId != Some(pid))
      && r.1.nextProjectId == s.nextProjectId
    ensures WellFormed(s) ==> WellFormed(r.1)
    ensures WellFormed(s) ==> FindProject(r.1.projects, name).None?
  {
    match FindProject(s.projects, name)
    case None => (false, s)
    case Some(p) =>
      var s' := Store(WithoutProject(s.projects, p.id), CouponsNotOf(s.coupons, p.id),
                      BansNotOf(s.bans, p.id), s.nextProjectId);
      assert ProjectIds(s'.projects) == ProjectIds(s.projects) - {p.id};
      assert WellFormed(s) ==> FindProject(s'.projects, name).None? by {
        if WellFormed(s) {
          forall q | q in s'.projects ensures q.name != name {
            if q.name == name { FindProjectUnique(s.projects, name, q); }
          }
        }
      }
      (true, s')
  }

  // ---------------------------------------------------------------------
  // ban_user and unban_user
  // ---------------------------------------------------------------------

  /** Python's truth test on an optional project name: absent and empty
      are both false. */
  predicate Given(name: Option<string>) {
    name.Some? && name.value != ""
  }

  /** The scope `ban_user` resolves (database.py:117-122): `None` when the
      named project does not exist, `Some(None)` for a global ban (no name,
      an empty name, or the word "global"), `Some(Some(id))` otherwise. */
  function BanScope(ps: seq<Project>, projectName: Option<string>): (r: Option<Option<nat>>)
    ensures !Given(projectName) || projectName.value == "global" ==> r == Some(None)
    ensures Given(projectName) && projectName.value != "global" ==>
      (r.None? <==> forall p :: p in ps ==> p.name != projectName.value)
    ensures r.Some? && r.value.Some? ==>
      exists p :: p in ps && p.name == projectName.value && p.id == r.value.value
  {
    if Given(projectName) && projectName.value != "global" then
      match FindProject(ps, projectName.value)
      case None => None
      case Some(p) => Some(Some(p.id))
    else Some(None)
  }

  /** The scope `unban_user` resolves (database.py:149-154); unlike
      `BanScope`, "global" is looked up as a project name. */
  function UnbanScope(ps: seq<Project>, projectName: Option<string>): (r: Option<Option<nat>>)
    ensures !Given(projectName) ==> r == Some(None)
    ensures Given(projectName) ==> (r.None? <==> forall p :: p in ps ==> p.name != projectName.value)
    ensures r.Some? && r.value.Some? ==>
      exists p :: p in ps && p.name == projectName.value && p.id == r.value.value
  {
    if Given(projectName) then
      match FindProject(ps, projectName.value)
      case None => None
      case Some(p) => Some(Some(p.id))
    else Some(None)
  }

  /** `banned_until` (database.py:125): a duration of 0 is false in Python,
      so it gives a permanent ban just like an absent one. */
  function BanUntil(durationHours: Option<int>, now: int): (r: Option<int>)
    ensures r.None? <==> durationHours.None? || durationHours.value == 0
    ensures r.Some? ==> r.value - now == durationHours.value * SecondsPerHour
  {
    if durationHours.Some? && durationHours.value != 0 then Some(now + durationHours.value * SecondsPerHour)
    else None
  }

  /** `select(Ban).filter_by(user_id=..., project_id=...)` (database.py:127-129). */
  function FindBan(bs: seq<Ban>, user: int, scope: Option<nat>): (r: Option<nat>)
    ensures r.Some? ==> r.value < |bs| && HasKey(bs[r.value], user, scope)
    ensures r.None? ==> forall b :: b in bs ==> !HasKey(b, user, scope)
  {
    if bs == [] then None
    else if HasKey(bs[0], user, scope) then Some(0)
    else match FindBan(bs[1..], user, scope)
      case None => None
      case Some(i) => Some(i + 1)
  }

  /** The upsert of database.py:131-138: overwrite `banned_until` and
      `reason` of the existing row in place, or append a new row. */
  function UpsertBan(bs: seq<Ban>, b: Ban): (r: seq<Ban>)
    ensures b in r
    ensures forall x :: !SameBanKey(x, b) ==> (x in r <==> x in bs)
    ensures UniqueBanKeys(bs) ==> UniqueBanKeys(r)
    ensures UniqueBanKeys(bs) ==> forall x :: x in r && SameBanKey(x, b) ==> x == b
  {
    match FindBan(bs, b.userId, b.projectId)
    case Some(i) =>
      var r := bs[i := bs[i].(bannedUntil := b.bannedUntil, reason := b.reason)];
      assert r[i] == b;
      assert forall x :: !SameBanKey(x, b) ==> (x in r <==> x in bs) by {
        forall x | !SameBanKey(x, b) ensures x in r <==> x in bs {
          if x in r { var j :| 0 <= j < |r| && r[j] == x; assert j != i; assert bs[j] == x; }
          if x in bs { var j :| 0 <= j < |bs| && bs[j] == x; assert j != i; assert r[j] == x; }
        }
      }
      assert UniqueBanKeys(bs) ==> forall x :: x in r && SameBanKey(x, b) ==> x == b by {
        if UniqueBanKeys(bs) {
          forall x | x in r && SameBanKey(x, b) ensures x == b {
            var j :| 0 <= j < |r| && r[j] == x;
            if j != i { assert SameBanKey(bs[j], bs[i]); }
          }
        }
      }
      r
    case None =>
      var r := bs + [b];
      assert forall x :: x in r <==> x in bs || x == b;
      assert UniqueBanKeys(bs) ==> UniqueBanKeys(r) by {
        if UniqueBanKeys(bs) {
          forall i, j | 0 <= i < j < |r| ensures !SameBanKey(r[i], r[j]) {
            if j == |bs| { assert r[i] == bs[i] && bs[i] in bs; } else { assert r[i] == bs[i] && r[j] == bs[j]; }
          }
        }
      }
      r
  }

  /** `ban_user` (database.py:115-145). */
  function BanUser(s: Store, user: int, projectName: Option<string>, reason: string,
                   durationHours: Option<int>, now: int): (r: (bool, Store))
    ensures r.0 <==> BanScope(s.projects, projectName).Some?
    ensures !r.0 ==> r.1 == s
    ensures r.1.projects == s.projects && r.1.coupons == s.coupons && r.1.nextProjectId == s.nextProjectId
    ensures r.0 ==> r.1.bans == UpsertBan(s.bans,
      Ban(user, BanScope(s.projects, projectName).value, BanUntil(durationHours, now), reason))
    ensures WellFormed(s) ==> WellFormed(r.1)
  {
    match BanScope(s.projects, projectName)
    case None => (false, s)
    case Some(scope) =>
      var b := Ban(user, scope, BanUntil(durationHours, now), reason);
      assert scope.Some? ==> scope.value in ProjectIds(s.projects) by {
        if scope.Some? { assert FindProject(s.projects, projectName.value).value in s.projects; }
      }
      (true, s.(bans := UpsertBan(s.bans, b)))
  }

  /** After a successful ban the (user, scope) pair has exactly one row, the
      new one, permanent exactly when no non-zero duration was given; every
      other row is as before. */
  lemma BanUserUpserts(s: Store, user: int, projectName: Option<string>, reason: string,
                       durationHours: Option<int>, now: int)
    requires WellFormed(s)
    requires BanUser(s, user, projectName, reason, durationHours, now).0
    ensures var bs := BanUser(s, user, projectName, reason, durationHours, now).1.bans;
      var scope := BanScope(s.projects, projectName).value;
      && (exists i :: 0 <= i < |bs| && HasKey(bs[i], user, scope)
            && bs[i].reason == reason
            && (bs[i].bannedUntil.None? <==> durationHours.None? || durationHours.value == 0)
            && (bs[i].bannedUntil.Some? ==> bs[i].bannedUntil.value == now + durationHours.value * SecondsPerHour))
      && UniqueBanKeys(bs)
      && (forall b: Ban :: !HasKey(b, user, scope) ==> (b in bs <==> b in s.bans))
  {
    var bs := BanUser(s, user, projectName, reason, durationHours, now).1.bans;
    var b := Ban(user, BanScope(s.projects, projectName).value, BanUntil(durationHours, now), reason);
    assert b in bs;
    var i :| 0 <= i < |bs| && bs[i] == b;
  }

  /** The bulk `delete(Ban).filter_by(...)` of database.py:156; the number of
      rows it removes is the `rowcount` tested at database.py:161. */
  function RemoveBans(bs: seq<Ban>, user: int, scope: Option<nat>): (r: seq<Ban>)
    ensures |r| <= |bs|
    ensures forall x :: x in r <==> x in bs && !HasKey(x, user, scope)
    ensures |r| < |bs| <==> exists x :: x in bs && HasKey(x, user, scope)
    ensures |r| == |bs| ==> r == bs
    ensures UniqueBanKeys(bs) ==> UniqueBanKeys(r)
  {
    if bs == [] then []
    else
      var rest := RemoveBans(bs[1..], user, scope);
      assert bs == [bs[0]] + bs[1..];
      if HasKey(bs[0], user, scope) then rest
      else
        assert UniqueBanKeys(bs) ==> UniqueBanKeys([bs[0]] + rest) by {
          if UniqueBanKeys(bs) {
            forall b | b in rest ensures !SameBanKey(bs[0], b) {
              var j :| 0 <= j < |bs[1..]| && bs[1..][j] == b;
              assert bs[j + 1] == b;
            }
            ConsUniqueBanKeys(bs[0], rest);
          }
        }
        [bs[0]] + rest
  }

  lemma ConsUniqueBanKeys(b: Ban, bs: seq<Ban>)
    requires UniqueBanKeys(bs) && forall x :: x in bs ==> !SameBanKey(b, x)
    ensures UniqueBanKeys([b] + bs)
  {
    forall i, j | 0 <= i < j < |[b] + bs| ensures !SameBanKey(([b] + bs)[i], ([b] + bs)[j]) {
      if i == 0 { assert ([b] + bs)[j] == bs[j - 1]; }
    }
  }

  /** `unban_user` (database.py:147-164): true exactly when a row of that
      (user, scope) pair existed; afterwards none exists and the other rows are
      as before.  An unknown project name fails without change. */
  function UnbanUser(s: Store, user: int, projectName: Option<string>): (r: (bool, Store))
    ensures UnbanScope(s.projects, projectName).None? ==> r == (false, s)
    ensures r.0 <==> (UnbanScope(s.projects, projectName).Some? &&
      exists b :: b in s.bans && b.userId == user && b.projectId == UnbanScope(s.projects, projectName).value)
    ensures !r.0 ==> r.1 == s
    ensures r.1.projects == s.projects && r.1.coupons == s.coupons && r.1.nextProjectId == s.nextProjectId
    ensures UnbanScope(s.projects, projectName).Some? ==>
      var scope := UnbanScope(s.projects, projectName).value;
      forall b :: b in r.1.bans <==> b in s.bans && (b.userId != user || b.projectId != scope)
    ensures WellFormed(s) ==> WellFormed(r.1)
  {
    match UnbanScope(s.projects, projectName)
    case None => (false, s)
    case Some(scope) =>
      var bs := RemoveBans(s.bans, user, scope);
      (|bs| < |s.bans|, s.(bans := bs))
  }

  /** The two operations read "global" differently: `ban_user` takes it as
      the global scope, `unban_user` as the name of a project, so without a
      project of that name `unban_user(user, "global")` fails. */
  lemma GlobalNameAsymmetry(s: Store, user: int)
    requires FindProject(s.projects, "global").None?
    ensures BanScope(s.projects, Some("global")) == Some(None)
    ensures !UnbanUser(s, user, Some("global")).0
    ensures UnbanUser(s, user, Some("global")).1 == s
  {
  }

  // ---------------------------------------------------------------------
  // add_coupons
  // ---------------------------------------------------------------------

  /** The outcome of `add_coupons`: `None` for an unknown project, the pair
      (inserted, duplicates), or the `IntegrityError` that escapes when the
      commit meets the unique constraint on `code`. */
  datatype AddOutcome = ProjectMissing | Inserted(inserted: nat, duplicates: nat) | UniqueViolation

  /** `select(Coupon.code).where(Coupon.code.in_(codes))`: the batch's codes
      already stored, in any project (database.py:172-174). */
  function StoredCodes(cs: seq<Coupon>, codes: seq<string>): (r: set<string>)
    ensures forall x :: x in r <==> x in codes && exists c :: c in cs && c.code == x
  {
    set c | c in cs && c.code in codes :: c.code
  }

  /** The list comprehension of database.py:176-179: the batch in order,
      without the codes already stored, but with its own repeats. */
  function NewCodes(codes: seq<string>, existing: set<string>): (r: seq<string>)
    ensures |r| <= |codes|
    ensures forall x :: multiset(r)[x] == if x in existing then 0 else multiset(codes)[x]
  {
    if codes == [] then []
    else
      assert codes == [codes[0]] + codes[1..];
      (if codes[0] in existing then [] else [codes[0]]) + NewCodes(codes[1..], existing)
  }

  predicate Distinct(s: seq<string>) {
    forall i, j :: 0 <= i < j < |s| ==> s[i] != s[j]
  }

  lemma {:induction false} DistinctIffNoRepeats(s: seq<string>)
    ensures Distinct(s) <==> forall x :: multiset(s)[x] <= 1
  {
    if s != [] {
      assert s == [s[0]] + s[1..];
      DistinctIffNoRepeats(s[1..]);
      if Distinct(s) {
        assert s[0] !in s[1..] by {
          forall j | 0 <= j < |s[1..]| ensures s[1..][j] != s[0] { assert s[1..][j] == s[j + 1]; }
        }
        assert Distinct(s[1..]) by {
          forall i, j | 0 <= i < j < |s[1..]| ensures s[1..][i] != s[1..][j] {
            assert s[1..][i] == s[i + 1] && s[1..][j] == s[j + 1];
          }
        }
      }
      if forall x :: multiset(s)[x] <= 1 {
        assert forall x :: multiset(s[1..])[x] <= 1 by {
          forall x ensures multiset(s[1..])[x] <= 1 {
            assert multiset(s)[x] == multiset{s[0]}[x] + multiset(s[1..])[x];
          }
        }
        assert multiset(s)[s[0]] == 1 + multiset(s[1..])[s[0]];
        assert s[0] !in multiset(s[1..]);
        forall i, j | 0 <= i < j < |s| ensures s[i] != s[j] {
          if i == 0 {
            assert s[j] == s[1..][j - 1];
          } else {
            assert s[i] == s[1..][i - 1] && s[j] == s[1..][j - 1];
          }
        }
      }
    }
  }

  function NewCoupon(code: string, pid: nat): Coupon {
    Coupon(code, false, None, None, pid)
  }

  function NewCoupons(codes: seq<string>, pid: nat): (r: seq<Coupon>)
    ensures |r| == |codes|
    ensures forall i :: 0 <= i < |codes| ==> r[i] == NewCoupon(codes[i], pid)
  {
    seq(|codes|, i requires 0 <= i < |codes| => NewCoupon(codes[i], pid))
  }

  lemma AppendPreservesUniqueCodes(cs: seq<Coupon>, incoming: seq<string>, pid: nat)
    requires UniqueCodes(cs) && Distinct(incoming)
    requires forall c, x :: c in cs && x in incoming ==> c.code != x
    ensures UniqueCodes(cs + NewCoupons(incoming, pid))
  {
    var r := cs + NewCoupons(incoming, pid);
    forall i, j | 0 <= i < j < |r| ensures r[i].code != r[j].code {
      if j >= |cs| {
        assert r[j].code == incoming[j - |cs|] && incoming[j - |cs|] in incoming;
        if i >= |cs| {
          assert r[i].code == incoming[i - |cs|];
        } else {
          assert r[i] == cs[i] && cs[i] in cs;
        }
      } else {
        assert r[i] == cs[i] && r[j] == cs[j];
      }
    }
  }

  /** What the comprehension keeps: a code of the batch that no stored coupon
      has; and the commit fails exactly when such a code occurs twice. */
  lemma NewCodesFacts(cs: seq<Coupon>, codes: seq<string>)
    ensures var incoming := NewCodes(codes, StoredCodes(cs, codes));
      && (forall x :: x in incoming <==> x in codes && forall c :: c in cs ==> c.code != x)
      && (!Distinct(incoming) <==> exists x :: multiset(codes)[x] >= 2 && forall c :: c in cs ==> c.code != x)
  {
    var existing := StoredCodes(cs, codes);
    var incoming := NewCodes(codes, existing);
    forall x ensures x in incoming <==> x in codes && x !in existing {
      assert x in incoming <==> x in multiset(incoming);
      assert x in codes <==> x in multiset(codes);
    }
    assert forall x :: x in existing <==> x in codes && exists c :: c in cs && c.code == x;
    DistinctIffNoRepeats(incoming);
    if !Distinct(incoming) {
      var x :| multiset(incoming)[x] > 1;
      assert x in codes by { assert x in multiset(codes); }
    }
    if exists x :: multiset(codes)[x] >= 2 && forall c :: c in cs ==> c.code != x {
      var x :| multiset(codes)[x] >= 2 && forall c :: c in cs ==> c.code != x;
      assert x !in existing;
    }
  }

  /** Each new row is an unclaimed coupon of the project for a batch code,
      and each batch code has its row. */
  lemma NewCouponsMembers(incoming: seq<string>, pid: nat)
    ensures forall c :: c in NewCoupons(incoming, pid) ==> c == NewCoupon(c.code, pid) && c.code in incoming
    ensures forall x :: x in incoming ==> exists c :: c in NewCoupons(incoming, pid) && c.code == x
  {
    var added := NewCoupons(incoming, pid);
    forall c | c in added ensures c == NewCoupon(c.code, pid) && c.code in incoming {
      var i :| 0 <= i < |added| && added[i] == c;
      assert incoming[i] in incoming;
    }
    forall x | x in incoming ensures exists c :: c in added && c.code == x {
      var i :| 0 <= i < |incoming| && incoming[i] == x;
      assert added[i] in added;
    }
  }

  /** What appending the new rows does to the coupon table. */
  lemma AppendFacts(s: Store, incoming: seq<string>, pid: nat)
    requires Distinct(incoming)
    requires forall x, c :: x in incoming && c in s.coupons ==> c.code != x
    requires pid in ProjectIds(s.projects)
    ensures var cs := s.coupons + NewCoupons(incoming, pid);
      var added := cs[|s.coupons|..];
      && added == NewCoupons(incoming, pid)
      && cs[..|s.coupons|] == s.coupons
      && (forall c :: c in added ==> c == NewCoupon(c.code, pid) && c.code in incoming)
      && (forall x :: x in incoming ==> exists c :: c in added && c.code == x)
      && (WellFormed(s) ==> WellFormed(s.(coupons := cs)))
  {
    var added := NewCoupons(incoming, pid);
    var cs := s.coupons + added;
    assert cs[|s.coupons|..] == added;
    assert cs[..|s.coupons|] == s.coupons;
    NewCouponsMembers(incoming, pid);
    if WellFormed(s) {
      AppendPreservesUniqueCodes(s.coupons, incoming, pid);
      forall c | c in cs ensures c.projectId in ProjectIds(s.projects) && ClaimConsistent(c) {
        if c !in s.coupons { assert c in added; }
      }
    }
  }

  /** `add_coupons` (database.py:166-185). */
  function AddCoupons(s: Store, name: string, codes: seq<string>): (r: (AddOutcome, Store))
    ensures r.0.ProjectMissing? <==> FindProject(s.projects, name).None?
    ensures r.0.UniqueViolation? <==> (FindProject(s.projects, name).Some? &&
      exists x :: multiset(codes)[x] >= 2 && forall c :: c in s.coupons ==> c.code != x)
    ensures !r.0.Inserted? ==> r.1 == s
    ensures r.1.projects == s.projects && r.1.bans == s.bans && r.1.nextProjectId == s.nextProjectId
    ensures WellFormed(s) ==> WellFormed(r.1)
  {
    match FindProject(s.projects, name)
    case None => (ProjectMissing, s)
    case Some(p) =>
      var incoming := NewCodes(codes, StoredCodes(s.coupons, codes));
      NewCodesFacts(s.coupons, codes);
      if incoming == [] then (Inserted(0, |codes|), s)
      else if !Distinct(incoming) then (UniqueViolation, s)
      else
        assert p.id in ProjectIds(s.projects);
        AppendFacts(s, incoming, p.id);
        (Inserted(|incoming|, |codes| - |incoming|), s.(coupons := s.coupons + NewCoupons(incoming, p.id)))
  }

  /** What a successful `add_coupons` inserts: the old rows stay, and the
      new rows are fresh coupons of the project, one for each batch code not
      yet stored, while the stored ones are counted as duplicates. */
  lemma AddCouponsInserted(s: Store, name: string, codes: seq<string>)
    requires AddCoupons(s, name, codes).0.Inserted?
    ensures var r := AddCoupons(s, name, codes);
      |r.1.coupons| == |s.coupons| + r.0.inserted
    ensures var r := AddCoupons(s, name, codes);
      var pid := FindProject(s.projects, name).value.id;
      var added := r.1.coupons[|s.coupons|..];
      && r.0.inserted + r.0.duplicates == |codes|
      && r.1.coupons[..|s.coupons|] == s.coupons
      && (forall c :: c in added ==> c == NewCoupon(c.code, pid) && c.code in codes)
      && (forall c, d :: c in added && d in s.coupons ==> c.code != d.code)
      && (forall x :: x in codes && (forall d :: d in s.coupons ==> d.code != x) ==>
            exists c :: c in added && c.code == x)
  {
    var p := FindProject(s.projects, name).value;
    var incoming := NewCodes(codes, StoredCodes(s.coupons, codes));
    NewCodesFacts(s.coupons, codes);
    if incoming != [] {
      assert p.id in ProjectIds(s.projects);
      AppendFacts(s, incoming, p.id);
    }
  }

  /** A batch that repeats a code not yet stored is refused as a whole,
      including the codes that could have been inserted on their own. */
  lemma RepeatedCodeInBatchRejected(p: Project)
    ensures var s := Store([p], [], [], p.id + 1);
      AddCoupons(s, p.name, ["A", "B", "A"]) == (UniqueViolation, s)
  {
    var s := Store([p], [], [], p.id + 1);
    assert multiset(["A", "B", "A"])["A"] == 2;
  }

  /** A code already stored counts as a duplicate and the rest of the batch
      is inserted. */
  lemma StoredCodeCountedAsDuplicate(p: Project)
    ensures var s := Store([p], [NewCoupon("A", p.id)], [], p.id + 1);
      AddCoupons(s, p.name, ["A", "C"]) == (Inserted(1, 1), s.(coupons := s.coupons + [NewCoupon("C", p.id)]))
  {
    var s := Store([p], [NewCoupon("A", p.id)], [], p.id + 1);
    assert FindProject(s.projects, p.name) == Some(p);
    assert StoredCodes(s.coupons, ["A", "C"]) == {"A"};
    OnlyUnstoredCodeIsNew();
    assert Distinct(["C"]);
    assert NewCoupons(["C"], p.id) == [NewCoupon("C", p.id)];
  }

  lemma OnlyUnstoredCodeIsNew()
    ensures NewCodes(["A", "C"], {"A"}) == ["C"]
  {
    assert ["A", "C"][1..] == ["C"] && ["C"][1..] == [];
    assert NewCodes(["C"], {"A"}) == ["C"] + NewCodes([], {"A"}) == ["C"];
  }

  /** Adding coupons raises the target project's stock by the number
      inserted, and leaves every other project's stock as it was. */
  lemma AddCouponsStock(s: Store, name: string, codes: seq<string>, pid: nat)
    requires AddCoupons(s, name, codes).0.Inserted?
    ensures var r := AddCoupons(s, name, codes);
      CountClaimable(r.1.coupons, pid) ==
        CountClaimable(s.coupons, pid) + (if pid == FindProject(s.projects, name).value.id then r.0.inserted else 0)
  {
    var r := AddCoupons(s, name, codes);
    AddCouponsInserted(s, name, codes);
    var added := r.1.coupons[|s.coupons|..];
    assert r.1.coupons == s.coupons + added;
    CountClaimableAppend(s.coupons, added, pid);
    AllNewCount(added, FindProject(s.projects, name).value.id, pid);
  }

  lemma {:induction false} AllNewCount(cs: seq<Coupon>, owner: nat, pid: nat)
    requires forall c :: c in cs ==> c == NewCoupon(c.code, owner)
    ensures CountClaimable(cs, pid) == if pid == owner then |cs| else 0
  {
    if cs != [] {
      assert cs[0] in cs;
      assert forall c :: c in cs[1..] ==> c in cs;
      AllNewCount(cs[1..], owner, pid);
    }
  }
}
