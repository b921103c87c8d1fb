/** The claim transaction of `claim_coupon` (database.py:200-257) as a pure
    transition of the ledger, and what it guarantees: the fixed order of its
    checks, the rule for which bans block, the cooldown arithmetic, and that
    only a successful claim writes, and then a single coupon. */
module Claim {
  import opened Options
  import opened Ledger

  const SecondsPerMinute: int := 60

  /** The tagged outcome of a claim (the first element of the pair the
      source returns; its second element is carried by the tag). */
  datatype ClaimResult =
    | NoProject
    | Banned(reason: string)
    | Disabled
    | Cooldown(hours: int, minutes: int, lastCode: string)
    | NoStock
    | Success(code: string)

  /** A ban row that the query of database.py:210-213 fetches: the user's,
      global or scoped to this project. */
  predicate BanApplies(b: Ban, user: int, pid: nat) {
    b.userId == user && (b.projectId.None? || b.projectId == Some(pid))
  }

  /** The test of database.py:216: permanent, or ending strictly after now. */
  predicate BanActive(b: Ban, now: int) {
    b.bannedUntil.None? || b.bannedUntil.value > now
  }

  /** The rows the ban query returns; the model keeps table order. */
  function BansFor(bs: seq<Ban>, user: int, pid: nat): (r: seq<Ban>)
    ensures forall b :: b in r <==> b in bs && BanApplies(b, user, pid)
  {
    if bs == [] then []
    else
      assert bs == [bs[0]] + bs[1..];
      (if BanApplies(bs[0], user, pid) then [bs[0]] else []) + BansFor(bs[1..], user, pid)
  }

  /** The position of the first active ban, which the loop of
      database.py:215-217 reports. */
  function FirstActive(bs: seq<Ban>, now: int): (r: Option<nat>)
    ensures r.Some? ==> r.value < |bs| && BanActive(bs[r.value], now)
    ensures r.Some? ==> forall j :: 0 <= j < r.value ==> !BanActive(bs[j], now)
    ensures r.None? <==> forall b :: b in bs ==> !BanActive(b, now)
  {
    if bs == [] then None
    else if BanActive(bs[0], now) then Some(0)
    else
      assert forall b :: b in bs <==> b == bs[0] || b in bs[1..];
      match FirstActive(bs[1..], now)
      case None => None
      case Some(i) => Some(i + 1)
  }

  /** A coupon the user claimed in this project, with a claim time. */
  predicate ClaimedBy(c: Coupon, user: int, pid: nat) {
    c.claimedBy == Some(user) && c.projectId == pid && c.claimedAt.Some?
  }

  /** The query of database.py:222-224: the user's claim in this project with
      the latest `claimed_at` (rows without a time sort last, and the source
      then skips the cooldown test, as here).  Among equal times the source
      leaves the row unspecified; the model takes the first. */
  function LatestClaim(cs: seq<Coupon>, user: int, pid: nat): (r: Option<nat>)
    ensures r.Some? ==> r.value < |cs| && ClaimedBy(cs[r.value], user, pid)
    ensures r.Some? ==> forall j :: 0 <= j < |cs| && ClaimedBy(cs[j], user, pid) ==>
      cs[j].claimedAt.value <= cs[r.value].claimedAt.value
    ensures r.None? <==> forall c :: c in cs ==> !ClaimedBy(c, user, pid)
  {
    if cs == [] then None
    else
      assert forall c :: c in cs <==> c == cs[0] || c in cs[1..];
      match LatestClaim(cs[1..], user, pid)
      case None => if ClaimedBy(cs[0], user, pid) then Some(0) else None
      case Some(k) =>
        if ClaimedBy(cs[0], user, pid) && cs[0].claimedAt.value >= cs[k + 1].claimedAt.value then Some(0)
        else Some(k + 1)
  }

  /** The query of database.py:239-245: an unclaimed coupon of the project.
      `limit(1)` without an order; the model takes the first in table order. */
  function FirstClaimable(cs: seq<Coupon>, pid: nat): (r: Option<nat>)
    ensures r.Some? ==> r.value < |cs| && Claimable(cs[r.value], pid)
    ensures r.Some? ==> forall j :: 0 <= j < r.value ==> !Claimable(cs[j], pid)
    ensures r.None? <==> forall c :: c in cs ==> !Claimable(c, pid)
  {
    if cs == [] then None
    else if Claimable(cs[0], pid) then Some(0)
    else
      assert forall c :: c in cs <==> c == cs[0] || c in cs[1..];
      match FirstClaimable(cs[1..], pid)
      case None => None
      case Some(i) => Some(i + 1)
  }

  /** `claimed_at + timedelta(hours=claim_cooldown_hours)` (database.py:227). */
  function CooldownEnd(c: Coupon, p: Project): (t: int)
    requires c.claimedAt.Some?
    ensures p.claimCooldownHours >= 0 ==> t >= c.claimedAt.value
    ensures t - c.claimedAt.value == p.claimCooldownHours * SecondsPerHour
  {
    c.claimedAt.value + p.claimCooldownHours * SecondsPerHour
  }

  /** The hours and minutes reported for a positive remaining time in
      seconds (database.py:229-231): whole hours, then the whole minutes of
      what is left; the leftover seconds are dropped. */
  function Remaining(rem: int): (r: (int, int))
    requires rem > 0
    ensures r.0 >= 0 && 0 <= r.1 < 60
    ensures r.0 * SecondsPerHour + r.1 * SecondsPerMinute <= rem < r.0 * SecondsPerHour + r.1 * SecondsPerMinute + SecondsPerMinute
  {
    (rem / SecondsPerHour, (rem % SecondsPerHour) / SecondsPerMinute)
  }

  /** The three field writes of database.py:250-252. */
  function MarkClaimed(c: Coupon, user: int, now: int): (r: Coupon)
    ensures r.code == c.code && r.projectId == c.projectId
    ensures ClaimConsistent(r) && ClaimedBy(r, user, c.projectId) && r.claimedAt == Some(now)
    ensures !Claimable(r, c.projectId)
  {
    c.(isClaimed := true, claimedBy := Some(user), claimedAt := Some(now))
  }

  /** The whole transaction: each check in the source's order, the first that
      applies decides, and only the last step changes the store. */
  function Claim(s: Store, user: int, name: string, now: int): (r: (ClaimResult, Store))
    ensures r.1.projects == s.projects && r.1.bans == s.bans && r.1.nextProjectId == s.nextProjectId
    ensures !r.0.Success? ==> r.1 == s
    ensures r.0.Success? ==> |r.1.coupons| == |s.coupons|
  {
    match FindProject(s.projects, name)
    case None => (NoProject, s)
    case Some(p) =>
      var candidates := BansFor(s.bans, user, p.id);
      match FirstActive(candidates, now)
      case Some(i) => (Banned(candidates[i].reason), s)
      case None =>
        if !p.isClaimActive then (Disabled, s)
        else
          var last := LatestClaim(s.coupons, user, p.id);
          if last.Some? && now < CooldownEnd(s.coupons[last.value], p) then
            var hm := Remaining(CooldownEnd(s.coupons[last.value], p) - now);
            (Cooldown(hm.0, hm.1, s.coupons[last.value].code), s)
          else
            match FirstClaimable(s.coupons, p.id)
            case None => (NoStock, s)
            case Some(k) =>
              (Success(s.coupons[k].code), s.(coupons := s.coupons[k := MarkClaimed(s.coupons[k], user, now)]))
  }

  // ---------------------------------------------------------------------
  // The conditions, stated independently of the queries
  // ---------------------------------------------------------------------

  /** Some ban of the user, global or on this project, is still in force. */
  predicate Blocked(bs: seq<Ban>, user: int, pid: nat, now: int) {
    exists b :: b in bs && BanApplies(b, user, pid) && BanActive(b, now)
  }

  /** Some claim of the user in this project ends its cooldown after now. */
  predicate InCooldown(cs: seq<Coupon>, user: int, p: Project, now: int) {
    exists c :: c in cs && ClaimedBy(c, user, p.id) && now < CooldownEnd(c, p)
  }

  predicate HasStock(cs: seq<Coupon>, pid: nat) {
    exists c :: c in cs && Claimable(c, pid)
  }

  lemma BlockedIffFirstActive(bs: seq<Ban>, user: int, pid: nat, now: int)
    ensures Blocked(bs, user, pid, now) <==> FirstActive(BansFor(bs, user, pid), now).Some?
  {
    var candidates := BansFor(bs, user, pid);
    if FirstActive(candidates, now).Some? {
      assert candidates[FirstActive(candidates, now).value] in candidates;
    }
  }

  lemma InCooldownIffLatest(cs: seq<Coupon>, user: int, p: Project, now: int)
    ensures var last := LatestClaim(cs, user, p.id);
      InCooldown(cs, user, p, now) <==> last.Some? && now < CooldownEnd(cs[last.value], p)
  {
    var last := LatestClaim(cs, user, p.id);
    if InCooldown(cs, user, p, now) {
      var c :| c in cs && ClaimedBy(c, user, p.id) && now < CooldownEnd(c, p);
      var j :| 0 <= j < |cs| && cs[j] == c;
    }
    if last.Some? && now < CooldownEnd(cs[last.value], p) {
      assert cs[last.value] in cs;
    }
  }

  /** The checks run first-match-wins in the order NO_PROJECT, BANNED,
      DISABLED, COOLDOWN, NO_STOCK, SUCCESS: each outcome happens exactly when
      its own condition holds and none of the earlier ones does. */
  lemma ClaimCheckOrder(s: Store, user: int, name: string, now: int)
    ensures var r := Claim(s, user, name, now).0;
      r.NoProject? <==> forall p :: p in s.projects ==> p.name != name
    ensures FindProject(s.projects, name).Some? ==>
      var r := Claim(s, user, name, now).0;
      var p := FindProject(s.projects, name).value;
      && (r.Banned? <==> Blocked(s.bans, user, p.id, now))
      && (r.Disabled? <==> !Blocked(s.bans, user, p.id, now) && !p.isClaimActive)
      && (r.Cooldown? <==> !Blocked(s.bans, user, p.id, now) && p.isClaimActive
                           && InCooldown(s.coupons, user, p, now))
      && (r.NoStock? <==> !Blocked(s.bans, user, p.id, now) && p.isClaimActive
                          && !InCooldown(s.coupons, user, p, now) && !HasStock(s.coupons, p.id))
      && (r.Success? <==> !Blocked(s.bans, user, p.id, now) && p.isClaimActive
                          && !InCooldown(s.coupons, user, p, now) && HasStock(s.coupons, p.id))
  {
    if FindProject(s.projects, name).Some? {
      var p := FindProject(s.projects, name).value;
      BlockedIffFirstActive(s.bans, user, p.id, now);
      InCooldownIffLatest(s.coupons, user, p, now);
      if FirstClaimable(s.coupons, p.id).Some? {
        assert s.coupons[FirstClaimable(s.coupons, p.id).value] in s.coupons;
      }
    }
  }

  /** The reason reported is that of a ban that applies and is in force. */
  lemma BannedReason(s: Store, user: int, name: string, now: int)
    requires Claim(s, user, name, now).0.Banned?
    ensures exists b :: (b in s.bans && BanApplies(b, user, FindProject(s.projects, name).value.id)
      && BanActive(b, now) && b.reason == Claim(s, user, name, now).0.reason)
  {
    var p := FindProject(s.projects, name).value;
    var candidates := BansFor(s.bans, user, p.id);
    var i := FirstActive(candidates, now).value;
    assert candidates[i] in candidates;
  }

  /** A cooldown reports the code of the user's latest claim in the project,
      and the hours and minutes left until that claim's cooldown ends. */
  lemma CooldownReport(s: Store, user: int, name: string, now: int)
    requires Claim(s, user, name, now).0.Cooldown?
    ensures var r := Claim(s, user, name, now).0;
      var p := FindProject(s.projects, name).value;
      exists c :: c in s.coupons && ClaimedBy(c, user, p.id) && c.code == r.lastCode
        && (forall d :: d in s.coupons && ClaimedBy(d, user, p.id) ==> d.claimedAt.value <= c.claimedAt.value)
        && 0 <= r.minutes < 60 && 0 <= r.hours
        && r.hours * SecondsPerHour + r.minutes * SecondsPerMinute <= CooldownEnd(c, p) - now
        && CooldownEnd(c, p) - now < r.hours * SecondsPerHour + r.minutes * SecondsPerMinute + SecondsPerMinute
  {
    var p := FindProject(s.projects, name).value;
    var k := LatestClaim(s.coupons, user, p.id).value;
    var c := s.coupons[k];
    forall d | d in s.coupons && ClaimedBy(d, user, p.id) ensures d.claimedAt.value <= c.claimedAt.value {
      var j :| 0 <= j < |s.coupons| && s.coupons[j] == d;
    }
  }

  /** Only SUCCESS writes, and then it marks one previously unclaimed coupon
      of the project as claimed by the user at `now`, returns its code, and
      leaves every other row as it was. */
  lemma ClaimEffect(s: Store, user: int, name: string, now: int)
    ensures var (r, s') := Claim(s, user, name, now);
      && s'.projects == s.projects && s'.bans == s.bans && s'.nextProjectId == s.nextProjectId
      && (!r.Success? ==> s' == s)
      && (r.Success? ==> exists k :: (0 <= k < |s.coupons|
            && Claimable(s.coupons[k], FindProject(s.projects, name).value.id)
            && s.coupons[k].code == r.code
            && |s'.coupons| == |s.coupons|
            && s'.coupons[k] == MarkClaimed(s.coupons[k], user, now)
            && forall j :: 0 <= j < |s.coupons| && j != k ==> s'.coupons[j] == s.coupons[j]))
  {
    var (r, s') := Claim(s, user, name, now);
    if r.Success? {
      var p := FindProject(s.projects, name).value;
      var k := FirstClaimable(s.coupons, p.id).value;
      assert s'.coupons == s.coupons[k := MarkClaimed(s.coupons[k], user, now)];
    }
  }

  lemma {:induction false} CountAfterUpdate(cs: seq<Coupon>, k: nat, c: Coupon, pid: nat)
    requires k < |cs|
    ensures CountClaimable(cs[k := c], pid) + (if Claimable(cs[k], pid) then 1 else 0)
         == CountClaimable(cs, pid) + (if Claimable(c, pid) then 1 else 0)
  {
    if k == 0 {
      assert cs[k := c][1..] == cs[1..];
    } else {
      assert cs[k := c][1..] == cs[1..][k - 1 := c];
      CountAfterUpdate(cs[1..], k - 1, c, pid);
    }
  }

  /** A successful claim lowers the project's stock by exactly one and leaves
      every other project's stock unchanged. */
  lemma ClaimStock(s: Store, user: int, name: string, now: int, pid: nat)
    requires Claim(s, user, name, now).0.Success?
    ensures var s' := Claim(s, user, name, now).1;
      CountClaimable(s'.coupons, pid) ==
        CountClaimable(s.coupons, pid) - (if pid == FindProject(s.projects, name).value.id then 1 else 0)
  {
    var p := FindProject(s.projects, name).value;
    var k := FirstClaimable(s.coupons, p.id).value;
    CountAfterUpdate(s.coupons, k, MarkClaimed(s.coupons[k], user, now), pid);
  }

  /** The claim keeps the store well formed. */
  lemma ClaimPreservesWellFormed(s: Store, user: int, name: string, now: int)
    requires WellFormed(s)
    ensures WellFormed(Claim(s, user, name, now).1)
  {
    var (r, s') := Claim(s, user, name, now);
    if r.Success? {
      ClaimEffect(s, user, name, now);
      var p := FindProject(s.projects, name).value;
      var k := FirstClaimable(s.coupons, p.id).value;
      assert s.coupons[k] in s.coupons;
      forall c | c in s'.coupons ensures c.projectId in ProjectIds(s'.projects) && ClaimConsistent(c) {
        var j :| 0 <= j < |s'.coupons| && s'.coupons[j] == c;
        if j != k { assert s.coupons[j] in s.coupons; }
      }
      assert UniqueCodes(s'.coupons) by {
        forall i, j | 0 <= i < j < |s'.coupons| ensures s'.coupons[i].code != s'.coupons[j].code {
          assert s'.coupons[i].code == s.coupons[i].code && s'.coupons[j].code == s.coupons[j].code;
        }
      }
    }
  }

  /** A whole number of hours is reported as that many hours and no minutes. */
  lemma RemainingWholeHours(h: int)
    requires h > 0
    ensures Remaining(h * SecondsPerHour) == (h, 0)
  {
    var r := Remaining(h * SecondsPerHour);
    assert r.0 * SecondsPerHour <= h * SecondsPerHour < r.0 * SecondsPerHour + SecondsPerHour;
  }

  /** A claim made at `now`, when none of the user's other claims is still
      cooling down, is the user's latest one. */
  lemma NewestClaimIsLatest(cs: seq<Coupon>, k: nat, user: int, p: Project, now: int)
    requires k < |cs| && ClaimedBy(cs[k], user, p.id) && cs[k].claimedAt == Some(now)
    requires p.claimCooldownHours > 0
    requires forall j :: 0 <= j < |cs| && j != k && ClaimedBy(cs[j], user, p.id) ==> now >= CooldownEnd(cs[j], p)
    ensures LatestClaim(cs, user, p.id) == Some(k)
  {
    assert cs[k] in cs;
    var m := LatestClaim(cs, user, p.id).value;
    assert cs[k].claimedAt.value <= cs[m].claimedAt.value;
  }

  /** With a positive cooldown, claiming again at the same moment reports
      COOLDOWN with the code just handed out and the full cooldown left. */
  lemma RepeatClaimCoolsDown(s: Store, user: int, name: string, now: int)
    requires Claim(s, user, name, now).0.Success?
    requires FindProject(s.projects, name).value.claimCooldownHours > 0
    ensures var (r, s') := Claim(s, user, name, now);
      var h := FindProject(s.projects, name).value.claimCooldownHours;
      Claim(s', user, name, now).0 == Cooldown(h, 0, r.code)
  {
    var (r, s') := Claim(s, user, name, now);
    var p := FindProject(s.projects, name).value;
    var k := FirstClaimable(s.coupons, p.id).value;
    assert s'.coupons == s.coupons[k := MarkClaimed(s.coupons[k], user, now)];
    ClaimCheckOrder(s, user, name, now);
    forall j | 0 <= j < |s'.coupons| && j != k && ClaimedBy(s'.coupons[j], user, p.id)
      ensures now >= CooldownEnd(s'.coupons[j], p)
    {
      assert s.coupons[j] in s.coupons;
    }
    NewestClaimIsLatest(s'.coupons, k, user, p, now);
    RemainingWholeHours(p.claimCooldownHours);
  }

  /** Once the cooldown of a successful claim has run out, the same user's
      next claim is no longer blocked: it succeeds, or finds no stock. */
  lemma ClaimAfterCooldown(s: Store, user: int, name: string, t: int, later: int)
    requires Claim(s, user, name, t).0.Success?
    requires t <= later
    requires t + FindProject(s.projects, name).value.claimCooldownHours * SecondsPerHour <= later
    ensures var s' := Claim(s, user, name, t).1;
      Claim(s', user, name, later).0.Success? || Claim(s', user, name, later).0.NoStock?
  {
    var s' := Claim(s, user, name, t).1;
    var p := FindProject(s.projects, name).value;
    var k := FirstClaimable(s.coupons, p.id).value;
    ClaimCheckOrder(s, user, name, t);
    ClaimCheckOrder(s', user, name, later);
    assert !Blocked(s'.bans, user, p.id, later);
    assert !InCooldown(s'.coupons, user, p, later) by {
      forall c | c in s'.coupons && ClaimedBy(c, user, p.id) ensures later >= CooldownEnd(c, p) {
        var j :| 0 <= j < |s'.coupons| && s'.coupons[j] == c;
        if j != k { assert s.coupons[j] in s.coupons; }
      }
    }
  }

  /** No coupon is handed out twice: two successive successful claims, by any
      users on any projects, return different codes. */
  lemma NoDoubleIssuance(s: Store, u1: int, n1: string, t1: int, u2: int, n2: string, t2: int)
    requires UniqueCodes(s.coupons)
    requires Claim(s, u1, n1, t1).0.Success?
    requires Claim(Claim(s, u1, n1, t1).1, u2, n2, t2).0.Success?
    ensures Claim(s, u1, n1, t1).0.code != Claim(Claim(s, u1, n1, t1).1, u2, n2, t2).0.code
  {
    var s1 := Claim(s, u1, n1, t1).1;
    var p1 := FindProject(s.projects, n1).value;
    var k1 := FirstClaimable(s.coupons, p1.id).value;
    var p2 := FindProject(s1.projects, n2).value;
    var k2 := FirstClaimable(s1.coupons, p2.id).value;
    assert s1.coupons[k1].isClaimed;
    assert k1 != k2;
    assert s1.coupons[k2].code == s.coupons[k2].code;
  }
}
