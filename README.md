# Coupon distribution bot: a Dafny model of its ledger

The bot hands out coupon codes, one per user per cooldown period, for
named projects. Its core is the `DatabaseManager` of `database.py`, which
keeps three tables:

- **projects**: a unique name, a claim switch and a cooldown in hours;
- **coupons**: a code that is unique across all projects, a claimed flag
  and who claimed it when;
- **bans**: per user, either global or scoped to one project, permanent
  or ending at a time.

On top of the manager sit:

- the autocompleter and administrator check of `utils.py`;
- the bot's own autocompleter, its guild filter and its project-name cache
  in `bot.py`.

The model has these layers:

- `Ledger` (ledger.dfy) holds the three tables as one value, `Store`. Each
  manager operation is a pure function from a store to a result and a new
  store. `WellFormed` combines two kinds of fact. The first are the
  constraints the schema declares: unique project names, ids and codes,
  the foreign keys, and one scoped ban per (user, project). The second are
  invariants only the operations keep: one global ban per user (the
  database would accept two rows with a null project, and only the upsert
  of `ban_user` prevents them), claim columns that agree with each other
  (the defaults and the writes of `claim_coupon`), and ids below the next
  project id. Every operation preserves `WellFormed`, provided the
  database enforces the declared foreign keys (see "Left out").
- `Claim` (claim.dfy) models the claim transaction. Its checks run in the
  order of the source: project, ban, switch, cooldown, stock. The lemmas
  show:
  - each outcome happens exactly when its declarative condition holds;
  - a success changes one coupon and lowers the stock by one;
  - a repeat claim is held back for the whole cooldown;
  - two successive successful claims return different codes. This is
    not a lifetime guarantee: once a project is deleted its codes leave
    the store, so a new project may add the same codes and hand them out
    again.
- `Database` (database.dfy) is the `DatabaseManager` class. Its fields
  are the three tables. Each method updates them step by step and is
  proved to end in the state the `Ledger` or `Claim` function describes,
  with the invariant `Valid` kept.
- `LexOrder` (lexorder.dfy) is the byte-wise string order that
  `ORDER BY name` uses, together with an insertion sort proved sorted and
  a permutation.
- `Utils` (utils.dfy) and `Bot` (bot.dfy) model the autocompleters, the
  administrator predicate, the guild check and the cache refresh. `Bot`'s
  `CouponBot` is a class whose cache field the refresh reassigns.

Timestamps are whole seconds. The caller supplies the current time as a
parameter `now`, and one hour is 3600 seconds. A table's rows are a
sequence in insertion order. A query with `limit(1)` and no `ORDER BY`
returns the lowest-positioned matching row.

Two consequences of the code are worth stating:

- **Repeated codes in one batch.** The comprehension at database.py:176-179
  filters the batch only against codes already stored. A code that is
  repeated within the batch is inserted twice. The commit then breaks the
  unique constraint of database.py:41, and the error is not caught. The
  model returns `UniqueViolation` with no change, so `["A","B","A"]`
  inserts nothing (`Ledger.RepeatedCodeInBatchRejected`).
- **No expiry.** Coupons have no expiry column (database.py:38-46), so the
  stock counts unclaimed coupons only.

## Model

| member | source | states |
|---|---|---|
| LexOrder.Sort | database.py:82-85 | the result is sorted by `LexLe` and has the same names with the same multiplicities (`ORDER BY name`) |
| LexOrder.LexLeTotal | database.py:84 | any two names are ordered one way or the other, so `ORDER BY name` is defined on every pair |
| LexOrder.LexLeTransitive | database.py:84 | the name order is transitive |
| LexOrder.LexLeAntisymmetric | database.py:84 | two names ordered both ways are equal, so a sorted list of distinct names is strictly increasing |
| LexOrder.SortedDistinctIsStrict | database.py:84 | in a sorted list without repeats, an earlier name is strictly below a later one |
| Ledger.EmptyStoreWellFormed | database.py:62-64 | the freshly created, empty schema meets every integrity constraint |
| Ledger.WellFormed | database.py:29-56 | the declared constraints (unique project names, ids and coupon codes; every coupon and scoped ban pointing to an existing project; one scoped ban per user and project) together with invariants the operations keep (one global ban per user, claim columns set together, ids below the next project id) |
| Ledger.FindProject | database.py:77-80 | a found project is in the table and has that exact name; nothing is found exactly when no project has the name |
| Ledger.FindProjectUnique | database.py:32 | with unique names, the project that has the name is the one found |
| Ledger.ProjectNames | database.py:82-85 | the listed names are sorted and are exactly the projects' names |
| Ledger.Names | database.py:84 | the name column: one entry per project, in row order, each the name of the project at that position |
| Ledger.NameCount | database.py:32 | with unique names, each name occurs once in the name column if a project has it, otherwise not at all |
| Ledger.ProjectNamesListEachOnce | database.py:82-85 | in a well-formed store, every project name is listed exactly once and no other name is listed |
| Ledger.ProjectNamesStrictlyIncreasing | database.py:82-85 | in a well-formed store, the name listing is strictly increasing in byte order: each name is below every later one and none is listed twice |
| Ledger.CountClaimable | database.py:193-196 | the count of unclaimed coupons of a project is at most the number of rows, and is zero exactly when none is claimable |
| Ledger.CountClaimableAppend | database.py:193-196 | the count over two row sequences together is the sum of the counts |
| Ledger.GetStock | database.py:187-198 | no stock figure for an unknown project; otherwise a count bounded by the table size that is zero exactly when no coupon of the project is unclaimed |
| Ledger.CreateProject | database.py:66-75 | creation succeeds exactly when the name is free, and then adds a project with the defaults (claims on, 168 hours) that can be found by that name; a clash changes nothing; integrity is kept |
| Ledger.FindProjectAppend | database.py:69-71 | a new row with a free name is what a later lookup of that name finds |
| Ledger.CreatedProjectListedOnce | database.py:66-85 | after a successful creation the name is listed exactly once |
| Ledger.SetProjectSetting | database.py:87-97 | an unknown key changes nothing; otherwise it succeeds exactly when the project exists; only the named project's chosen column changes (id, name and the other column are kept); integrity is kept |
| Ledger.UpdateNamed | database.py:94 | rows with another name are unchanged; the named rows get the new value in the chosen column and keep the other column; ids and names stay |
| Ledger.WithoutProject | database.py:109 | a row remains exactly when its id differs from the deleted one; unique names and ids are kept |
| Ledger.CouponsNotOf | database.py:35 | the cascade removes exactly the project's coupons and keeps codes unique |
| Ledger.BansNotOf | database.py:36 | the cascade removes exactly the project's scoped bans and keeps one ban per (user, scope) |
| Ledger.DeleteProject | database.py:99-112 | deletion succeeds exactly when the project exists; then only its row, its coupons and its scoped bans go; a missing project changes nothing; integrity is kept and the name is no longer found |
| Ledger.BanUntil | database.py:125 | the ban is permanent exactly when the duration is absent or 0; otherwise it ends that many hours after now |
| Ledger.BanScope | database.py:117-122 | an absent, empty or "global" name gives the global scope; any other name gives the scope of a project with that name, or nothing exactly when no project has the name |
| Ledger.UnbanScope | database.py:149-154 | an absent or empty name gives the global scope; any other name, "global" included, gives the scope of a project with that name, or nothing exactly when no project has it |
| Ledger.FindBan | database.py:127-129 | a found row has that user and scope; nothing found means no row has them |
| Ledger.UpsertBan | database.py:131-138 | the new ban is present; rows of other (user, scope) keys are untouched; one row per key is kept, and the key's row is the new ban |
| Ledger.BanUser | database.py:115-145 | the ban succeeds exactly when the scope resolves (absent, empty or "global" means global); on success the ban table is the upsert; only the ban table changes; integrity is kept |
| Ledger.BanUserUpserts | database.py:115-145 | after a successful ban exactly one row holds the user and scope, with the given reason and end time, and rows of other keys are as before |
| Ledger.RemoveBans | database.py:156-161 | exactly the rows of that user and scope are removed; the row count drops exactly when such a row existed; one row per key is kept |
| Ledger.UnbanUser | database.py:147-164 | an unknown project refuses; otherwise it succeeds exactly when a matching ban existed and removes exactly those rows; only the ban table changes; integrity is kept |
| Ledger.GlobalNameAsymmetry | database.py:115-164 | with no project named "global", banning under that name bans globally, yet unbanning under it reports no project and changes nothing |
| Ledger.NewCodes | database.py:176-179 | the batch keeps each code not already stored, with its multiplicity, and drops every stored one |
| Ledger.StoredCodes | database.py:172-174 | exactly the batch codes that some stored coupon, of any project, already has |
| Ledger.DistinctIffNoRepeats | database.py:41 | a sequence has no two equal entries exactly when no entry occurs twice |
| Ledger.NewCoupons | database.py:177 | one new unclaimed coupon of the project for each code, in order |
| Ledger.AppendPreservesUniqueCodes | database.py:176-183 | appending distinct codes absent from the table keeps codes unique |
| Ledger.NewCodesFacts | database.py:172-179 | a code is new exactly when it is in the batch and not stored; the new codes repeat exactly when the batch repeats an unstored code |
| Ledger.AppendFacts | database.py:181-183 | appending the new coupons keeps the old rows, adds exactly one unclaimed coupon per new code and keeps integrity |
| Ledger.AddCoupons | database.py:166-185 | an unknown project is reported; a batch repeating an unstored code fails on the unique constraint; every outcome but an insertion leaves the store unchanged; only the coupon table changes; integrity is kept |
| Ledger.AddCouponsInserted | database.py:172-185 | on an insertion, inserted plus duplicates is the batch size, the old rows stay, the added rows are new unclaimed coupons of the project with batch codes absent from the table, and every unstored batch code is added |
| Ledger.RepeatedCodeInBatchRejected | database.py:176-183 | `["A","B","A"]` added to a project with no coupons fails on the unique constraint and inserts nothing |
| Ledger.StoredCodeCountedAsDuplicate | database.py:172-185 | with "A" stored, adding `["A","C"]` inserts only "C" and counts one duplicate |
| Ledger.AddCouponsStock | database.py:166-198 | a successful add raises the project's stock by the number inserted and leaves other projects' stock unchanged |
| Ledger.AllNewCount | database.py:177 | rows that are all new coupons of one project count fully as that project's stock and not at all for another |
| Claim.BansFor | database.py:210-213 | a candidate ban is one of the user's, either global or for this project |
| Claim.FirstActive | database.py:215-217 | the first candidate whose ban is permanent or ends after now, if any; none means no candidate is active |
| Claim.LatestClaim | database.py:222-225 | the user's claim in this project with the latest claim time, if there is one |
| Claim.FirstClaimable | database.py:239-247 | an unclaimed coupon of the project, the first in the table, if there is one |
| Claim.Remaining | database.py:229-231 | whole hours and whole minutes (under 60) of the remaining time, the dropped seconds under a minute |
| Claim.CooldownEnd | database.py:227 | the cooldown ends the project's cooldown hours, in seconds, after the claim time, and not before the claim for a non-negative cooldown |
| Claim.MarkClaimed | database.py:250-252 | the coupon keeps its code and project and becomes claimed by the user at now, with consistent claim columns, so it is no longer claimable |
| Claim.Claim | database.py:200-254 | the claim transaction never touches projects or bans; every outcome but a success leaves the store unchanged, and a success keeps the number of coupon rows |
| Claim.BlockedIffFirstActive | database.py:210-217 | the user is blocked for the project exactly when some applicable ban is active |
| Claim.InCooldownIffLatest | database.py:222-228 | the latest claim is still cooling down exactly when some claim of the user in the project is |
| Claim.ClaimCheckOrder | database.py:200-254 | each outcome (no project, banned, disabled, cooldown, no stock, success) happens exactly when the earlier checks pass and its own condition holds |
| Claim.BannedReason | database.py:215-217 | a banned outcome carries the reason of an active ban that applies to the user and project |
| Claim.CooldownReport | database.py:221-232 | a cooldown outcome names the code of the user's latest claim and reports the time left to the minute |
| Claim.ClaimEffect | database.py:200-254 | only a success writes: one unclaimed coupon of the project, whose code is returned, becomes claimed by the user at now; every other row is kept |
| Claim.CountAfterUpdate | database.py:250-252 | overwriting one coupon changes the project's count by what that row contributed before and after |
| Claim.ClaimStock | database.py:200-254 | a success lowers the claimed project's stock by one and leaves other projects' stock unchanged |
| Claim.ClaimPreservesWellFormed | database.py:250-253 | the claim transaction keeps every integrity constraint |
| Claim.RemainingWholeHours | database.py:229-231 | a remaining time of a whole number of hours is reported as those hours and 0 minutes |
| Claim.NewestClaimIsLatest | database.py:222-225 | a claim made now, when no other claim of the user is still cooling down, is the one the latest-claim query returns |
| Claim.RepeatClaimCoolsDown | database.py:221-232 | right after a success, the same user's claim at the same time is a cooldown of the full period, naming the code just issued |
| Claim.ClaimAfterCooldown | database.py:221-254 | once the cooldown has elapsed, the user's next claim either succeeds or finds no stock |
| Claim.NoDoubleIssuance | database.py:239-254 | two successive successful claims return different codes |
| Database.DatabaseManager.constructor | database.py:59-64 | the manager starts with empty, well-formed tables |
| Database.DatabaseManager.CreateProject | database.py:66-75 | the result and new tables are those of `Ledger.CreateProject`, and the invariant is kept |
| Database.DatabaseManager.SetProjectSetting | database.py:87-97 | the result and new tables are those of `Ledger.SetProjectSetting`, and the invariant is kept |
| Database.DatabaseManager.DeleteProject | database.py:99-112 | the result and new tables are those of `Ledger.DeleteProject`, and the invariant is kept |
| Database.DatabaseManager.BanUser | database.py:115-145 | the result and new tables are those of `Ledger.BanUser`, and the invariant is kept |
| Database.DatabaseManager.UnbanUser | database.py:147-164 | the result and new tables are those of `Ledger.UnbanUser`, and the invariant is kept |
| Database.DatabaseManager.AddCoupons | database.py:166-185 | the outcome and new tables are those of `Ledger.AddCoupons`, and the invariant is kept |
| Database.DatabaseManager.ClaimCoupon | database.py:200-257 | the outcome and new tables are those of `Claim.Claim`, and the invariant is kept |
| Database.FirstActiveBan | database.py:215-217 | the loop over candidate bans returns the index of the first active one, as `Claim.FirstActive` does |
| Utils.SubsequenceMembers | utils.py:18 | every element of a subsequence is an element of the whole |
| Utils.PrefixSubsequence | utils.py:18 | a prefix of a subsequence is still a subsequence |
| Utils.Matching | utils.py:18 | the filter keeps cache order and each name that contains the query as often as the cache holds it, and no other name |
| Utils.Complete | utils.py:11-18 | at most 25 suggestions, cached names in cache order; an empty query gives the first 25 cached names |
| Utils.EmptyQueryMatchesAll | utils.py:15-16 | the empty-query shortcut returns what the filter would, as every name contains the empty string |
| Utils.CompleteIsTruncatedMatching | utils.py:15-18 | for every query the suggestions are the first 25 names that contain the lowercased query |
| Utils.CaseInsensitive | utils.py:11-18 | queries that differ only in the case of ASCII letters give the same suggestions |
| Utils.ProjectAutocompleter | utils.py:8-21 | a bot without a cache gets no suggestions; otherwise the suggestions are those of `Complete` over its cache |
| Utils.IsAdmin | utils.py:23-29 | the predicate holds exactly when the author's id is among the ids in the bot's `admin_user_ids` attribute, and never when the bot has no such attribute |
| Bot.ProjectAutocompleter | bot.py:14-25 | the same result as the utils.py autocompleter over the cache, so at most 25 cached names in cache order, exactly the first 25 names that contain the lowercased query; an empty query gives the first 25 cached names |
| Bot.CouponBot.constructor | bot.py:28-40 | the trusted guilds are the configured ids, the cache is empty, the database manager is new and empty |
| Bot.CouponBot.InteractionCheck | bot.py:43-71 | an interaction is allowed exactly when it is the status or stock command, or comes from a guild that is trusted (or no guild list is configured); direct messages and untrusted guilds are each refused exactly in their case |
| Bot.CouponBot.UpdateProjectCache | bot.py:108-113 | the cache becomes the database's sorted project names, or stays as it was when the read fails; the manager and trusted guilds are untouched |
| Bot.SuggestionsAreProjects | bot.py:108-113 | after a refresh, every suggestion names a project that exists |

## Left out

- Storage engine, sessions and `connect`: the tables are values and a transaction is one function or method call. Two integrity errors are modelled: the unique-code violation of `add_coupons` and the unique-name violation of `create_project` (the name clash for which `Ledger.CreateProject` returns false). No other commit failure is modelled.
- Concurrency: request handlers and background jobs that interleave, and the locking the claim transaction would need, are not modelled; every operation runs alone.
- Backup (`backup_database`, `auto_backup`), cleanup jobs, the bot's lifecycle (`on_ready`, `load_cogs`, `cog_unload`, `on_error`, the task loop scheduling), the cogs, `config.py` and `main.py`: these are wiring and I/O outside the ledger.
- Reply texts: every success or failure message is reduced to its outcome (a boolean, an `AddOutcome`, a `ClaimResult`, a `Verdict`); logging is left out.
- The clock: `datetime.utcnow()` becomes the parameter `now` in whole seconds; sub-second precision is dropped.
- Database.DatabaseManager.ClaimCoupon: the final `ERROR` return of database.py:256-257 is never reached by the transaction as written, so the model has no such outcome.
- Ledger.SetProjectSetting: only `is_claim_active` with a boolean and `claim_cooldown_hours` with an integer are accepted; the source accepts any column name and any Python value, which the model does not capture.
- Utils.Complete: lowercasing covers ASCII letters only; the full Unicode `str.lower()` is not modelled. Exceptions inside the `try` body are not modelled either.
- Bot.CouponBot.UpdateProjectCache: whether reading the names fails is the parameter `readFails`, not a modelled storage error.
- Bot.CouponBot.InteractionCheck: the reply sent with each refusal is not modelled; the outcome distinguishes the two refusals instead.
- Utils.IsAdmin: the model takes the bot's `admin_user_ids` attribute as a parameter. `main.py` passes the ids as a keyword argument to the bot's constructor, but `CouponBot.__init__` (bot.py:28-40) does not store them, so whether the attribute exists depends on the Discord library, which is not part of this model; when it does not, `getattr` falls back to the empty set and the predicate is false for every user.
- Claim.LatestClaim: rows with equal claim times are ordered by position, while the source's `ORDER BY claimed_at DESC LIMIT 1` leaves ties to the engine.
- Ledger.DeleteProject: the model removes the project's coupons and scoped bans, as the cascades of database.py:35-36 declare. Those relationships use `passive_deletes=True`, so the rows go only through the database's `ON DELETE CASCADE`. SQLite enforces that only after `PRAGMA foreign_keys=ON`, which the engine of database.py:22-27 never issues. As configured, the child rows would stay behind with a dangling project id. A project created later could then reuse that id and take over those coupons, bans and claims. Foreign-key enforcement is assumed here.
- Ledger.WellFormed: that no coupon or scoped ban outlives its project rests on the same foreign-key assumption.
- Database.DatabaseManager.constructor: the manager starts with empty tables. The source keeps its tables in the file coupon_bot.db (database.py:16-24), and every reconnect builds a new bot over the same file. An empty start therefore holds only the first time.
- Bot.CouponBot.constructor: the new bot's manager is empty only on a first start, for the same reason.
- Ledger.BanUntil: Python's `timedelta(hours=h)` and `datetime + timedelta` raise an OverflowError for very large durations, past about 70 million hours from now. That error escapes `ban_user` (database.py:125) with nothing written, but the model returns an end time for every duration.
- Claim.Claim: the ban query at database.py:210-213 has no `ORDER BY`, so the rows come in whatever order the engine returns (an index scan on the (user, project) key may list the global ban first), and which active ban's reason is reported is up to the engine. The model keeps table order; `Claim.BannedReason` states the order-free promise that the reason belongs to some active ban that applies.
- Claim.Claim: the same overflow in the cooldown end at database.py:227 escapes `claim_coupon` with nothing written, but the model always computes the end time.
