/** bot.py: the bot's own autocompleter, its global guild check and the
    project-name cache it refreshes from the database. */
module Bot {
  import opened Options
  import opened Utils
  import Ledger
  import Database

  /** The two commands usable in every guild (bot.py:46). */
  const ExemptCommands: set<string> := {"状态", "库存"}

  /** `project_autocompleter` of bot.py:14-25, which reads the cache
      attribute directly. */
  function ProjectAutocompleter(value: string, projectCache: seq<string>): (r: seq<string>)
    ensures |r| <= MaxChoices
    ensures IsSubsequence(r, projectCache)
    ensures forall x :: x in r ==> x in projectCache
    ensures r == Utils.ProjectAutocompleter(value, Some(projectCache))
    ensures value == "" ==> r == projectCache[..if |projectCache| < MaxChoices then |projectCache| else MaxChoices]
  {
    Complete(value, projectCache)
  }

  /** The parts of an interaction the check looks at: the command's name,
      when there is a command, and the guild's id, absent in a direct
      message. */
  datatype Interaction = Interaction(commandName: Option<string>, guildId: Option<int>)

  /** The outcome of `interaction_check`; each refusal also replies to the
      user. */
  datatype Verdict = Allowed | RefusedDirectMessage | RefusedUntrustedGuild

  predicate Exempt(i: Interaction) {
    i.commandName.Some? && i.commandName.value in ExemptCommands
  }

  class CouponBot {
    var trustedGuilds: set<int>
    var projectCache: seq<string>
    var dbManager: Database.DatabaseManager

    /** bot.py:28-40: the configured guild ids, an empty cache and a new
        database manager. */
    constructor (configuredGuilds: seq<int>)
      ensures trustedGuilds == set g | g in configuredGuilds
      ensures projectCache == []
      ensures fresh(dbManager) && dbManager.Valid() && dbManager.State() == Ledger.EmptyStore
    {
      trustedGuilds := set g | g in configuredGuilds;
      projectCache := [];
      dbManager := new Database.DatabaseManager();
    }

    /** bot.py:43-71.  An empty trusted set means every guild is trusted. */
    function InteractionCheck(i: Interaction): (v: Verdict)
      reads this
      ensures v == Allowed <==>
        (Exempt(i) || (i.guildId.Some? && (trustedGuilds == {} || i.guildId.value in trustedGuilds)))
      ensures v == RefusedDirectMessage <==> !Exempt(i) && i.guildId.None?
      ensures v == RefusedUntrustedGuild <==>
        (!Exempt(i) && i.guildId.Some? && trustedGuilds != {} && i.guildId.value !in trustedGuilds)
    {
      if Exempt(i) then Allowed
      else if i.guildId.None? then RefusedDirectMessage
      else if trustedGuilds != {} && i.guildId.value !in trustedGuilds then RefusedUntrustedGuild
      else Allowed
    }

    /** bot.py:108-113: the cache becomes the sorted project names; when
        reading them fails the old cache is kept.  Whether the read fails is
        a parameter. */
    method UpdateProjectCache(readFails: bool)
      modifies this
      ensures dbManager == old(dbManager) && trustedGuilds == old(trustedGuilds)
      ensures projectCache == if readFails then old(projectCache) else Ledger.ProjectNames(dbManager.State())
    {
      if !readFails {
        projectCache := Ledger.ProjectNames(dbManager.State());
      }
    }
  }

  /** After a successful refresh every suggestion names an existing
      project. */
  lemma SuggestionsAreProjects(s: Ledger.Store, value: string)
    ensures forall x :: x in ProjectAutocompleter(value, Ledger.ProjectNames(s)) ==>
      Ledger.FindProject(s.projects, x).Some?
  {
    forall x | x in ProjectAutocompleter(value, Ledger.ProjectNames(s))
      ensures Ledger.FindProject(s.projects, x).Some?
    {
      var names := Ledger.Names(s.projects);
      assert x in multiset(Ledger.ProjectNames(s));
      assert x in multiset(names);
      var i :| 0 <= i < |names| && names[i] == x;
      assert s.projects[i] in s.projects;
    }
  }
}
