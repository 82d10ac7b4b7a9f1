/**
 * Properties that connect the loader, the sync step and the listeners: what an
 * interaction reaches once the registry is loaded and the slash commands are synced.
 */
module Scenarios {
  import opened Options
  import opened JsMaps
  import opened Registry
  import opened Routing
  import opened Sync

  /** The custom id of the report-deletion button. */
  const REPORT_RESOURCE_DELETE: string := "report_resource_delete"

  /** Only the interaction category listens to interactions, and it routes them by type. */
  lemma InteractionDispatch(r: Registry, cfg: Config, i: Interaction)
    requires WellFormed(r)
    ensures Dispatch(r, cfg, InteractionCreated(i)) ==
      if INTERACTION_CREATE in r.commands
      then map[INTERACTION_CREATE := RouteInteraction(r.commands[INTERACTION_CREATE], r.subcommands, i)]
      else map[]
  {
    var d := Dispatch(r, cfg, InteractionCreated(i));
    forall c | c in d ensures c == INTERACTION_CREATE {
      assert BoundEvent(c) == INTERACTION_CREATE;
    }
  }

  /**
   * A message reaches the two categories bound to `messageCreate`: `onMessage` parses it as a
   * prefix command, and `messageCreate` hands it to every command of its map.
   */
  lemma MessageDispatch(r: Registry, cfg: Config, m: Message)
    requires WellFormed(r)
    ensures Dispatch(r, cfg, MessageCreated(m)) ==
      (if "onMessage" in r.commands then map["onMessage" := RoutePrefix(r.commands["onMessage"], cfg, m)] else map[])
      + (if "messageCreate" in r.commands then map["messageCreate" := RoutePassive(r.commands["messageCreate"])] else map[])
  {
    var d := Dispatch(r, cfg, MessageCreated(m));
    var expected := (if "onMessage" in r.commands then map["onMessage" := RoutePrefix(r.commands["onMessage"], cfg, m)] else map[])
      + (if "messageCreate" in r.commands then map["messageCreate" := RoutePassive(r.commands["messageCreate"])] else map[]);
    forall c | c in d ensures c in expected && d[c] == expected[c] {
      assert BoundEvent(c) == "messageCreate";
    }
    forall c | c in expected ensures c in d {
      assert BoundEvent(c) == "messageCreate";
    }
  }

  /**
   * Any other named event reaches only the category of that name, which hands it to every
   * command of its map; `onMessage` is bound to `messageCreate`, so an event named
   * `onMessage` reaches nothing.
   */
  lemma EmittedDispatch(r: Registry, cfg: Config, n: string)
    requires WellFormed(r)
    requires n != "messageCreate" && n != INTERACTION_CREATE
    ensures Dispatch(r, cfg, Emitted(n)) ==
      if n in r.commands && n != "onMessage" then map[n := RoutePassive(r.commands[n])] else map[]
  {
    var d := Dispatch(r, cfg, Emitted(n));
    forall c | c in d ensures c == n && n != "onMessage" {
      assert BoundEvent(c) == n;
    }
    if n in r.commands && n != "onMessage" {
      assert BoundEvent(n) == n;
      assert n in d;
    }
  }

  /** Pressing the report-deletion button runs exactly the command registered under its custom id. */
  lemma ReportDeleteButton(r: Registry, cfg: Config, c: Command)
    requires WellFormed(r)
    requires Lookup(r, INTERACTION_CREATE, REPORT_RESOURCE_DELETE) == Some(c)
    ensures Dispatch(r, cfg, InteractionCreated(ComponentInteraction(REPORT_RESOURCE_DELETE)))
      == map[INTERACTION_CREATE := [Invocation(Execute(c), LogOnly)]]
  {
    InteractionDispatch(r, cfg, ComponentInteraction(REPORT_RESOURCE_DELETE));
  }

  /** The sync keeps the subcommand lists and gives every group a parent in the interaction map. */
  lemma SyncedGroupHasParent(r: Registry, p: string)
    requires WellFormed(r) && INTERACTION_CREATE in r.commands && r.subcommands.Has(p)
    ensures SyncedRegistry(r).subcommands == r.subcommands
    ensures INTERACTION_CREATE in SyncedRegistry(r).commands && SyncedRegistry(r).commands[INTERACTION_CREATE].Has(p)
  {
    WithStubsSpec(r.commands[INTERACTION_CREATE], r.subcommands.keys);
    assert p in r.subcommands.keys;
  }

  /**
   * After the sync, a slash command naming a subcommand group and one of its subcommands
   * runs that subcommand, even when the group's parent is a synthesised stub.
   */
  lemma SyncedGroupRunsSubcommand(r: Registry, cfg: Config, p: string, name: string)
    requires WellFormed(r) && INTERACTION_CREATE in r.commands
    requires r.subcommands.Has(p) && name != ""
    requires FindSubcommand(SubsOf(r.subcommands, p), name).Some?
    ensures Dispatch(SyncedRegistry(r), cfg, InteractionCreated(ApplicationCommand(p, [name])))
      == map[INTERACTION_CREATE := [Invocation(ExecuteSubcommand(FindSubcommand(SubsOf(r.subcommands, p), name).value),
                                               LogAndReply(ERROR_REPLY))]]
  {
    SyncedGroupHasParent(r, p);
    InteractionDispatch(SyncedRegistry(r), cfg, ApplicationCommand(p, [name]));
  }

  /**
   * When no interaction command was loaded at all, the synthesised parents are published
   * but kept nowhere: the same slash command then reaches no listener.
   */
  lemma SubcommandOnlyGroupsHaveNoListener(r: Registry, cfg: Config, p: string, optionNames: seq<string>)
    requires WellFormed(r) && INTERACTION_CREATE !in r.commands
    requires r.subcommands.Has(p)
    ensures Entry(p, ChatInput, Some("Manage " + p), SubcommandOptions(SubsOf(r.subcommands, p))) in SyncPayload(r)
    ensures Dispatch(SyncedRegistry(r), cfg, InteractionCreated(ApplicationCommand(p, optionNames))) == map[]
  {
    SyncPublishesOrphanGroup(r, p);
    InteractionDispatch(r, cfg, ApplicationCommand(p, optionNames));
  }
}
