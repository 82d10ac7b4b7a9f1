/**
 * The `CommandHandler` object: it owns the two registries, fills them from the loaded
 * module values one at a time, and on `registerSlashCommands` inserts the stub parents
 * into its interaction map and builds the payload for the bulk replace.
 */
module Handler {
  import opened Options
  import opened JsMaps
  import opened Registry
  import opened Routing
  import opened Sync

  class CommandHandler {
    /** The prefix and the bot's own user id the listeners consult. */
    const config: Config
    /** `commands`: event category -> (name || '') -> Command. */
    var commands: map<string, JsMap<Command>>
    /** `subcommands`: parent name -> its subcommands in load order. */
    var subcommands: JsMap<seq<Subcommand>>

    /** The registries as one value. */
    function State(): Registry
      reads this
    {
      Registry(commands, subcommands)
    }

    ghost predicate Valid()
      reads this
    {
      WellFormed(State())
    }

    /** `new CommandHandler(bot)`: starts empty and loads the module values in order. */
    constructor (config: Config, modules: seq<ModuleValue>)
      ensures Valid() && this.config == config
      ensures State() == LoadAll(EmptyRegistry(), modules)
    {
      this.config := config;
      commands := map[];
      subcommands := Empty();
      new;
      LoadCommands(modules);
    }

    /** The body of the loader's loop for one loaded module value. */
    method LoadModule(m: ModuleValue)
      requires Valid()
      modifies this
      ensures Valid()
      ensures State() == Load(old(State()), m)
    {
      LoadWellFormed(State(), m);
      match m
      case SubcommandModule(s) =>
        if Truthy(s.parent) {
          AddSubcommand(s);
        }
      case CommandModule(c) =>
        if !Truthy(c.eventType) {
          return;
        }
        if c.eventType.value != INTERACTION_CREATE && !Truthy(c.name) {
          return;
        }
        StoreCommand(c);
    }

    /** A subcommand with a parent is pushed onto its parent's list, created empty if absent. */
    method AddSubcommand(s: Subcommand)
      requires Truthy(s.parent)
      modifies this
      ensures commands == old(commands)
      ensures subcommands == old(subcommands).Set(s.parent.value, SubsOf(old(subcommands), s.parent.value) + [s])
    {
      var p := s.parent.value;
      if !subcommands.Has(p) {
        subcommands := subcommands.Set(p, []);
      }
      var list := subcommands.Get(p).value;
      subcommands := subcommands.Set(p, list + [s]);
    }

    /** An accepted command replaces whatever its category held under `name || ''`. */
    method StoreCommand(c: Command)
      requires Accepted(c)
      modifies this
      ensures subcommands == old(subcommands)
      ensures var t := c.eventType.value;
        commands == old(commands)[t := (if t in old(commands) then old(commands)[t] else Empty()).Set(NameKey(c), c)]
    {
      var t := c.eventType.value;
      if t !in commands {
        commands := commands[t := Empty()];
      }
      commands := commands[t := commands[t].Set(NameKey(c), c)];
    }

    /** `loadCommandsRecursive`, once the files are resolved to module values in load order. */
    method LoadCommands(ms: seq<ModuleValue>)
      requires Valid()
      modifies this
      ensures Valid()
      ensures State() == LoadAll(old(State()), ms)
    {
      var i := 0;
      while i < |ms|
        invariant 0 <= i <= |ms|
        invariant Valid()
        invariant State() == LoadAll(old(State()), ms[..i])
      {
        LoadModule(ms[i]);
        assert ms[..i + 1][..i] == ms[..i];
        i := i + 1;
      }
      assert ms[..|ms|] == ms;
    }

    /** The stub loop of `registerSlashCommands`: a stub for every listed parent the map lacks. */
    static method InsertStubs(initial: JsMap<Command>, parents: seq<string>) returns (interaction: JsMap<Command>)
      ensures interaction == WithStubs(initial, parents)
    {
      interaction := initial;
      var i := 0;
      while i < |parents|
        invariant 0 <= i <= |parents|
        invariant interaction == WithStubs(initial, parents[..i])
      {
        var p := parents[i];
        if !interaction.Has(p) {
          interaction := interaction.Set(p, Stub(p));
        }
        assert parents[..i + 1][..i] == parents[..i];
        i := i + 1;
      }
      assert parents[..i] == parents;
    }

    /**
     * `registerSlashCommands`: every subcommand parent without an interaction command gets
     * a stub, kept in the live map when the interaction category exists; the payload is
     * submitted (`Some`) unless it is empty.
     */
    method RegisterSlashCommands() returns (submitted: Option<seq<Entry>>)
      requires Valid()
      modifies this
      ensures Valid()
      ensures State() == SyncedRegistry(old(State()))
      ensures submitted == if SyncPayload(old(State())) == [] then None else Some(SyncPayload(old(State())))
      ensures submitted.Some? ==> forall i, j :: 0 <= i < j < |submitted.value| ==>
        submitted.value[i].name != submitted.value[j].name
    {
      ghost var r := State();
      var current := if INTERACTION_CREATE in commands then commands[INTERACTION_CREATE] else Empty();
      var interaction := InsertStubs(current, subcommands.keys);
      assert interaction == SyncedInteractionMap(r);
      if INTERACTION_CREATE in commands {
        commands := commands[INTERACTION_CREATE := interaction];
      }
      assert State() == SyncedRegistry(r);
      assert WellFormed(SyncedRegistry(r));
      SyncedInteractionMapWellFormed(r);
      SyncEntryNamesDistinct(r);
      var payload := Payload(interaction.Values(), subcommands);
      if |payload| == 0 {
        submitted := None;
      } else {
        submitted := Some(payload);
      }
    }
  }
}
