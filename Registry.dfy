/**
 * The handler registry of the command handler: the shapes of Command and Subcommand
 * module values, the two maps they are stored in, and the loader's classification of
 * one loaded module value (the body of the loop in `loadCommandsRecursive`).
 */
module Registry {
  import opened Options
  import opened JsMaps

  /** The event category under which slash commands, components and modals are registered. */
  const INTERACTION_CREATE: string := "interactionCreate"

  /** `ApplicationCommandTypes`: CHAT_INPUT = 1, USER = 2, MESSAGE = 3. */
  datatype CommandKind = ChatInput | UserCommand | MessageCommand

  /** `ApplicationCommandOptionTypes.SUB_COMMAND`. */
  const SUB_COMMAND: nat := 1

  /** An application command option as the platform receives it. */
  datatype AppOption = AppOption(kind: nat, name: string, description: string, options: seq<AppOption>)

  /** A message embed: a colour and a text. */
  datatype Embed = Embed(color: int, description: string)

  /**
   * What a handler's function does when invoked. Functions of handler modules are
   * opaque and known by their identity; the stub parent's body, the one function the
   * core itself defines, sends a follow-up embed.
   */
  datatype Handler = ModuleFunction(id: string) | SendFollowup(embed: Embed)

  /**
   * A top-level command: `name` and `type` (`eventType` here) may be missing
   * (`undefined`) or empty, and so may the optional fields.
   */
  datatype Command = Command(
    name: Option<string>,
    eventType: Option<string>,
    interactionType: Option<CommandKind>,
    description: Option<string>,
    options: Option<seq<AppOption>>,
    execute: Handler,
    autocomplete: Option<Handler>)

  /** A subcommand bound to a parent command by name. */
  datatype Subcommand = Subcommand(
    parent: Option<string>,
    subcommand: string,
    description: string,
    options: seq<AppOption>,
    execute: Handler,
    autocomplete: Option<Handler>)

  /** A loaded module value: a Subcommand when it has a `subcommand` field, else a Command. */
  datatype ModuleValue = CommandModule(command: Command) | SubcommandModule(sub: Subcommand)

  /** The two maps of the handler: category -> name -> Command, and parent -> Subcommands. */
  datatype Registry = Registry(commands: map<string, JsMap<Command>>, subcommands: JsMap<seq<Subcommand>>)

  /** JavaScript truthiness of an optional string: present and non-empty. */
  predicate Truthy(s: Option<string>) {
    s.Some? && s.value != ""
  }

  /** The key a command is stored under: `command.name || ''`. */
  function NameKey(c: Command): (k: string)
    ensures k == "" <==> !Truthy(c.name)
    ensures Truthy(c.name) ==> k == c.name.value
  {
    if Truthy(c.name) then c.name.value else ""
  }

  /** The loader keeps a Command iff it has a type, and a name unless it is an interaction command. */
  predicate Accepted(c: Command) {
    Truthy(c.eventType) && (c.eventType.value == INTERACTION_CREATE || Truthy(c.name))
  }

  function EmptyRegistry(): Registry {
    Registry(map[], Empty())
  }

  /** The command stored under category `t` and key `k`, if any. */
  function Lookup(r: Registry, t: string, k: string): Option<Command> {
    if t in r.commands then r.commands[t].Get(k) else None
  }

  /** `this.subcommands.get(p) || []`. */
  function SubsOf(subs: JsMap<seq<Subcommand>>, p: string): seq<Subcommand> {
    subs.Get(p).GetOr([])
  }

  /** What the loader keeps invariant about the registry. */
  ghost predicate WellFormed(r: Registry) {
    && (forall t :: t in r.commands ==> t != "" && r.commands[t].Valid())
    && (forall t, k :: t in r.commands && k in r.commands[t].entries ==>
          var c := r.commands[t].entries[k];
          c.eventType == Some(t) && NameKey(c) == k && (t != INTERACTION_CREATE ==> k != ""))
    && r.subcommands.Valid()
    && (forall p :: p in r.subcommands.entries ==> p != "")
    && (forall p, i :: p in r.subcommands.entries && 0 <= i < |r.subcommands.entries[p]| ==>
          r.subcommands.entries[p][i].parent == Some(p))
  }

  /**
   * One step of the loader: a subcommand without a parent and a command without a type,
   * or without a name outside the interaction category, are skipped; otherwise the
   * subcommand is appended to its parent's list, or the command replaces whatever was
   * stored under its category and name.
   */
  function Load(r: Registry, m: ModuleValue): (r': Registry)
    ensures m.SubcommandModule? && !Truthy(m.sub.parent) ==> r' == r
    ensures m.SubcommandModule? && Truthy(m.sub.parent) ==>
      && r'.commands == r.commands
      && SubsOf(r'.subcommands, m.sub.parent.value) == SubsOf(r.subcommands, m.sub.parent.value) + [m.sub]
      && forall p :: p != m.sub.parent.value ==> r'.subcommands.Get(p) == r.subcommands.Get(p)
    ensures m.CommandModule? && !Accepted(m.command) ==> r' == r
    ensures m.CommandModule? && Accepted(m.command) ==>
      var t := m.command.eventType.value;
      && r'.subcommands == r.subcommands
      && r'.commands.Keys == r.commands.Keys + {t}
      && Lookup(r', t, NameKey(m.command)) == Some(m.command)
      && forall t', k :: (t', k) != (t, NameKey(m.command)) ==> Lookup(r', t', k) == Lookup(r, t', k)
  {
    match m
    case SubcommandModule(s) =>
      if !Truthy(s.parent) then r
      else
        var p := s.parent.value;
        r.(subcommands := r.subcommands.Set(p, SubsOf(r.subcommands, p) + [s]))
    case CommandModule(c) =>
      if !Accepted(c) then r
      else
        var t := c.eventType.value;
        var category := if t in r.commands then r.commands[t] else Empty();
        r.(commands := r.commands[t := category.Set(NameKey(c), c)])
  }

  /** One loading step preserves the registry's invariant. */
  lemma LoadWellFormed(r: Registry, m: ModuleValue)
    requires WellFormed(r)
    ensures WellFormed(Load(r, m))
  {
    match m
    case SubcommandModule(s) =>
      if Truthy(s.parent) {
        AppendSubcommandWellFormed(r, s);
      }
    case CommandModule(c) =>
      if Accepted(c) {
        StoreCommandWellFormed(r, c);
      }
  }

  lemma AppendSubcommandWellFormed(r: Registry, s: Subcommand)
    requires WellFormed(r) && Truthy(s.parent)
    ensures WellFormed(Load(r, SubcommandModule(s)))
  {
    var p := s.parent.value;
    var subs := r.subcommands.Set(p, SubsOf(r.subcommands, p) + [s]);
    assert Load(r, SubcommandModule(s)) == r.(subcommands := subs);
    assert subs.Valid();
    forall q, i | q in subs.entries && 0 <= i < |subs.entries[q]|
      ensures subs.entries[q][i].parent == Some(q)
    {
      if q != p {
        assert subs.Get(q) == r.subcommands.Get(q);
      }
    }
  }

  lemma StoreCommandWellFormed(r: Registry, c: Command)
    requires WellFormed(r) && Accepted(c)
    ensures WellFormed(Load(r, CommandModule(c)))
  {
    var t := c.eventType.value;
    var category := if t in r.commands then r.commands[t] else Empty();
    var updated := category.Set(NameKey(c), c);
    assert Load(r, CommandModule(c)).commands == r.commands[t := updated];
    assert category.Valid();
    forall k | k in updated.entries
      ensures updated.entries[k].eventType == Some(t) && NameKey(updated.entries[k]) == k
           && (t != INTERACTION_CREATE ==> k != "")
    {
      if k != NameKey(c) {
        assert updated.Get(k) == category.Get(k);
      }
    }
  }

  /** The loader over a sequence of module values, in load order. */
  function LoadAll(r: Registry, ms: seq<ModuleValue>): (res: Registry)
    ensures res.commands.Keys == r.commands.Keys + CategoriesOf(ms)
    decreases |ms|
  {
    if ms == [] then r
    else
      var init := ms[..|ms| - 1];
      assert CategoriesOf(ms) == CategoriesOf(init) + CategoriesOf([ms[|ms| - 1]]) by {
        assert forall i :: 0 <= i < |init| ==> ms[i] == init[i];
        assert forall m :: m in ms <==> m in init || m == ms[|ms| - 1];
      }
      Load(LoadAll(r, init), ms[|ms| - 1])
  }

  /** The categories the accepted commands among `ms` are filed under. */
  function CategoriesOf(ms: seq<ModuleValue>): set<string> {
    set m | m in ms && m.CommandModule? && Accepted(m.command) :: m.command.eventType.value
  }

  /** Loading preserves the registry's invariant. */
  lemma {:induction false} LoadAllWellFormed(r: Registry, ms: seq<ModuleValue>)
    requires WellFormed(r)
    ensures WellFormed(LoadAll(r, ms))
    decreases |ms|
  {
    if ms != [] {
      LoadAllWellFormed(r, ms[..|ms| - 1]);
      LoadWellFormed(LoadAll(r, ms[..|ms| - 1]), ms[|ms| - 1]);
    }
  }

  /** The subcommands among `ms` that the loader files under parent `p`, in load order. */
  function SubcommandsFor(ms: seq<ModuleValue>, p: string): seq<Subcommand>
    decreases |ms|
  {
    if ms == [] then []
    else
      var last := ms[|ms| - 1];
      SubcommandsFor(ms[..|ms| - 1], p)
        + if last.SubcommandModule? && Truthy(last.sub.parent) && last.sub.parent.value == p then [last.sub] else []
  }

  /** Subcommands are appended to their parent's list in load order, and never dropped. */
  lemma {:induction false} LoadAllAppendsSubcommands(r: Registry, ms: seq<ModuleValue>, p: string)
    requires p != ""
    ensures SubsOf(LoadAll(r, ms).subcommands, p) == SubsOf(r.subcommands, p) + SubcommandsFor(ms, p)
    decreases |ms|
  {
    if ms != [] {
      LoadAllAppendsSubcommands(r, ms[..|ms| - 1], p);
    }
  }

  /** The last command among `ms` that the loader keeps under category `t` and key `k`. */
  function LastCommand(ms: seq<ModuleValue>, t: string, k: string): Option<Command>
    decreases |ms|
  {
    if ms == [] then None
    else
      var last := ms[|ms| - 1];
      if last.CommandModule? && Accepted(last.command)
         && last.command.eventType.value == t && NameKey(last.command) == k
      then Some(last.command)
      else LastCommand(ms[..|ms| - 1], t, k)
  }

  /** A later command with the same type and name overwrites an earlier one: the last one wins. */
  lemma {:induction false} LoadAllLastWins(r: Registry, ms: seq<ModuleValue>, t: string, k: string)
    ensures Lookup(LoadAll(r, ms), t, k) ==
      if LastCommand(ms, t, k).Some? then LastCommand(ms, t, k) else Lookup(r, t, k)
    decreases |ms|
  {
    if ms != [] {
      LoadAllLastWins(r, ms[..|ms| - 1], t, k);
    }
  }

  /** A module with a `subcommand` field and no parent, or an empty one, registers nothing in either map. */
  lemma OrphanSubcommandRegistersNothing(r: Registry, s: Subcommand)
    requires !Truthy(s.parent)
    ensures LoadAll(r, [SubcommandModule(s)]) == r
  {
    assert [SubcommandModule(s)][..0] == [];
  }
}
