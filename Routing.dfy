/**
 * The routing rules of `registerEvents`: for each registered category, which handler
 * functions an incoming event reaches and what happens when one of them throws.
 * Handlers are not run; a route returns the invocations the listener starts.
 */
module Routing {
  import opened Options
  import opened Text
  import opened JsMaps
  import opened Registry

  /** The configuration the dispatcher reads: the text-command prefix and the bot's own user id. */
  datatype Config = Config(prefix: string, botUserId: string)

  datatype Message = Message(authorId: string, content: string)

  /** The four interaction types the dispatcher distinguishes, and any other (ignored) type. */
  datatype Interaction =
    | ApplicationCommand(commandName: string, optionNames: seq<string>)
    | AutocompleteRequest(commandName: string, optionNames: seq<string>)
    | ComponentInteraction(customId: string)
    | ModalSubmit(customId: string)
    | OtherInteraction

  /** An event emitted by the client: a message, an interaction, or any other named event. */
  datatype Event = MessageCreated(msg: Message) | InteractionCreated(interaction: Interaction) | Emitted(eventName: string)

  /** Which function of which handler is called, and with what. */
  datatype Target =
    | Execute(command: Command)
    | ExecuteWithArgs(command: Command, args: seq<string>)
    | ExecuteSubcommand(sub: Subcommand)
    | Autocomplete(command: Command)
    | AutocompleteSubcommand(sub: Subcommand)

  /** What the dispatcher does when the invoked function throws. */
  datatype OnFailure = LogOnly | LogAndReply(embed: Embed)

  datatype Invocation = Invocation(target: Target, onFailure: OnFailure)

  /** The embed sent back when a slash command or subcommand throws. */
  const ERROR_REPLY: Embed := Embed(0xFF0000, "\U{274C} An error occurred while processing the command.")

  /** The event a category's listener is bound to: `onMessage` listens on `messageCreate`. */
  function BoundEvent(category: string): (event: string)
    ensures event == "messageCreate" <==> category == "onMessage" || category == "messageCreate"
    ensures category != "onMessage" ==> event == category
  {
    if category == "onMessage" then "messageCreate" else category
  }

  function EventName(e: Event): string {
    match e
    case MessageCreated(_) => "messageCreate"
    case InteractionCreated(_) => "interactionCreate"
    case Emitted(n) => n
  }

  /** `options?.[0]?.name`, when truthy. */
  function FirstOptionName(optionNames: seq<string>): (r: Option<string>)
    ensures r.Some? <==> |optionNames| > 0 && optionNames[0] != ""
    ensures r.Some? ==> r.value == optionNames[0]
  {
    if |optionNames| > 0 && optionNames[0] != "" then Some(optionNames[0]) else None
  }

  /** `subcommands.find(sc => sc.subcommand === name)`: the first subcommand with that name. */
  function FindSubcommand(subs: seq<Subcommand>, name: string): (r: Option<Subcommand>)
    ensures r.None? <==> forall i :: 0 <= i < |subs| ==> subs[i].subcommand != name
    ensures r.Some? ==> exists i :: 0 <= i < |subs| && subs[i] == r.value && r.value.subcommand == name
                                    && forall j :: 0 <= j < i ==> subs[j].subcommand != name
  {
    if subs == [] then None
    else if subs[0].subcommand == name then Some(subs[0])
    else
      var r := FindSubcommand(subs[1..], name);
      if r.Some? then
        ghost var i :| 0 <= i < |subs[1..]| && subs[1..][i] == r.value && r.value.subcommand == name
                       && forall j :: 0 <= j < i ==> subs[1..][j].subcommand != name;
        assert subs[i + 1] == r.value;
        r
      else r
  }

  /** The subcommand an interaction names through its first option, if the parent has one by that name. */
  function MatchedSubcommand(subs: JsMap<seq<Subcommand>>, commandName: string, optionNames: seq<string>): (r: Option<Subcommand>)
    ensures r.Some? ==> |optionNames| > 0 && r.value.subcommand == optionNames[0] && r.value in SubsOf(subs, commandName)
    ensures r.Some? ==> var list := SubsOf(subs, commandName);
      exists i :: 0 <= i < |list| && list[i] == r.value && forall j :: 0 <= j < i ==> list[j].subcommand != optionNames[0]
    ensures r.None? <==>
      || |optionNames| == 0 || optionNames[0] == ""
      || forall s :: s in SubsOf(subs, commandName) ==> s.subcommand != optionNames[0]
  {
    var first := FirstOptionName(optionNames);
    if first.Some? then FindSubcommand(SubsOf(subs, commandName), first.value) else None
  }

  /** The words of a prefixed message: the text after the prefix, trimmed and split on white space. */
  function PrefixWords(prefix: string, content: string): (words: seq<string>)
    requires StartsWith(content, prefix)
    ensures |words| >= 1
  {
    SplitWs(Trim(content[|prefix|..]))
  }

  /**
   * Prefix text command: messages by the bot itself or without the prefix reach nothing;
   * otherwise the text after the prefix is trimmed and split on white space, the first
   * word lower-cased is looked up exactly, and the other words are the arguments. A first
   * word that names no command runs nothing.
   */
  function RoutePrefix(cmds: JsMap<Command>, cfg: Config, msg: Message): (r: seq<Invocation>)
    ensures r != [] <==>
      && msg.authorId != cfg.botUserId
      && StartsWith(msg.content, cfg.prefix)
      && cmds.Has(Lower(PrefixWords(cfg.prefix, msg.content)[0]))
    ensures r != [] ==>
      var words := PrefixWords(cfg.prefix, msg.content);
      r == [Invocation(ExecuteWithArgs(cmds.entries[Lower(words[0])], words[1..]), LogOnly)]
  {
    if msg.authorId == cfg.botUserId || !StartsWith(msg.content, cfg.prefix) then []
    else
      var words := PrefixWords(cfg.prefix, msg.content);
      var commandName := Lower(words[0]);
      match cmds.Get(commandName)
      case Some(c) => [Invocation(ExecuteWithArgs(c, words[1..]), LogOnly)]
      case None => []
  }

  /**
   * Slash command: nothing runs unless the command name is registered; a subcommand
   * named by the first option runs instead of the parent, otherwise the parent runs.
   * A failure on either path is answered with the error embed.
   */
  function RouteSlashCommand(cmds: JsMap<Command>, subs: JsMap<seq<Subcommand>>, name: string, optionNames: seq<string>)
    : (r: seq<Invocation>)
    ensures |r| <= 1
    ensures r != [] <==> cmds.Has(name)
    ensures forall i :: 0 <= i < |r| ==> r[i].onFailure == LogAndReply(ERROR_REPLY)
    ensures r != [] && MatchedSubcommand(subs, name, optionNames).Some? ==>
      r[0].target == ExecuteSubcommand(MatchedSubcommand(subs, name, optionNames).value)
    ensures r != [] && MatchedSubcommand(subs, name, optionNames).None? ==>
      r[0].target == Execute(cmds.entries[name])
  {
    if !cmds.Has(name) then []
    else
      match MatchedSubcommand(subs, name, optionNames)
      case Some(sc) => [Invocation(ExecuteSubcommand(sc), LogAndReply(ERROR_REPLY))]
      case None => [Invocation(Execute(cmds.entries[name]), LogAndReply(ERROR_REPLY))]
  }

  /**
   * Autocomplete: the named subcommand's autocomplete, when it has one, takes precedence;
   * otherwise the parent's, when the parent is registered and has one; otherwise nothing.
   */
  function RouteAutocomplete(cmds: JsMap<Command>, subs: JsMap<seq<Subcommand>>, name: string, optionNames: seq<string>)
    : (r: seq<Invocation>)
    ensures |r| <= 1
    ensures forall i :: 0 <= i < |r| ==> r[i].onFailure == LogOnly
    ensures r == [] <==>
      && (MatchedSubcommand(subs, name, optionNames).None? || MatchedSubcommand(subs, name, optionNames).value.autocomplete.None?)
      && (!cmds.Has(name) || cmds.entries[name].autocomplete.None?)
    ensures r != [] && r[0].target.AutocompleteSubcommand? ==>
      Some(r[0].target.sub) == MatchedSubcommand(subs, name, optionNames) && r[0].target.sub.autocomplete.Some?
    ensures r != [] && !r[0].target.AutocompleteSubcommand? ==>
      && cmds.Has(name)
      && r[0].target == Autocomplete(cmds.entries[name])
      && cmds.entries[name].autocomplete.Some?
      && (MatchedSubcommand(subs, name, optionNames).None? || MatchedSubcommand(subs, name, optionNames).value.autocomplete.None?)
  {
    var matched := MatchedSubcommand(subs, name, optionNames);
    if matched.Some? && matched.value.autocomplete.Some? then
      [Invocation(AutocompleteSubcommand(matched.value), LogOnly)]
    else if cmds.Has(name) && cmds.entries[name].autocomplete.Some? then
      [Invocation(Autocomplete(cmds.entries[name]), LogOnly)]
    else []
  }

  /** Component interaction: exactly the command keyed by the custom id, if any. */
  function RouteComponent(cmds: JsMap<Command>, customId: string): (r: seq<Invocation>)
    ensures !cmds.Has(customId) ==> r == []
    ensures cmds.Has(customId) ==> r == [Invocation(Execute(cmds.entries[customId]), LogOnly)]
  {
    match cmds.Get(customId)
    case Some(c) => [Invocation(Execute(c), LogOnly)]
    case None => []
  }

  /** The modal filter: a command without a (truthy) name, or named by the custom id. */
  predicate HandlesModal(c: Command, customId: string) {
    !Truthy(c.name) || c.name == Some(customId)
  }

  /** The commands of `cs` that a modal with this custom id reaches, in order. */
  function ModalHandlers(cs: seq<Command>, customId: string): (r: seq<Command>)
    ensures |r| <= |cs|
    ensures forall c :: c in r <==> c in cs && HandlesModal(c, customId)
  {
    if cs == [] then []
    else (if HandlesModal(cs[0], customId) then [cs[0]] else []) + ModalHandlers(cs[1..], customId)
  }

  /** Modal submission: every command whose name is empty or equals the custom id. */
  function RouteModal(cmds: JsMap<Command>, customId: string): (r: seq<Invocation>)
    requires cmds.Valid()
    ensures forall i :: 0 <= i < |r| ==> r[i].onFailure == LogOnly && r[i].target.Execute?
    ensures forall c :: Invocation(Execute(c), LogOnly) in r <==>
      (exists k :: k in cmds.entries && cmds.entries[k] == c) && HandlesModal(c, customId)
  {
    var hs := ModalHandlers(cmds.Values(), customId);
    forall c ensures c in cmds.Values() <==> exists k :: k in cmds.entries && cmds.entries[k] == c {
      ValuesAreEntries(cmds, c);
    }
    var r := seq(|hs|, i requires 0 <= i < |hs| => Invocation(Execute(hs[i]), LogOnly));
    assert forall c :: Invocation(Execute(c), LogOnly) in r <==> c in hs by {
      forall c ensures Invocation(Execute(c), LogOnly) in r <==> c in hs {
        if c in hs {
          var i :| 0 <= i < |hs| && hs[i] == c;
          assert r[i] == Invocation(Execute(c), LogOnly);
        }
      }
    }
    r
  }

  /** Passive categories: every registered command, in registration order, no filtering. */
  function RoutePassive(cmds: JsMap<Command>): (r: seq<Invocation>)
    requires cmds.Valid()
    ensures |r| == |cmds.keys|
    ensures forall i :: 0 <= i < |r| ==> r[i] == Invocation(Execute(cmds.entries[cmds.keys[i]]), LogOnly)
  {
    var vs := cmds.Values();
    seq(|vs|, i requires 0 <= i < |vs| => Invocation(Execute(vs[i]), LogOnly))
  }

  /** The interaction listener: branches on the interaction type. */
  function RouteInteraction(cmds: JsMap<Command>, subs: JsMap<seq<Subcommand>>, i: Interaction): (r: seq<Invocation>)
    requires cmds.Valid()
    ensures forall j :: 0 <= j < |r| ==> (r[j].onFailure.LogAndReply? <==> i.ApplicationCommand?)
    ensures i.ApplicationCommand? ==> r == RouteSlashCommand(cmds, subs, i.commandName, i.optionNames)
    ensures i.AutocompleteRequest? ==> r == RouteAutocomplete(cmds, subs, i.commandName, i.optionNames)
    ensures i.ComponentInteraction? ==> r == RouteComponent(cmds, i.customId)
    ensures i.ModalSubmit? ==> r == RouteModal(cmds, i.customId)
    ensures i.OtherInteraction? ==> r == []
  {
    match i
    case ApplicationCommand(name, opts) => RouteSlashCommand(cmds, subs, name, opts)
    case AutocompleteRequest(name, opts) => RouteAutocomplete(cmds, subs, name, opts)
    case ComponentInteraction(id) => RouteComponent(cmds, id)
    case ModalSubmit(id) => RouteModal(cmds, id)
    case OtherInteraction => []
  }

  /** The listener of one category, for an event it is bound to. */
  function RouteCategory(r: Registry, category: string, cfg: Config, e: Event): (res: seq<Invocation>)
    requires category in r.commands && r.commands[category].Valid()
    ensures forall j :: 0 <= j < |res| ==> (res[j].onFailure.LogAndReply? ==>
      category == INTERACTION_CREATE && e.InteractionCreated? && e.interaction.ApplicationCommand?)
    ensures category == "onMessage" ==>
      res == if e.MessageCreated? then RoutePrefix(r.commands[category], cfg, e.msg) else []
    ensures category == INTERACTION_CREATE ==>
      res == if e.InteractionCreated? then RouteInteraction(r.commands[category], r.subcommands, e.interaction) else []
    ensures category != "onMessage" && category != INTERACTION_CREATE ==> res == RoutePassive(r.commands[category])
  {
    var cmds := r.commands[category];
    if category == "onMessage" then
      if e.MessageCreated? then RoutePrefix(cmds, cfg, e.msg) else []
    else if category == INTERACTION_CREATE then
      if e.InteractionCreated? then RouteInteraction(cmds, r.subcommands, e.interaction) else []
    else RoutePassive(cmds)
  }

  /**
   * One event: each category whose listener is bound to the event's name routes it on
   * its own. Categories are keys of the result; their listeners run independently.
   */
  function Dispatch(r: Registry, cfg: Config, e: Event): (d: map<string, seq<Invocation>>)
    requires WellFormed(r)
    ensures d.Keys == set c | c in r.commands && BoundEvent(c) == EventName(e)
    ensures forall c, j :: c in d && 0 <= j < |d[c]| && d[c][j].onFailure.LogAndReply? ==>
      c == INTERACTION_CREATE && e.InteractionCreated? && e.interaction.ApplicationCommand?
  {
    map c | c in r.commands && BoundEvent(c) == EventName(e) :: RouteCategory(r, c, cfg, e)
  }

  /**
   * A message made of the prefix, a command word in any letter case and arguments separated
   * by any runs of white space, padded with white space, invokes the command stored under
   * the lower-cased word with exactly those arguments, in order, when that key is registered,
   * and nothing otherwise; with no arguments the argument list is empty.
   */
  lemma PrefixCommandArguments(cmds: JsMap<Command>, cfg: Config, msg: Message,
                               pre: string, word: string, args: seq<string>, seps: seq<string>, post: string)
    requires msg.authorId != cfg.botUserId
    requires AllSpace(pre) && AllSpace(post)
    requires IsWord(word) && forall i :: 0 <= i < |args| ==> IsWord(args[i])
    requires |seps| == |args| && Separators(seps)
    requires msg.content == cfg.prefix + pre + Join([word] + args, seps) + post
    ensures RoutePrefix(cmds, cfg, msg)
      == if cmds.Has(Lower(word)) then [Invocation(ExecuteWithArgs(cmds.entries[Lower(word)], args), LogOnly)] else []
  {
    var line := Join([word] + args, seps);
    assert SplitWs(Trim(pre + line + post)) == [word] + args by {
      assert forall i :: 0 <= i < |[word] + args| ==> IsWord(([word] + args)[i]);
      PrefixedWords(pre, [word] + args, seps, post);
    }
    assert StartsWith(msg.content, cfg.prefix) && msg.content[|cfg.prefix|..] == pre + line + post by {
      PrefixThenBody(cfg.prefix, pre, line, post);
    }
    var words := PrefixWords(cfg.prefix, msg.content);
    assert words[0] == word && words[1..] == args by {
      assert words == [word] + args;
    }
  }

  lemma PrefixThenBody(prefix: string, pre: string, u: string, post: string)
    ensures StartsWith(prefix + pre + u + post, prefix)
    ensures (prefix + pre + u + post)[|prefix|..] == pre + u + post
  {
    assert prefix + pre + u + post == prefix + (pre + u + post);
  }

  /** Words joined by white-space runs and padded with white space parse back into the words. */
  lemma PrefixedWords(pre: string, ws: seq<string>, seps: seq<string>, post: string)
    requires AllSpace(pre) && AllSpace(post)
    requires |ws| >= 1 && forall i :: 0 <= i < |ws| ==> IsWord(ws[i])
    requires |seps| == |ws| - 1 && Separators(seps)
    ensures SplitWs(Trim(pre + Join(ws, seps) + post)) == ws
  {
    var j := Join(ws, seps);
    JoinFirst(ws, seps);
    JoinLast(ws, seps);
    assert IsWord(ws[0]) && IsWord(ws[|ws| - 1]);
    TrimPadded(pre, j, post);
    SplitJoin(ws, seps);
  }

  /** How many of the commands are stored under key `k`. */
  function KeyCount(cs: seq<Command>, k: string): nat {
    if cs == [] then 0 else (if NameKey(cs[0]) == k then 1 else 0) + KeyCount(cs[1..], k)
  }

  /** A modal reaches exactly the commands keyed `""` and those keyed by its (non-empty) custom id. */
  lemma {:induction false} ModalHandlersCount(cs: seq<Command>, customId: string)
    ensures |ModalHandlers(cs, customId)| == KeyCount(cs, "") + (if customId != "" then KeyCount(cs, customId) else 0)
  {
    if cs != [] {
      ModalHandlersCount(cs[1..], customId);
    }
  }

  /** Commands with pairwise distinct keys hold each key at most once. */
  lemma {:induction false} KeyCountDistinct(cs: seq<Command>, k: string)
    requires forall i, j :: 0 <= i < j < |cs| ==> NameKey(cs[i]) != NameKey(cs[j])
    ensures KeyCount(cs, k) <= 1
    ensures KeyCount(cs, k) == 1 ==> exists i :: 0 <= i < |cs| && NameKey(cs[i]) == k
  {
    if cs != [] {
      KeyCountDistinct(cs[1..], k);
      if KeyCount(cs[1..], k) == 1 {
        var i :| 0 <= i < |cs[1..]| && NameKey(cs[1..][i]) == k;
        assert NameKey(cs[i + 1]) == k;
      }
    }
  }

  /**
   * A modal submission reaches at most two handlers of a registry category: the one stored
   * under the empty name and the one named by the custom id. Two anonymous modal handlers
   * cannot both fire, because both would be stored under the key `""`.
   */
  lemma ModalReachesAtMostTwo(r: Registry, category: string, customId: string)
    requires WellFormed(r) && category in r.commands
    ensures |RouteModal(r.commands[category], customId)| <= 2
    ensures customId == "" ==> |RouteModal(r.commands[category], customId)| <= 1
  {
    var cmds := r.commands[category];
    var vs := cmds.Values();
    assert forall i, j :: 0 <= i < j < |vs| ==> NameKey(vs[i]) != NameKey(vs[j]) by {
      forall i | 0 <= i < |vs| ensures NameKey(vs[i]) == cmds.keys[i] {
        assert cmds.keys[i] in cmds.entries;
      }
    }
    ModalHandlersCount(vs, customId);
    KeyCountDistinct(vs, "");
    KeyCountDistinct(vs, customId);
  }
}
