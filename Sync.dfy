/**
 * `registerSlashCommands`: the stub parents synthesised for subcommand groups that have
 * no Command of their own, and the bulk-replace payload built from the interaction
 * category (own options first, then one SUB_COMMAND option per subcommand).
 */
module Sync {
  import opened Options
  import opened JsMaps
  import opened Registry

  /** One element of the bulk-replace payload; `description` is sent for chat-input commands only. */
  datatype Entry = Entry(name: string, kind: CommandKind, description: Option<string>, options: seq<AppOption>)

  const NO_DESCRIPTION: string := "No description"

  /** What a stub parent answers when invoked on its own. */
  const USE_SUBCOMMAND_REPLY: Embed := Embed(0xFF0000, "\U{274C} Please use a subcommand.")

  /** The implicit parent command synthesised for a subcommand group. */
  function Stub(parent: string): (c: Command)
    ensures c.name == Some(parent) && c.eventType == Some(INTERACTION_CREATE)
    ensures c.interactionType == Some(ChatInput) && c.options == Some([]) && c.autocomplete == None
  {
    Command(Some(parent), Some(INTERACTION_CREATE), Some(ChatInput), Some("Manage " + parent), Some([]),
            SendFollowup(USE_SUBCOMMAND_REPLY), None)
  }

  /** The interaction map after a stub is inserted for each of `parents` that is missing, in order. */
  function WithStubs(cmds: JsMap<Command>, parents: seq<string>): JsMap<Command>
    decreases |parents|
  {
    if parents == [] then cmds
    else
      var before := WithStubs(cmds, parents[..|parents| - 1]);
      var p := parents[|parents| - 1];
      if before.Has(p) then before else before.Set(p, Stub(p))
  }

  /**
   * Stub insertion never replaces a command, gives every listed parent an entry, adds no
   * other key, and appends the stubs after the commands already there.
   */
  lemma {:induction false} WithStubsSpec(cmds: JsMap<Command>, parents: seq<string>)
    requires cmds.Valid()
    ensures WithStubs(cmds, parents).Valid()
    ensures forall k :: cmds.Has(k) ==> WithStubs(cmds, parents).Get(k) == cmds.Get(k)
    ensures forall k :: k in parents && !cmds.Has(k) ==> WithStubs(cmds, parents).Get(k) == Some(Stub(k))
    ensures forall k :: WithStubs(cmds, parents).Has(k) ==> cmds.Has(k) || k in parents
    ensures |cmds.keys| <= |WithStubs(cmds, parents).keys|
    ensures WithStubs(cmds, parents).keys[..|cmds.keys|] == cmds.keys
    decreases |parents|
  {
    if parents != [] {
      var init := parents[..|parents| - 1];
      WithStubsSpec(cmds, init);
      var before := WithStubs(cmds, init);
      var p := parents[|parents| - 1];
      assert forall k :: k in parents <==> k in init || k == p;
      if !before.Has(p) {
        var after := before.Set(p, Stub(p));
        assert after.keys[..|cmds.keys|] == before.keys[..|cmds.keys|];
      }
    }
  }

  /**
   * A subcommand re-expressed as a nested SUB_COMMAND option carrying its own options; an
   * empty description falls back to the subcommand's name followed by " command".
   */
  function SubcommandOption(sc: Subcommand): (o: AppOption)
    ensures o.kind == SUB_COMMAND && o.name == sc.subcommand && o.options == sc.options
    ensures o.description == if sc.description != "" then sc.description else sc.subcommand + " command"
    ensures o.description != ""
  {
    AppOption(SUB_COMMAND, sc.subcommand, if sc.description != "" then sc.description else sc.subcommand + " command", sc.options)
  }

  function SubcommandOptions(subs: seq<Subcommand>): (r: seq<AppOption>)
    ensures |r| == |subs|
    ensures forall i :: 0 <= i < |subs| ==> r[i] == SubcommandOption(subs[i])
  {
    seq(|subs|, i requires 0 <= i < |subs| => SubcommandOption(subs[i]))
  }

  /** Only commands with both an `interactionType` and a `name` are published. */
  predicate Publishable(c: Command) {
    c.interactionType.Some? && c.name.Some?
  }

  /** The payload entry of one publishable command. */
  function ToEntry(c: Command, subs: JsMap<seq<Subcommand>>): (e: Entry)
    requires Publishable(c)
    ensures e.name == c.name.value && e.kind == c.interactionType.value
    ensures e.description.Some? <==> c.interactionType.value == ChatInput
    ensures e.description.Some? ==> e.description.value == (if Truthy(c.description) then c.description.value else NO_DESCRIPTION)
    ensures |e.options| == |c.options.GetOr([])| + |SubsOf(subs, c.name.value)|
    ensures e.options[..|c.options.GetOr([])|] == c.options.GetOr([])
    ensures forall i :: 0 <= i < |SubsOf(subs, c.name.value)| ==>
      e.options[|c.options.GetOr([])| + i] == SubcommandOption(SubsOf(subs, c.name.value)[i])
  {
    var kind := c.interactionType.value;
    Entry(
      c.name.value,
      kind,
      if kind == ChatInput then Some(if Truthy(c.description) then c.description.value else NO_DESCRIPTION) else None,
      c.options.GetOr([]) + SubcommandOptions(SubsOf(subs, c.name.value)))
  }

  /** `filter(publishable).map(toEntry)` over the commands, in order. */
  function Payload(cs: seq<Command>, subs: JsMap<seq<Subcommand>>): (r: seq<Entry>)
    ensures |r| <= |cs|
    ensures forall c :: c in cs && Publishable(c) ==> ToEntry(c, subs) in r
    ensures forall e :: e in r ==> exists c :: c in cs && Publishable(c) && e == ToEntry(c, subs)
  {
    if cs == [] then []
    else
      var rest := Payload(cs[1..], subs);
      assert forall c :: c in cs[1..] ==> c in cs;
      if Publishable(cs[0]) then [ToEntry(cs[0], subs)] + rest else rest
  }

  /** The interaction map `registerSlashCommands` works on, with the stubs inserted. */
  function SyncedInteractionMap(r: Registry): JsMap<Command> {
    var interaction := if INTERACTION_CREATE in r.commands then r.commands[INTERACTION_CREATE] else Empty();
    WithStubs(interaction, r.subcommands.keys)
  }

  /**
   * The registry after the sync: stubs land in the live map only if the category exists.
   * There, every command already stored keeps its key, value and place, every parent
   * without a command gets its stub, and nothing else is added; the other categories and
   * the subcommands are untouched.
   */
  function SyncedRegistry(r: Registry): (r': Registry)
    ensures WellFormed(r) ==> WellFormed(r')
    ensures r'.subcommands == r.subcommands
    ensures INTERACTION_CREATE !in r.commands ==> r' == r
    ensures r'.commands.Keys == r.commands.Keys
    ensures forall t :: t in r.commands && t != INTERACTION_CREATE ==> r'.commands[t] == r.commands[t]
    ensures WellFormed(r) && INTERACTION_CREATE in r.commands ==>
      var cur, next := r.commands[INTERACTION_CREATE], r'.commands[INTERACTION_CREATE];
      && |cur.keys| <= |next.keys| && next.keys[..|cur.keys|] == cur.keys
      && forall k ::
           next.Get(k) == if cur.Has(k) then cur.Get(k) else if k in r.subcommands.keys then Some(Stub(k)) else None
  {
    if INTERACTION_CREATE in r.commands then
      var r' := r.(commands := r.commands[INTERACTION_CREATE := SyncedInteractionMap(r)]);
      assert WellFormed(r) ==> WellFormed(r') by {
        if WellFormed(r) {
          SyncedInteractionMapWellFormed(r);
        }
      }
      assert WellFormed(r) ==> StubbedAsExpected(r.commands[INTERACTION_CREATE], r.subcommands.keys) by {
        if WellFormed(r) {
          StubsAdded(r.commands[INTERACTION_CREATE], r.subcommands.keys);
        }
      }
      r'
    else r
  }

  /** What `WithStubs` does to each key of a valid map, and to the order of its keys. */
  ghost predicate StubbedAsExpected(cmds: JsMap<Command>, parents: seq<string>) {
    var next := WithStubs(cmds, parents);
    && |cmds.keys| <= |next.keys| && next.keys[..|cmds.keys|] == cmds.keys
    && forall k :: next.Get(k) == if cmds.Has(k) then cmds.Get(k) else if k in parents then Some(Stub(k)) else None
  }

  lemma StubsAdded(cmds: JsMap<Command>, parents: seq<string>)
    requires cmds.Valid()
    ensures StubbedAsExpected(cmds, parents)
  {
    WithStubsSpec(cmds, parents);
    var next := WithStubs(cmds, parents);
    forall k ensures next.Get(k) == if cmds.Has(k) then cmds.Get(k) else if k in parents then Some(Stub(k)) else None {
      if !cmds.Has(k) && k !in parents {
        assert !next.Has(k);
      }
    }
  }

  /** The list handed to the bulk-replace call. */
  function SyncPayload(r: Registry): seq<Entry>
    requires WellFormed(r)
  {
    var interaction := if INTERACTION_CREATE in r.commands then r.commands[INTERACTION_CREATE] else Empty();
    WithStubsSpec(interaction, r.subcommands.keys);
    Payload(SyncedInteractionMap(r).Values(), r.subcommands)
  }

  /** The interaction map with its stubs keeps the registry's invariant. */
  lemma SyncedInteractionMapWellFormed(r: Registry)
    requires WellFormed(r)
    ensures SyncedInteractionMap(r).Valid()
    ensures forall k :: SyncedInteractionMap(r).Has(k) ==>
      var c := SyncedInteractionMap(r).entries[k];
      c.eventType == Some(INTERACTION_CREATE) && NameKey(c) == k
  {
    var interaction := if INTERACTION_CREATE in r.commands then r.commands[INTERACTION_CREATE] else Empty();
    WithStubsSpec(interaction, r.subcommands.keys);
    var m := SyncedInteractionMap(r);
    forall k | m.Has(k)
      ensures m.entries[k].eventType == Some(INTERACTION_CREATE) && NameKey(m.entries[k]) == k
    {
      if interaction.Has(k) {
        assert m.Get(k) == interaction.Get(k);
      } else {
        assert k in r.subcommands.keys;
        assert m.Get(k) == Some(Stub(k));
      }
    }
  }

  /**
   * A subcommand group with no explicit parent is published under a synthesised
   * chat-input parent whose options are exactly the group's subcommands, in order.
   */
  lemma SyncPublishesOrphanGroup(r: Registry, p: string)
    requires WellFormed(r)
    requires r.subcommands.Has(p) && Lookup(r, INTERACTION_CREATE, p).None?
    ensures Entry(p, ChatInput, Some("Manage " + p), SubcommandOptions(SubsOf(r.subcommands, p))) in SyncPayload(r)
  {
    var m := SyncedInteractionMap(r);
    assert m.Valid() && m.Get(p) == Some(Stub(p)) by {
      var interaction := if INTERACTION_CREATE in r.commands then r.commands[INTERACTION_CREATE] else Empty();
      WithStubsSpec(interaction, r.subcommands.keys);
      assert !interaction.Has(p);
      assert p in r.subcommands.keys;
    }
    assert Stub(p) in m.Values() by {
      ValuesAreEntries(m, Stub(p));
    }
    assert ToEntry(Stub(p), r.subcommands) == Entry(p, ChatInput, Some("Manage " + p), SubcommandOptions(SubsOf(r.subcommands, p))) by {
      assert p != "";
      assert [] + SubcommandOptions(SubsOf(r.subcommands, p)) == SubcommandOptions(SubsOf(r.subcommands, p));
    }
  }

  /** Every published entry is named after the key of one of the commands. */
  lemma {:induction false} PayloadNamesFromKeys(cs: seq<Command>, subs: JsMap<seq<Subcommand>>)
    ensures forall e :: e in Payload(cs, subs) ==> exists i :: 0 <= i < |cs| && e.name == NameKey(cs[i])
  {
    if cs != [] {
      var rest := Payload(cs[1..], subs);
      PayloadNamesFromKeys(cs[1..], subs);
      forall e | e in Payload(cs, subs) ensures exists i :: 0 <= i < |cs| && e.name == NameKey(cs[i]) {
        if e in rest {
          var i :| 0 <= i < |cs[1..]| && e.name == NameKey(cs[1..][i]);
          assert cs[i + 1] == cs[1..][i];
        } else {
          assert e == ToEntry(cs[0], subs);
        }
      }
    }
  }

  /** An entry named unlike every entry of a list with distinct names can be put in front of it. */
  lemma ConsNamesDistinct(e0: Entry, rest: seq<Entry>)
    requires forall i, j :: 0 <= i < j < |rest| ==> rest[i].name != rest[j].name
    requires forall e :: e in rest ==> e.name != e0.name
    ensures forall i, j :: 0 <= i < j < |[e0] + rest| ==> ([e0] + rest)[i].name != ([e0] + rest)[j].name
  {
    var all := [e0] + rest;
    forall i, j | 0 <= i < j < |all| ensures all[i].name != all[j].name {
      assert all[j] == rest[j - 1] && all[j] in rest;
      if i > 0 {
        assert all[i] == rest[i - 1];
      }
    }
  }

  /** Among commands keyed by distinct names, the published entries have distinct names. */
  lemma {:induction false} PayloadNamesDistinct(cs: seq<Command>, subs: JsMap<seq<Subcommand>>)
    requires forall i, j :: 0 <= i < j < |cs| ==> NameKey(cs[i]) != NameKey(cs[j])
    ensures forall i, j :: 0 <= i < j < |Payload(cs, subs)| ==> Payload(cs, subs)[i].name != Payload(cs, subs)[j].name
  {
    if cs != [] {
      var tail := cs[1..];
      assert forall i :: 0 <= i < |tail| ==> tail[i] == cs[i + 1];
      var rest := Payload(tail, subs);
      PayloadNamesDistinct(tail, subs);
      if Publishable(cs[0]) {
        PayloadNamesFromKeys(tail, subs);
        var e0 := ToEntry(cs[0], subs);
        assert e0.name == NameKey(cs[0]);
        forall e | e in rest ensures e.name != e0.name {
          var i :| 0 <= i < |tail| && e.name == NameKey(tail[i]);
        }
        assert Payload(cs, subs) == [e0] + rest;
        ConsNamesDistinct(e0, rest);
      } else {
        assert Payload(cs, subs) == rest;
      }
    }
  }

  /**
   * The payload names each published interaction command (explicit or synthesised)
   * exactly once: no two entries share a name.
   */
  lemma SyncEntryNamesDistinct(r: Registry)
    requires WellFormed(r)
    ensures forall i, j :: 0 <= i < j < |SyncPayload(r)| ==> SyncPayload(r)[i].name != SyncPayload(r)[j].name
  {
    SyncedInteractionMapWellFormed(r);
    var m := SyncedInteractionMap(r);
    var vs := m.Values();
    forall i | 0 <= i < |vs| ensures NameKey(vs[i]) == m.keys[i] {
      assert m.Has(m.keys[i]);
    }
    PayloadNamesDistinct(vs, r.subcommands);
  }
}
