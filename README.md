# Command handler and resource store of a Discord bot, modelled in Dafny

This project models two parts of a Discord bot written in TypeScript on the Eris library.

The first is the **command handler** (`src/commandHandler.ts`):
- the loader sorts the loaded module values into per-event command maps and per-parent subcommand lists;
- the event listeners route each message or interaction to the commands that should run;
- `registerSlashCommands` synthesises stub parents for subcommand groups and builds the bulk-replace payload.

The second is the **resource methods** (`src/lib/resourceMethods.ts`), run against an in-memory model of the two tables `resources` and `reviews`:
- look-ups, ratings and the average rating;
- staff edits, deletion, approval and decline;
- temporary submissions with generated ids;
- duplicate checks and the autocomplete choice list.

Modules:
- `Options`, `Text` (`Text.dfy`): an option type; white-space trimming and splitting and ASCII lower-casing, as the prefix listener uses them.
- `JsMaps`: a JavaScript `Map` with string keys. It keeps insertion order, because iteration order decides modal and passive fan-out order, stub order and payload order.
- `Registry`: commands, subcommands and module values. `Load` is one step of the loader's loop and `LoadAll` is the whole loop. `WellFormed` is the invariant the loader keeps.
- `Routing`: one listener per event category. `Dispatch` maps each category bound to an event to the invocations its listener makes, each with its failure policy (log only, or log and reply with the error embed).
- `Sync`: the stub insertion and the payload of `registerSlashCommands`.
- `Handler`: the `CommandHandler` class. Its two registries are fields that its methods update in place, and each method is proved against the functions of `Registry` and `Sync`.
- `Scenarios`: what an interaction reaches once the handler is loaded and synced.
- `Resources`: rows, reviews, the id format and the pure query logic.
- `Store`: the `ResourceStore` class. Its two tables are fields, and each database method is a method on it.

Behaviour worth knowing:
- Autocomplete falls back to the parent command's handler when the named subcommand exists but has no autocomplete handler of its own.
- Commands are stored under `name || ''`, so a category holds at most one nameless command. A modal submission therefore reaches at most two handlers, and at most one when the custom id is empty.
- A slash command's subcommand is chosen by the first option's name alone. Whether that option is a SUB_COMMAND option is not checked.
- Stub parents are written into the live interaction map only when an `interactionCreate` category exists. Otherwise they live in a throw-away map: they are published, but no listener ever runs them.

## Model

| member | source | states |
|---|---|---|
| Registry.Load | src/commandHandler.ts:268-283 | A subcommand without a parent and a command without a type, or with a non-interaction type and no name, leave the registry unchanged. A subcommand is appended to its parent's list and nothing else changes. A kept command is stored under its type and `name \|\| ''`, and every other lookup is unchanged. |
| Registry.LoadWellFormed | src/commandHandler.ts:268-283 | One loading step keeps the registry invariant: maps are valid, each command sits under its own type and key, and each subcommand list sits under its parent. |
| Registry.AppendSubcommandWellFormed | src/commandHandler.ts:271-274 | Appending a subcommand to its parent's list keeps the invariant. |
| Registry.StoreCommandWellFormed | src/commandHandler.ts:279-282 | Storing an accepted command under its type and key keeps the invariant. |
| Registry.LoadAllWellFormed | src/commandHandler.ts:249-289 | Loading any sequence of module values keeps the invariant. |
| Registry.LoadAll | src/commandHandler.ts:249-289 | The loader's loop. Its categories are the old ones plus the type of every accepted command loaded, and no others. |
| Registry.NameKey | src/commandHandler.ts:282 | The key `name \|\| ''`: empty exactly when the name is absent or empty, and the name itself otherwise. |
| Registry.Accepted | src/commandHandler.ts:277-278 | The loader's filter: a type, and a name unless the type is `interactionCreate`; Registry.Load states that exactly these commands are stored. |
| Registry.SubsOf | src/commandHandler.ts:73 | `subcommands.get(p) \|\| []`; Registry.Load and Registry.LoadAllAppendsSubcommands state what it holds. |
| Registry.LoadAllAppendsSubcommands | src/commandHandler.ts:268-274 | After loading, a parent's list is its old list followed by the subcommands naming it, in load order. |
| Registry.LoadAllLastWins | src/commandHandler.ts:276-282 | A later command with the same type and key overwrites an earlier one: the last one loaded wins. |
| Registry.OrphanSubcommandRegistersNothing | src/commandHandler.ts:268-270 | A subcommand whose parent is absent or empty registers nothing in either map. |
| Handler.CommandHandler.constructor | src/commandHandler.ts:36-39 | A new handler holds exactly what loading the module values, in order, into empty maps gives, and is well formed. |
| Handler.CommandHandler.LoadModule | src/commandHandler.ts:268-283 | The loop body changes the registries exactly as `Load` does and keeps the invariant. |
| Handler.CommandHandler.AddSubcommand | src/commandHandler.ts:271-274 | The parent's list (created empty if absent) gets the subcommand pushed on its end. The command maps are untouched. |
| Handler.CommandHandler.StoreCommand | src/commandHandler.ts:279-282 | The type's map (created if absent) maps `name \|\| ''` to the command. The subcommand map is untouched. |
| Handler.CommandHandler.LoadCommands | src/commandHandler.ts:249-289 | The loader's loop leaves the registries equal to `LoadAll` of the module values and keeps the invariant. |
| Handler.CommandHandler.InsertStubs | src/commandHandler.ts:188-204 | The stub loop yields the interaction map with a stub added for each parent it lacked, in parent order. |
| Handler.CommandHandler.RegisterSlashCommands | src/commandHandler.ts:185-239 | The new state is the synced registry. Nothing is submitted when the payload is empty; otherwise the payload is submitted. Submitted names are pairwise distinct. |
| Routing.FirstOptionName | src/commandHandler.ts:72 | The first option's name is present exactly when there is a first option and its name is non-empty. |
| Routing.FindSubcommand | src/commandHandler.ts:76 | Finds a subcommand with the given name from the list, and returns none exactly when no entry has that name. |
| Routing.MatchedSubcommand | src/commandHandler.ts:72-77 | A subcommand is matched exactly when there is a first option with a non-empty name and the parent's list (empty when absent) has a subcommand of that name. The match is the first one of that name in the list. |
| Routing.RoutePrefix | src/commandHandler.ts:46-62 | Something runs exactly when the author is not the bot, the text starts with the prefix, and the lower-cased first word of the trimmed, white-space-split rest is a key of the map; an unregistered first word runs nothing. What runs is the command under that key, with the remaining words as arguments and failures only logged. |
| Routing.PrefixCommandArguments | src/commandHandler.ts:47-58 | A message made of the prefix, white-space padding, a command word in any letter case and arguments separated by any non-empty white-space runs runs the command under the lower-cased word with exactly those arguments, in order, when that key is registered, and runs nothing when it is not. |
| Routing.PrefixWords | src/commandHandler.ts:50-51 | The words of a prefixed message: the trimmed text after the prefix split on white space, always at least one (possibly empty) word. |
| Routing.PrefixedWords | src/commandHandler.ts:50-51 | Trimming and splitting words joined by any white-space runs and padded with white space gives back exactly those words. |
| Routing.RouteSlashCommand | src/commandHandler.ts:68-104 | Something runs exactly when the command name is registered, with the error-reply policy. The named subcommand runs when it is found; otherwise the command runs. |
| Routing.RouteAutocomplete | src/commandHandler.ts:106-130 | Nothing runs exactly when neither the matched subcommand nor the registered parent has an autocomplete handler. The subcommand's handler takes precedence. Failures are only logged. |
| Routing.RouteComponent | src/commandHandler.ts:132-142 | A component runs the command stored under its custom id, and nothing when there is none. |
| Routing.ModalHandlers | src/commandHandler.ts:145-146 | Keeps exactly the nameless commands and those named by the custom id. |
| Routing.HandlesModal | src/commandHandler.ts:146 | The modal filter `!command.name \|\| command.name === custom_id`; its meaning is stated by the contracts of Routing.ModalHandlers and Routing.RouteModal. |
| Routing.RouteModal | src/commandHandler.ts:143-154 | A command runs for a modal submission exactly when it is in the map and is nameless or named by the custom id. Failures are only logged. |
| Routing.ModalHandlersCount | src/commandHandler.ts:145-146 | The number of modal handlers is the number of nameless commands plus the number named by a non-empty custom id. |
| Routing.ModalReachesAtMostTwo | src/commandHandler.ts:143-154 | In a well-formed registry a modal submission reaches at most two handlers, and at most one when the custom id is empty. |
| Routing.RoutePassive | src/commandHandler.ts:158-180 | A pass-through listener runs every command of its map once, in insertion order, with failures only logged. |
| Routing.RouteInteraction | src/commandHandler.ts:67-155 | Each interaction type reaches its own route: slash command, autocomplete, component, modal; any other type runs nothing. Only an application command can lead to an error reply. |
| Routing.RouteCategory | src/commandHandler.ts:43-182 | `onMessage` runs the prefix route on a message and nothing on other events. `interactionCreate` runs the interaction route on an interaction and nothing otherwise. Every other category runs all its commands. Only the interaction listener replies with an error, and only to an application command. |
| Routing.Dispatch | src/commandHandler.ts:41-182 | The listeners that fire are exactly the loaded categories bound to the event's name, each running its category's route. Only the interaction category replies with an error, and only to an application command. |
| Routing.BoundEvent | src/commandHandler.ts:45-46 | A category is bound to the event of its own name, except `onMessage`, which is bound to `messageCreate`; exactly `onMessage` and `messageCreate` listen to messages. |
| Sync.Stub | src/commandHandler.ts:190-201 | A stub is a chat-input interaction command named after the parent, with no options and no autocomplete. |
| Sync.WithStubsSpec | src/commandHandler.ts:186-204 | After stubbing, existing commands are unchanged and every missing parent maps to its stub. Nothing else is added. Existing keys keep their order at the front. |
| Sync.WithStubs | src/commandHandler.ts:188-204 | The stub loop over the parents; what it yields is stated by Sync.WithStubsSpec. |
| Sync.SubcommandOption | src/commandHandler.ts:218-223 | A subcommand is published as a SUB_COMMAND option with its name and options; the description is its own when non-empty and `<name> command` otherwise, so it is never empty. |
| Sync.SubcommandOptions | src/commandHandler.ts:218-223 | One option per subcommand, in order. |
| Sync.ToEntry | src/commandHandler.ts:208-226 | An entry has the command's name and type, and a description exactly for chat-input commands (`No description` when empty). Its options are the command's own followed by one per subcommand. |
| Sync.Payload | src/commandHandler.ts:206-226 | Every command with a type and a name is published and nothing else is. |
| Sync.Publishable | src/commandHandler.ts:207 | The payload filter: an interaction type and a name; Sync.Payload states that exactly these commands are published. |
| Sync.SyncedRegistry | src/commandHandler.ts:185-204 | Without an interaction category the registry is unchanged. Otherwise, in the live interaction map, every stored command keeps its key, value and place, and every parent without a command gets its stub; nothing else is added. Other categories and the subcommands are untouched, and well-formedness is kept. |
| Sync.SyncedInteractionMap | src/commandHandler.ts:186-204 | `get('interactionCreate') \|\| new Map()` with the stubs inserted; Sync.SyncedRegistry and Sync.SyncedInteractionMapWellFormed state its contents. |
| Sync.SyncPayload | src/commandHandler.ts:206-226 | The payload built from the stubbed interaction map; Sync.SyncEntryNamesDistinct and Sync.SyncPublishesOrphanGroup state its properties. |
| Sync.SyncedInteractionMapWellFormed | src/commandHandler.ts:186-204 | The stubbed interaction map is valid and every entry is an interaction command stored under its own name. |
| Sync.SyncPublishesOrphanGroup | src/commandHandler.ts:188-226 | A parent with no interaction command is published as `Manage <parent>` with one option per subcommand. |
| Sync.PayloadNamesFromKeys | src/commandHandler.ts:206-226 | Every published name is the key of one of the commands. |
| Sync.PayloadNamesDistinct | src/commandHandler.ts:206-226 | Commands with distinct keys give pairwise distinct published names. |
| Sync.SyncEntryNamesDistinct | src/commandHandler.ts:185-234 | The payload submitted by the sync never names a command twice. |
| Scenarios.InteractionDispatch | src/commandHandler.ts:66-155 | An interaction reaches the interaction category's listener alone, when it exists, and no listener otherwise. |
| Scenarios.MessageDispatch | src/commandHandler.ts:45-63 | A message reaches `onMessage`, which runs the prefix route, and `messageCreate`, which runs every command of its map; nothing else fires. |
| Scenarios.EmittedDispatch | src/commandHandler.ts:169-180 | Any other named event reaches only the category of that name, which runs every command of its map. An event named `onMessage` reaches nothing. |
| Scenarios.ReportDeleteButton | src/commandHandler.ts:132-142 | Pressing the report-deletion button runs exactly the command registered under its custom id. |
| Scenarios.SyncedGroupHasParent | src/commandHandler.ts:186-204 | When the interaction category exists, the sync leaves each subcommand group with a parent in the live map. |
| Scenarios.SyncedGroupRunsSubcommand | src/commandHandler.ts:70-90 | After the sync, a slash command for a group and one of its subcommands runs that subcommand, stub parent or not. |
| Scenarios.SubcommandOnlyGroupsHaveNoListener | src/commandHandler.ts:186-204 | With no interaction category, a group's stub is published but the same slash command reaches no listener. |
| JsMaps.JsMap.Set | src/commandHandler.ts:279-282 | `set` maps the key to the value and leaves other keys alone. A new key goes last; an existing key keeps its place. |
| JsMaps.JsMap.Values | src/commandHandler.ts:206 | `values()` lists the entries in key insertion order. |
| Text.TrimStart | src/commandHandler.ts:50 | Drops exactly the leading white space. |
| Text.TrimEnd | src/commandHandler.ts:50 | Drops exactly the trailing white space. |
| Text.Trim | src/commandHandler.ts:50 | The input is its leading white space, then the result, then its trailing white space, both runs being all white space. The result neither starts nor ends with white space. |
| Text.TrimPadded | src/commandHandler.ts:50 | Trimming white-space padding gives back the padded text. |
| Text.SplitWs | src/commandHandler.ts:51 | Splitting gives at least one piece; no piece holds white space and only the first and last may be empty. Joining the pieces with the white-space runs cut at gives back the input, and input starting with a non-space gives a non-empty first piece. |
| Text.SplitJoin | src/commandHandler.ts:51 | Pieces joined by any non-empty white-space runs split back into exactly those pieces. |
| Text.LowerChar | src/commandHandler.ts:52 | An upper-case ASCII letter maps to the letter 32 code points later, its lower-case form; every other character is unchanged. |
| Text.Lower | src/commandHandler.ts:52 | Lower-casing keeps the length; Text.LowerAt states it character by character. |
| Text.LowerAt | src/commandHandler.ts:52 | Lower-casing works character by character and keeps the length. |
| Text.StartsWith | src/commandHandler.ts:48 | `startsWith` as the prefix relation on strings; Routing.RoutePrefix and Routing.PrefixThenBody state its use. |
| Resources.Seconds | src/lib/resourceMethods.ts:58 | The timestamp is the whole number of seconds in the clock's milliseconds. |
| Resources.GetResource | src/lib/resourceMethods.ts:4-7 | A row is found exactly when its id is stored, and the row has that id. |
| Resources.ClampRating | src/lib/resourceMethods.ts:57 | The stored rating lies in 1..5 and equals the given one when that is in range. Below 1 gives 1; above 5 gives 5. |
| Resources.NormalizeDescription | src/lib/resourceMethods.ts:125 | A description is cleared exactly when it spells `none` in any case; otherwise it is kept unchanged. |
| Resources.StaffUpdate | src/lib/resourceMethods.ts:70-170 | A staff update changes its one column and sets who acted and when. Every other column is unchanged. |
| Resources.NewResource | src/lib/resourceMethods.ts:211-218 | A new submission is pending and has no staff action. An empty description is stored as null. |
| Resources.Alphabets | src/lib/resourceMethods.ts:259-260 | The letter alphabet is `A`..`Z` and the digit alphabet is `0`..`9`, in order. |
| Resources.Letter | src/lib/resourceMethods.ts:265-266 | The k-th letter is the upper-case letter k places after `A`. |
| Resources.Digit | src/lib/resourceMethods.ts:267-269 | The k-th digit is the digit k places after `0`. |
| Resources.FormatId | src/lib/resourceMethods.ts:264-269 | Every generated id is two upper-case letters followed by three digits. |
| Resources.ParseFormatId | src/lib/resourceMethods.ts:264-269 | The draws that built an id can be read back from it. |
| Resources.FormatParseId | src/lib/resourceMethods.ts:264-269 | Every string of that shape is the id of exactly the draws read from it. |
| Resources.FirstFresh | src/lib/resourceMethods.ts:263-270 | Picks the first draw whose id is not taken; all earlier draws give taken ids. |
| Resources.FirstDuplicate | src/lib/resourceMethods.ts:285-293 | Returns nothing exactly when no active row has the value in the field. Otherwise it returns the id of the first such row. |
| Resources.CheckDuplicate | src/lib/resourceMethods.ts:274-298 | A field outside url/title/tag/author reports no duplicate. Otherwise the first active row with the value is reported. |
| Resources.AllowedField | src/lib/resourceMethods.ts:280-283 | The whitelist `url`, `title`, `tag`, `author`; Resources.CheckDuplicate states that other fields report no duplicate. |
| Resources.HasRated | src/lib/resourceMethods.ts:43-49 | True exactly when some review of the resource is by the reviewer. |
| Resources.RatingsOf | src/lib/resourceMethods.ts:34-37 | Every rating returned comes from a review of the resource, and every review of the resource contributes its rating. |
| Resources.RatingsOfAppend | src/lib/resourceMethods.ts:34-37 | A review appended to the table appends its rating to the list when it is about the resource, and leaves the list alone otherwise: the ratings come in table order. |
| Resources.RatingsOfEmpty | src/lib/resourceMethods.ts:38 | There are no ratings exactly when no review is of the resource. |
| Resources.GetAverageRating | src/lib/resourceMethods.ts:33-41 | `Unrated` exactly when the resource has no review. Otherwise the total is the sum of its ratings and the count is the number of its ratings, which is positive. |
| Resources.Sum | src/lib/resourceMethods.ts:39 | The total of the ratings; Resources.SumBounds bounds it. |
| Resources.SumBounds | src/lib/resourceMethods.ts:39 | The sum of n ratings in 1..5 lies in n..5n. |
| Resources.AverageWithinBounds | src/lib/resourceMethods.ts:33-41 | When every rating is clamped, the average lies in 1..5. |
| Resources.ListedChoices | src/lib/resourceMethods.ts:10-14 | The choices are exactly the active rows of the tag (any tag for `ALL`), as title and id; Resources.ListedChoicesAppend gives their order. |
| Resources.ListedChoicesAppend | src/lib/resourceMethods.ts:10-14 | A row appended to the table appends its choice when it is listed and changes nothing otherwise: the choices keep the rows' order. |
| Resources.Listed | src/lib/resourceMethods.ts:10-12 | The WHERE clause: active, and of the tag unless the tag is `ALL`; Resources.ListedChoices states its use. |
| Resources.FindIdMatch | src/lib/resourceMethods.ts:17 | Finds the first choice whose id equals the search text ignoring case, or reports that none does. |
| Resources.IdMatches | src/lib/resourceMethods.ts:17 | The id equals the search text once both are lower-cased; Resources.FindIdMatch states its use. |
| Resources.WithoutId | src/lib/resourceMethods.ts:20 | Keeps exactly the choices with a different id. |
| Resources.Take25 | src/lib/resourceMethods.ts:30 | A prefix of the choices of length exactly the smaller of 25 and their number: all of them when there are at most 25. |
| Resources.ServedChoices | src/lib/resourceMethods.ts:9-31 | At most 25 choices. With no search text they are the listed choices, cut to 25. |
| Resources.ServedChoicesAreListed | src/lib/resourceMethods.ts:9-31 | Every served choice is an active row of the requested tag. |
| Resources.ServedChoicesIdMatchFirst | src/lib/resourceMethods.ts:16-24 | When the search text equals a listed id, that choice comes first and no later choice has the same id. |
| Resources.ApprovedIsListed | src/lib/resourceMethods.ts:226-239 | An approved resource is offered under its tag and under `ALL`. |
| Resources.DeletedIsHidden | src/lib/resourceMethods.ts:70-84 | A deleted or declined resource is never offered and never reported as a duplicate. |
| Store.ResourceStore.constructor | src/lib/resourceMethods.ts:1 | The database `Client` every method receives is the store; a new one has empty `resources` and `reviews` tables and satisfies the store invariant. |
| Store.ResourceStore.RateResource | src/lib/resourceMethods.ts:51-68 | Fails exactly when the resource is unknown. Otherwise one review is appended, with the clamped rating and the time in seconds. Resources are unchanged. |
| Store.ResourceStore.StaffAction | src/lib/resourceMethods.ts:86-101 | Fails and changes nothing when the id is unknown. Otherwise the row is replaced by its staff update. Reviews are unchanged. |
| Store.ResourceStore.DeleteResource | src/lib/resourceMethods.ts:70-84 | An unknown id fails. Otherwise the row is marked deleted by the staff member at the current time. |
| Store.ResourceStore.ApproveTemporaryResource | src/lib/resourceMethods.ts:226-239 | An unknown id fails. Otherwise the row becomes active, whatever its status. |
| Store.ResourceStore.DeclineTemporaryResource | src/lib/resourceMethods.ts:241-254 | An unknown id fails. Otherwise the row is marked deleted. |
| Store.ResourceStore.EditTitle | src/lib/resourceMethods.ts:86-101 | An unknown id fails. Otherwise only the title and the staff columns change. |
| Store.ResourceStore.EditTag | src/lib/resourceMethods.ts:103-118 | An unknown id fails. Otherwise only the tag and the staff columns change. |
| Store.ResourceStore.EditDescription | src/lib/resourceMethods.ts:120-136 | An unknown id fails. Otherwise the description becomes null for any casing of `none` and the text otherwise; the staff columns change too. |
| Store.ResourceStore.EditUrl | src/lib/resourceMethods.ts:138-153 | An unknown id fails. Otherwise only the url and the staff columns change. |
| Store.ResourceStore.EditAuthor | src/lib/resourceMethods.ts:155-170 | An unknown id fails. Otherwise only the author and the staff columns change. |
| Store.ResourceStore.GenerateResourceId | src/lib/resourceMethods.ts:256-272 | The redraw loop returns the id of the first fresh draw. It has the two-letters-three-digits shape and no row has it. |
| Store.ResourceStore.AddTemporaryResource | src/lib/resourceMethods.ts:206-224 | A fresh, well-shaped id is returned. A pending row for it is appended after all existing rows; nothing else changes. |
| Store.ResourceStore.ServeResources | src/lib/resourceMethods.ts:9-31 | The id-match push, filter, concatenation and slice compute exactly `ServedChoices` of the table's rows. |

## Left out

- File-system traversal, `require`, and the module's default/factory export shapes are not modelled. The loader takes the resolved module values in load order, and a module that fails to load is simply absent.
- Eris is modelled only by outcomes. Listener registration, `createMessage`/`createFollowup` and `bulkEditCommands` appear only as the `Invocation` each event yields and the payload handed over. Network failures and their logging are not modelled.
- Asynchronous scheduling is not modelled. The handlers a `forEach` starts are listed in iteration order, and their interleaving is not.
- `registerEvents` registering two `messageCreate` listeners ('onMessage' and 'messageCreate') is modelled as two categories bound to one event. Registration order and calling `registerEvents` twice are not modelled.
- Handler.CommandHandler.RegisterSlashCommands: the stub map is computed as a value and written back. JavaScript's aliasing of the live map is captured only through that write-back when the category exists.
- The database is an in-memory table keyed by id, with rows in insertion order standing in for SQL row order. SQL errors and the `catch` paths that return `false` or rethrow are not modelled.
- The clock (`Date.now()`) is a parameter in milliseconds. `Math.random()` is a supplied sequence of draws, and GenerateResourceId requires that one of them is fresh, since otherwise the source's loop would not end.
- Resources.ServedChoices: the fuzzy filter (fuzzaldrin) is a parameter, assumed only to return elements of its input. Its ranking and matching are not modelled, so the search branch is stated by membership and by the id match coming first.
- Resources.GetAverageRating: returns the total and the count, not the floating-point quotient. Ratings are integers, so `rating || 0` for a missing rating is not modelled.
- Store.ResourceStore.RateResource: the rating is an integer. A fractional or NaN rating passes through `Math.max(1, Math.min(5, rating))` unchanged in the source and is not modelled.
- Routing.MatchedSubcommand: like the source, it looks only at the first option's name, not at whether that option is a SUB_COMMAND option, so a plain option whose name equals a subcommand's name also selects that subcommand.
- Routing.Dispatch: an `Emitted` event named `messageCreate` or `interactionCreate` stands for such an event without its payload. It reaches the pass-through categories bound to that name, but not the prefix or interaction routing, which need the message or interaction.
- Text.Lower: lower-cases ASCII letters only. `toLowerCase` on other Unicode letters is not modelled.
- `getActiveResourceCountByUser`, `getTotalResourceCountByUser`, `getAverageRatingByUser` and `getReviewCountByUser` are plain COUNT/AVG queries outside this model.
- The `report_resource_delete` button's own body (message editing, embeds) is not modelled. Only its routing is.
