# Open WebUI backend: verified core

A Dafny model of the parts of the Open WebUI backend that are more than plumbing, with proofs that
each part does what it is for. Every module has a simple reference meaning (a declarative matcher, a
fold, a forest, a history of committed states, a set) and shows that the branching, stateful code
refines it on all inputs or over all runs. Where the source updates state in place, the model is a
class whose methods are proved against functions on values; pure code is functions and lemmas.

| module | subject |
|---|---|
| `Like`, `Glob` | the `like` function given to SQLite, and file-name globs compiled into it |
| `ResponseDelta`, `ResponseStream` | streaming deltas, their coalescing, and the snapshot-plus-deltas log in Redis |
| `DeltaMeaning` | what each kind of delta writes, event type by event type |
| `WireFormat` | a codec with the properties that the log asks of its JSON codec |
| `TaskRegistry` | liveness keys, hash and per-item sets under interleaved, non-transactional pipelines |
| `ConfigKeys`, `ConfigPaths`, `ConfigTable`, `ConfigMeaning` | folding flattened rows back into dictionaries, and the startup pipeline |
| `FunctionHistory` | version forests and the production pointer |
| `Credentials` | compare-and-swap on a credential row |
| `ChatMessages`, `UsageBuckets` | message rows and their navigable map; usage per time bucket |
| `AccessGrants` | grants for one user, for all users, and who lost access |
| `Automations`, `Channels` | the scheduler's claim step; exact-set lookup of direct-message channels |

Several promises of the code hold only under a condition. Each such condition is stated as an
if-and-only-if, and the lemmas named beside it give inputs or runs that break the promise when it fails:

- Joining adjacent deltas is sound for an event shape unless it is a delta of kind `type` that
  addresses an item (`AppendsExactly`, `TypeDeltaDoesNotAppend`).
- Putting earlier rounds in front of the output and shifting a delta's index is sound exactly when the
  delta names a non-negative index, or names none while this round already has an item (`ShiftExactly`,
  `ShiftLeaves`).
- Folding flattened rows loses none of their values, in whatever order they come, exactly when the rows
  agree with one another (`RepairKeepsOrphansExactly`, `ConflictLosesAValue`); a value that the
  dictionary already had stays in every order exactly when the rows agree with it
  (`RepairKeepsValueExactly`); and a dictionary's row stays the same in every order exactly when it has
  no such rows, or is an object that already holds what they say (`DictionaryRowStaysExactly`).
- A flattened connection key comes back exactly when it is `Recoverable` (`SplitInvertsFlatten`); a bare
  IPv4 address with a path of one field does not (`AddressIsCut`).
- Two chats can share a message row exactly when one chat id begins with the other and a dash
  (`CollideExactly`).
- The early exits of the revocation check differ from the plain set difference exactly in pending
  users of a resource that has just become public (`RevokedAgreesWithDifference`, `PendingUserIsMissed`).
- Converting grants to the legacy dictionary forgets write grants, and a file's grants, exactly when
  the resource is publicly readable (`GrantsToAccessControl`, `WriteGrantIsForgotten`); the docstring's
  "write grants are preserved" is true of the grant list only.
- A write by a user keeps "no due time is claimed twice" exactly when it does not leave the row active
  with a due time that was claimed before (`SafeWrite`, `Toggle`, `UpdateById`). From every state with
  such a row a second claim follows, by the worker that holds it or by a new one
  (`UnsafeIsClaimedAgain`). The callers work the next run out in an earlier await, so a worker may claim
  it in between (`ClaimedTwice`). The docstring's "can never be double-claimed" is true of the claim
  step alone.
- The counting lookup is right for every request exactly when no surviving member has two rows in the
  channel (`LookupExactly`, `DuplicateRowsMislead`).

## Model

| member | source | states |
|---|---|---|
| Like.CompileIsCorrect | backend/open_webui/internal/db.py:351-378 | For every pattern, escape and value: the compiled expression accepts exactly what the backtracking LIKE predicate of section 8.5 of ISO/IEC 9075-2 accepts; where the standard raises an error, a dangling escape accepts nothing and an escaped ordinary character stands for itself. |
| Like.GreedyIsComplete | backend/open_webui/internal/db.py:369-372 | Pinning each middle segment to its first match by an atomic group, with the last segment as a suffix, finds a match exactly when some placement of the segments exists. |
| Like.LazyStarts | backend/open_webui/internal/db.py:370 | The first way a lazy run followed by a segment can end is right after the segment's leftmost occurrence, and there is none if it does not occur. |
| Like.AtomicEnds | backend/open_webui/internal/db.py:370 | An atomic group offers that one end and no other to the rest of the expression. |
| Like.RegexMeaning | backend/open_webui/internal/db.py:369-378 | The assembled expression fully matches a value exactly when the segments can be placed in order, first and last pinned to the ends. |
| Like.SegmentsMeaning | backend/open_webui/internal/db.py:352-362 | Cutting at `%` and handling escapes character by character says what the declarative predicate says, at every position of pattern and value. |
| Like.MalformedIffDangling | backend/open_webui/internal/db.py:353-368 | A pattern is rejected exactly when it ends in a live escape. |
| Like.DanglingMatchesNothing | backend/open_webui/internal/db.py:349-368 | Such a pattern matches no value. |
| Like.LikeFunction.Cut | backend/open_webui/internal/db.py:352-364 | The loop with its `escaped` flag and growing last segment computes the recursive segmentation. |
| Like.LikeFunction.Call | backend/open_webui/internal/db.py:341-378 | NULL for a NULL argument, otherwise the reference predicate on the lowered arguments, whatever the memo table holds; the table stays within 512 entries, each equal to a fresh compile of its key. |
| Like.PlainPattern | backend/open_webui/internal/db.py:354-362 | A pattern without wildcards and escapes matches itself alone. |
| Like.QuotedPattern | backend/open_webui/internal/db.py:354-362 | A pattern in which every character is escaped matches exactly those characters, wildcards and the escape itself included. |
| Like.OtherEscapesAreNone | backend/open_webui/internal/db.py:355 | An escape of no or of several characters escapes nothing. |
| Like.WildcardsMatch | backend/open_webui/internal/db.py:358-361 | `_` is any one character and `%` any run of them. |
| Glob.ReplacementsTranslate | backend/open_webui/models/files.py:290-295 | The five ordered replacements equal one character-wise translation: no replacement touches another one's output. |
| Glob.TranslationMatches | backend/open_webui/models/files.py:275-295 | From every position on, LIKE with escape `\` on the translation accepts what the glob accepts. |
| Glob.TranslationIsNotDangling | backend/open_webui/models/files.py:289-295 | A translated glob never ends in a live escape. |
| Glob.GlobTheorem | backend/open_webui/models/files.py:275-295 | For every glob and name, LIKE on the pattern is the glob's meaning, and the pattern always compiles. |
| Glob.LowerTranslate | backend/open_webui/models/files.py:326 | Lowering the pattern is translating the lowered glob, for a case map that leaves the metacharacters alone. |
| Glob.SearchTheorem | backend/open_webui/models/files.py:324-326 | The search keeps exactly the names the glob matches, letter case aside; skipping the filter for `%` is sound. |
| ResponseDelta.UpdatePartAppends | backend/open_webui/utils/response.py:529-541 | Merging two texts into a padded list part one after the other is merging their concatenation, failures included. |
| ResponseDelta.UpdateItemAppends | backend/open_webui/utils/response.py:502-603 | The same for a whole item, through every combination of item type and delta kind except kind `type`. |
| ResponseDelta.HandleAppends | backend/open_webui/utils/response.py:472-605 | The same for the event handler: index defaults, items created by a delta, skipped kinds and failures. |
| ResponseDelta.TypeDeltaDoesNotAppend | backend/open_webui/utils/response.py:592-601 | For every other event shape, an output and two texts that joining and applying in turn treat differently. |
| ResponseDelta.AppendsExactly | backend/open_webui/utils/response.py:472-605 | Joining is sound for an event shape if and only if it is not a delta of kind `type` addressed to an item. |
| ResponseDelta.ShiftStays | backend/open_webui/utils/middleware.py:4672-4677 | A delta that stays in its round, shifted past the earlier rounds and applied to the whole output, does to this round what the unshifted one does, padding and failures included. |
| ResponseDelta.ShiftLeaves | backend/open_webui/utils/middleware.py:4672-4677 | For any other delta there are earlier rounds, of non-empty objects, for which it does not. |
| ResponseDelta.ShiftExactly | backend/open_webui/utils/middleware.py:4672-4677 | Shifting is sound for all earlier rounds if and only if the delta names a non-negative index, or none while the round has an item. |
| ResponseDelta.GroupAppends | backend/open_webui/tasks.py:260-263 | One group of equal keys applied once with joined texts has the effect of its deltas one at a time. |
| ResponseDelta.GroupedIsSequential | backend/open_webui/tasks.py:259-264 | Decoding by groups equals applying every delta in order. |
| ResponseDelta.NextGroup | backend/open_webui/tasks.py:260-262 | Finds the maximal run of equal keys and joins its texts. |
| ResponseDelta.LoadDeltas | backend/open_webui/tasks.py:256-264 | The loop computes the fold by groups, hence the delta-by-delta result for appending deltas. |
| DeltaMeaning.MessageText | backend/open_webui/utils/response.py:511-541 | A text delta on a message appends to the "text" of the part it names, filling up missing parts; every other key, part and item stays. |
| DeltaMeaning.NoPart | backend/open_webui/utils/response.py:532-536 | It fails for a part that is no object or lies before the first. |
| DeltaMeaning.NoList | backend/open_webui/utils/response.py:523-527 | It fails for a content that is neither a list nor a text. |
| DeltaMeaning.MessageOther | backend/open_webui/utils/response.py:519-541 | Any other kind goes to the part's field of that name. |
| DeltaMeaning.ReasoningText | backend/open_webui/utils/response.py:565-583 | Reasoning text goes to the content of a reasoning item. |
| DeltaMeaning.ReasoningSummary | backend/open_webui/utils/response.py:546-563 | A reasoning summary goes to its summary, by its own index. |
| DeltaMeaning.Arguments | backend/open_webui/utils/response.py:502-506 | Call arguments are appended to a function call, and fail on arguments that are no text. |
| DeltaMeaning.OtherItem | backend/open_webui/utils/response.py:591-601 | Any other item takes the text in a field of its own. |
| DeltaMeaning.Skipped | backend/open_webui/utils/response.py:502-589 | Kinds and item types that do not go together change nothing. |
| DeltaMeaning.NoItem | backend/open_webui/utils/response.py:496-499 | A negative index changes nothing; an item that is no object is an error. |
| DeltaMeaning.NewItem | backend/open_webui/utils/response.py:481-494 | A delta for an item that is not there adds blank messages up to it and the item itself, with the event's id and the kind's type, and then does what it does to an item that is there. |
| DeltaMeaning.OtherEventsChangeNothing | backend/open_webui/utils/response.py:472-475 | Event types of another form, and `response.delta`, change nothing. |
| DeltaMeaning.StreamedText | backend/open_webui/tasks.py:259-264 | The text deltas of one part leave it with all of their text in order. |
| DeltaMeaning.FirstWords | backend/open_webui/utils/response.py:511-541 | On a blank message the first delta "Hi" of an answer gives the text "Hi". |
| ResponseStream.FrameRoundTrip | backend/open_webui/tasks.py:257-258 | Splitting at newlines, dropping blanks and decoding gives back every framed list of lines. |
| WireFormat.CodecExists | backend/open_webui/tasks.py:224-258 | There is a codec as the log's lemmas ask for: lines come back as they were, and no text is empty or has a newline. |
| ResponseStream.Load | backend/open_webui/tasks.py:256-264 | A stored value decodes to the replay of the lines it frames. |
| ResponseStream.LogReplays | backend/open_webui/tasks.py:204-264 | A snapshot and the deltas that followed it replay to the writer's output right after the last of them. |
| ResponseStream.Stream.Save | backend/open_webui/tasks.py:204-231 | A snapshot write, delivered or lost, acknowledged or not, leaves the stored value one snapshot line followed by consecutive deltas of the writer's history, and reports size 0 unless acknowledged. |
| ResponseStream.Stream.Append | backend/open_webui/tasks.py:241-246 | The script appends if and only if the value has the expected length, and otherwise changes nothing. |
| ResponseStream.Stream.AppendWithRetries | backend/open_webui/tasks.py:237-253 | Any number of identical retries, with the key cleared or expired before any of them, appends the line at most once and never recreates the key; a final positive reply means it is there. |
| ResponseStream.Stream.SendLine | backend/open_webui/utils/middleware.py:4567-4574 | A line is sent exactly when the log stays within twice its snapshot; the size is kept only after a line known to be there. |
| ResponseStream.Stream.Apply | backend/open_webui/utils/middleware.py:4555-4574 | Logging a delta keeps the log a snapshot with consecutive deltas, none duplicated or skipped, at most twice the snapshot long, and never creates a key. |
| ResponseStream.Stream.Change | backend/open_webui/utils/middleware.py:4737-4756 | A change that the log does not record forces the next write to be a snapshot and leaves what is stored a valid log. |
| ResponseStream.Stream.Vanish | backend/open_webui/tasks.py:301-308 | Clearing or expiry at any moment keeps the invariant. |
| ResponseStream.Stream.Read | backend/open_webui/tasks.py:280-290 | A reader sees the output at some position of the writer's history, the current one while appends succeed. |
| TaskRegistry.RunErases | backend/open_webui/tasks.py:101-109 | Any sequence of deletes has the effect of the set of its deletes. |
| TaskRegistry.CleanupErases | backend/open_webui/tasks.py:101-109 | What one cleanup pipeline removes, and that it removes nothing else. |
| TaskRegistry.SameDeletesSameState | backend/open_webui/tasks.py:313-331 | Order and repetition of deletes do not matter. |
| TaskRegistry.OverlappingCleanups | backend/open_webui/tasks.py:313-331 | Every interleaving of two cleanups of a task, one of which may no longer know its item, ends in the state that one cleanup produces. |
| TaskRegistry.InvStep | backend/open_webui/tasks.py:73-132 | Every step of every caller, and expiry, keeps the registry invariant. |
| TaskRegistry.InvAlways | backend/open_webui/tasks.py:73-132 | The invariant holds after every run. |
| TaskRegistry.ListerOnlyPrunesDead | backend/open_webui/tasks.py:112-132 | In no interleaving does a lister prune, or hold a cleanup command for, a task whose key neither expired nor was deleted by an explicit cleanup. |
| TaskRegistry.DeadIdsLeaveTheIndex | backend/open_webui/tasks.py:124-132 | Every dead id that a lister has dealt with is out of the index it read, whatever else runs. |
| TaskRegistry.GoneStaysGone | backend/open_webui/tasks.py:73-98 | A liveness key that has gone never comes back in any run. |
| TaskRegistry.HeartbeatCreatesNothing | backend/open_webui/tasks.py:73-84 | A heartbeat command changes no key, index or history. |
| TaskRegistry.HeartbeatRefreshesAll | backend/open_webui/tasks.py:78-82 | A heartbeat refreshes every task it was given, and sends nothing else. |
| TaskRegistry.PruningFollowsTheHash | backend/open_webui/tasks.py:130-131 | A lister of the hash takes a dead task out of the set of the item that the hash names at that moment. |
| TaskRegistry.Client.SaveTask | backend/open_webui/tasks.py:92-98 | The whole state after an undisturbed save. |
| TaskRegistry.Client.CleanupTask | backend/open_webui/tasks.py:101-109 | The whole state after an undisturbed cleanup. |
| TaskRegistry.Client.ListTasks | backend/open_webui/tasks.py:112-132 | Returns exactly the live ids of the set or the hash it reads; each other id leaves the hash, the streams and the set of the item listed, or else of the item that the hash named, and nothing else changes; with a zero time to live all ids are returned and kept. |
| ConfigKeys.SplitJoin | backend/open_webui/models/config.py:66-68 | Splitting undoes joining for dot-free segments. |
| ConfigKeys.SplitOf | backend/open_webui/models/config.py:60-82 | There is a result that cuts at the first dot after leading digits and otherwise at the last field marker with a non-empty key before it. |
| ConfigKeys.SplitIsUnique | backend/open_webui/models/config.py:60-82 | There is only one. |
| ConfigKeys.SplitFragment | backend/open_webui/models/config.py:60-82 | The scan over the fields with `rfind` finds that cut. |
| ConfigKeys.SplitApiConfigFragment | backend/open_webui/models/config.py:42-82 | The same with the fourteen known fields. |
| ConfigKeys.MarkersInJoin | backend/open_webui/models/config.py:70-75 | Markers inside a joined path are its later segments that begin with a field name. |
| ConfigKeys.NumericComesBack | backend/open_webui/models/config.py:66-68 | A key whose first segment is digits comes back exactly when it has no dot and the path is not one empty segment. |
| ConfigKeys.FieldComesBack | backend/open_webui/models/config.py:70-80 | Any other key comes back exactly when the path begins with a field name and no later segment does. |
| ConfigKeys.SplitInvertsFlatten | backend/open_webui/models/config.py:60-82 | For every non-empty key, dots and field names inside included, and every dot-free path: the pair is recovered if and only if, after a numeric first segment, the key has no dot and the path is not one empty segment, or else the path begins with a field name and no later segment does. |
| ConfigKeys.ApiConfigRoundTrip | backend/open_webui/models/config.py:42-82 | The same for the known fields. |
| ConfigKeys.AddressIsCut | backend/open_webui/models/config.py:66-68 | The key `1.2.3.4` with the path `enable` comes back as key `1` with the rest as its path. |
| ConfigKeys.KnownFieldsComeBack | backend/open_webui/models/config.py:42-57 | Each of the fourteen known fields comes back, for any key that does not begin with digits alone. |
| ConfigPaths.GetAfterAssign | backend/open_webui/models/config.py:85-93 | What every path holds after an assignment: below it the new value, above it the old object with the rest assigned, at incomparable paths the old value. |
| ConfigPaths.AssignCommutes | backend/open_webui/models/config.py:85-93 | Assignments at incomparable paths commute. |
| ConfigPaths.OverwriteExactly | backend/open_webui/models/config.py:85-93 | When a later assignment keeps an earlier plain value, decided from the two rows alone. |
| ConfigPaths.AssignAllLeaves | backend/open_webui/models/config.py:335-360 | After folding compatible rows into an empty object its leaves are exactly the rows. |
| ConfigPaths.SameLeavesSame | backend/open_webui/models/config.py:85-93 | Objects without empty parts are determined by their leaves. |
| ConfigPaths.RebuildTheorem | backend/open_webui/models/config.py:335-360 | Folding the leaves of any object without empty parts, in any order and with any repetition, rebuilds it. |
| ConfigTable.RepairKeepsOrphansExactly | backend/open_webui/models/config.py:321-373 | Whatever order the rows come in, every deleted row's value is in the repaired dictionary at its path if and only if the rows agree with one another. |
| ConfigTable.RepairLosesNothing | backend/open_webui/models/config.py:321-373 | When they agree, each deleted row's value is reachable in its dictionary. |
| ConfigTable.RepairKeepsValueExactly | backend/open_webui/models/config.py:331-366 | In whatever order the rows come, a value of the dictionary, at any path and of any kind, stays there if and only if every row at, above or below that path agrees with it. |
| ConfigTable.DictionaryRowStaysExactly | backend/open_webui/models/config.py:331-370 | A dictionary's row stays the same if and only if it has no rows to fold, or is an object that already holds their values; a row that is no object is replaced by the first of them. |
| ConfigTable.RepairKeepsTheRest | backend/open_webui/models/config.py:331-366 | At a path comparable to no folded one the dictionary holds what it held, or nothing if it held nothing. |
| ConfigTable.ConflictLosesAValue | backend/open_webui/models/config.py:335-360 | A table with the rows `user.permissions.a` and `user.permissions.a.b`, both folded, of which one value is lost in some order. |
| ConfigTable.BlockedStays | backend/open_webui/models/config.py:353-356 | A connection entry that is not an object stays as it is. |
| ConfigTable.RepairSettles | backend/open_webui/models/config.py:310-384 | After a repair no row is left that another repair would fold or rewrite. |
| ConfigTable.SettledIsUnchanged | backend/open_webui/models/config.py:310-384 | On such a table a repair changes nothing. |
| ConfigTable.RenameStep | backend/open_webui/models/config.py:289-299 | One round of the renaming loop keeps "what is already at the new prefix wins, the rest moved with its value". |
| ConfigTable.RenamedMoves | backend/open_webui/models/config.py:276-301 | Name by name: what is under the old prefix is at the same name under the new one, unless that was taken, and nothing else changed. |
| ConfigTable.SeedingKeepsSettled | backend/open_webui/models/config.py:248-273 | Seeding clean defaults gives a later repair nothing to do. |
| ConfigTable.RowPathFamily | backend/open_webui/models/config.py:24-40 | No row is a piece of two dictionaries, and no dictionary or model list is a piece of another dictionary. |
| ConfigMeaning.ConnectionRow | backend/open_webui/models/config.py:335-348 | A row of a connection dictionary, under its name or its old one, is the connection's key, dots and all, and the path inside its object. |
| ConfigMeaning.PlainRow | backend/open_webui/models/config.py:24-40 | A row of any other dictionary, under its name or its old one, is a path, dot by dot. |
| ConfigMeaning.FoldedExactly | backend/open_webui/models/config.py:343-356 | A row is folded unless it is no piece, or is for a connection whose entry is no object. |
| ConfigMeaning.NonBlankNext | backend/open_webui/models/config.py:380 | Blank texts of a model list are dropped, the others kept in order. |
| ConfigMeaning.ModelListText | backend/open_webui/models/config.py:380 | The text of a model list splits at its commas into the items' texts that are not blank. |
| ConfigTable.PipelineLosesNothing | backend/open_webui/config.py:43-46 | What becomes of every row through renaming and repair: it is at its new name with its value, unless a row already had that name, whose value then stays; a folded row's value is at its path when that dictionary's rows agree; a row that is neither folded, a dictionary nor a model list is unchanged; a dictionary's row is unchanged when there is nothing new for it, and keeps each value that the folded rows agree with. |
| ConfigTable.Config.RepairOne | backend/open_webui/models/config.py:321-370 | Folds exactly the orphans of one dictionary into it and changes no other row. |
| ConfigTable.Config.RepairModelLists | backend/open_webui/models/config.py:375-382 | Rewrites model lists as comma-separated text and nothing else. |
| ConfigTable.Config.RepairConfigRows | backend/open_webui/models/config.py:310-384 | The effect on the whole table; the result is settled, and a settled table is unchanged. |
| ConfigTable.Config.RenamePrefix | backend/open_webui/models/config.py:276-301 | No old-prefix key remains, values already at the new prefix are unchanged, unmatched old keys are there with their values, other rows are untouched. |
| ConfigTable.Config.SeedDefaults | backend/open_webui/models/config.py:248-273 | A default without a row gets one if and only if the table is persistent and, for an `oauth.` key, those are too; no row is overwritten. |
| ConfigTable.Config.SeedRegisteredDefaults | backend/open_webui/config.py:43-46 | The startup pipeline is renaming, repair and seeding in that order, and reaches a state in which a further startup changes nothing, when no default is itself an old-prefix key, a flattened piece or a list. |
| FunctionHistory.SpliceKeepsPaths | backend/open_webui/models/function_history.py:60-65 | Every path to a surviving ancestor has a counterpart after the delete. |
| FunctionHistory.SpliceAddsNoPath | backend/open_webui/models/function_history.py:60-65 | Every path after the delete comes from one before. |
| FunctionHistory.SpliceTheorem | backend/open_webui/models/function_history.py:41-70 | Deleting any entry keeps an acyclic forest without dangling parents, and keeps "is an ancestor of" among the survivors in both directions. |
| FunctionHistory.AddTheorem | backend/open_webui/models/functions.py:154-159 | Adding an entry under an existing or null parent keeps the forest and the old relation, and the new entry's ancestors are its parent and that one's. |
| FunctionHistory.WithoutTheorem | backend/open_webui/models/functions.py:212-214 | Dropping a function's history keeps the forest and the relation on all others. |
| FunctionHistory.Tables.DeleteHistoryEntry | backend/open_webui/models/function_history.py:41-70 | The four outcomes, the exact new table, and that the production version always still exists. |
| FunctionHistory.Tables.Write | backend/open_webui/models/functions.py:122-160 | An unchanged save with a version adds nothing; any other adds one entry under the old production version and points to it. |
| FunctionHistory.Tables.SetProduction | backend/open_webui/models/functions.py:136-153 | Only a saved version of the same function can go to production. |
| FunctionHistory.Tables.DropFunction | backend/open_webui/models/functions.py:212-214 | The function goes with all of its history. |
| Credentials.CommitKeepsHistory | backend/open_webui/models/auths.py:234-256 | A commit with fresh tokens keeps: a revision identifies one second-factor state and a stamp one password over the whole history, and no pair of tokens recurs. |
| Credentials.AuthRow.UpdateMfaById | backend/open_webui/models/auths.py:234-256 | Commits exactly when the row still matches; no lost update; of all copies read before, none can commit afterwards; revoking installs a stamp no committed state had; exactly the two tokens of a commit become used. |
| Credentials.AuthRow.RevokeSessions | backend/open_webui/models/auths.py:258-280 | Revokes exactly when the row is still the state that was read; then no challenge or ticket survives, the factors and the absence of a second factor do; nothing changes otherwise. |
| Credentials.AuthRow.UpdatePassword | backend/open_webui/models/auths.py:398-418 | A new password goes in together with a new stamp and revision, without challenges and tickets and with the factors there were, or not at all. |
| Credentials.TwoUpdates | backend/open_webui/models/auths.py:234-256 | A run: of two updates built from one copy the first commits and the second does not. |
| Credentials.AuthRow.Delete | backend/open_webui/models/auths.py:420-425 | The row goes; its history of states is still one in which no token recurs. |
| ChatMessages.HistoryIsLatest | backend/open_webui/models/chat_messages.py:249-306 | Each column of a row holds the value of the last payload that carried it, under either spelling of its key. |
| ChatMessages.LatestNone | backend/open_webui/models/chat_messages.py:290-301 | What a column holds that no payload carried. |
| ChatMessages.LatestPlain | backend/open_webui/models/chat_messages.py:251-273 | Which payload key sets which column. |
| ChatMessages.LatestEither | backend/open_webui/models/chat_messages.py:253-276 | For the columns with two spellings: the first unless it is falsy, then the second; a falsy first alone clears the column. |
| ChatMessages.UsageNext | backend/open_webui/models/chat_messages.py:278-281 | The first payload's usage is taken as it is, a further one is merged in, and the one the row has is not merged twice. |
| ChatMessages.CreatedAtMeans | backend/open_webui/models/chat_messages.py:304 | A row is created at its payload's timestamp, or now. |
| ChatMessages.RepeatsCountOnce | backend/open_webui/models/chat_messages.py:278-281 | Further payloads that carry no usage, or repeat the one the row has in normal form, leave its usage what it was, for every way of merging. |
| ChatMessages.CollideExactly | backend/open_webui/models/chat_messages.py:318-319 | Two chats can share a composite id if and only if one id begins with the other and a dash. |
| ChatMessages.EqualLengthsDoNotCollide | backend/open_webui/models/chat_messages.py:318-319 | Ids of one length never do. |
| ChatMessages.CompositeInjective | backend/open_webui/models/chat_messages.py:318-319 | Without a collision a composite id determines chat and message. |
| ChatMessages.OwnRowsExactly | backend/open_webui/models/chat_messages.py:318-319 | Every row found under a chat's composite ids is the chat's own if and only if no row of another chat begins with its prefix, which holds when no such chat collides with it. |
| ChatMessages.FillStep | backend/open_webui/models/chat_messages.py:335-354 | One backfilled row keeps "everything that was there is unchanged, and what is new came from its payload". |
| ChatMessages.LoadStep | backend/open_webui/models/chat_messages.py:416-437 | One round of the first loop keeps the map keyed by the original message ids. |
| ChatMessages.LinkKeepsInverse | backend/open_webui/models/chat_messages.py:441-449 | One round of the second loop keeps every child list the duplicate-free inverse of the parent links dealt with. |
| ChatMessages.Table.Apply | backend/open_webui/models/chat_messages.py:249-282 | Overwrites exactly the columns the payload carries; a usage is merged unless the row has it already; nothing else changes. |
| ChatMessages.Table.Build | backend/open_webui/models/chat_messages.py:285-306 | A new row is the result of its one payload over the defaults, with its usage, created at its timestamp or now. |
| ChatMessages.Table.UpsertMessage | backend/open_webui/models/chat_messages.py:308-333 | The row is the result of all payloads applied to it so far, keeps its creation time and belongs to the chat that created it; no other row changes. |
| ChatMessages.Table.Backfill | backend/open_webui/models/chat_messages.py:335-354 | Rows that exist win over the payload, missing ones are added, nothing else appears. |
| ChatMessages.Table.LoadMessages | backend/open_webui/models/chat_messages.py:412-437 | Keys are exactly the original ids of the rows that belong to the chat; fields are the visible columns. |
| ChatMessages.Table.LinkMessages | backend/open_webui/models/chat_messages.py:439-449 | Child lists are the exact inverse of the parent links among the messages present. |
| ChatMessages.Table.MessagesMap | backend/open_webui/models/chat_messages.py:395-456 | After any upserts and backfills of any chats: None for a chat without rows, else every message of its rows under its own id with the last payloads' fields, their usage and its creation time; m is a child of p, once, if and only if both are there and the last payload of m that carried a parent named p. |
| UsageBuckets.StartIsFloor | backend/open_webui/models/chat_messages.py:1049-1054 | Rounding hour and minute inside the day is rounding on the whole time line, across midnights. |
| UsageBuckets.StartTheorem | backend/open_webui/models/chat_messages.py:1049-1054 | Bucket starts are fixed points, a time lies in its bucket, and order is kept. |
| UsageBuckets.StepLengths | backend/open_webui/models/chat_messages.py:1045-1047 | The five bucket lengths. |
| UsageBuckets.NormalizeMeans | backend/open_webui/models/chat_messages.py:40-57 | A time of 2020 or later and at most a day ahead counts, in seconds or in milliseconds; any other is now. |
| UsageBuckets.EntryMeans | backend/open_webui/models/chat_messages.py:1049-1054 | An event's bucket is the multiple of the step at or below its shifted local time, under its own model and value. |
| UsageBuckets.SqlEntriesAgree | backend/open_webui/models/chat_messages.py:96-123 | The day that the database works out is the daily bucket of the same event, invalid timestamps included. |
| UsageBuckets.TallyStep | backend/open_webui/models/chat_messages.py:1088-1091 | One row keeps the counts the totals of what was seen. |
| UsageBuckets.Accumulate | backend/open_webui/models/chat_messages.py:1087-1091 | The fold holds the total of every bucket and model that occurs, and nothing else. |
| UsageBuckets.GroupingFirst | backend/open_webui/models/chat_messages.py:1084-1091 | Counting rows that the database has already grouped gives the counts of the rows themselves. |
| UsageBuckets.TallyIsUnique | backend/open_webui/models/chat_messages.py:1087-1091 | The counts are determined by the events, so both paths agree. |
| UsageBuckets.SumOverStep | backend/open_webui/models/chat_messages.py:1088-1091 | One more event adds its value to exactly one bucket. |
| UsageBuckets.Conservation | backend/open_webui/models/chat_messages.py:1087-1091 | A model's buckets add up to all of its events. |
| UsageBuckets.CountsConserve | backend/open_webui/models/chat_messages.py:1087-1098 | The counts of a query, summed over its buckets, give each model the total of its events. |
| UsageBuckets.VisitedExactly | backend/open_webui/models/chat_messages.py:1093-1098 | When the loop is past the end it has visited exactly the bucket starts from the start's bucket to the end. |
| UsageBuckets.BucketInRange | backend/open_webui/models/chat_messages.py:1093-1098 | Any time between start and end belongs to one of those. |
| UsageBuckets.FillGaps | backend/open_webui/models/chat_messages.py:1093-1098 | The loop terminates, adds exactly the missing buckets from the start's bucket to the end as empty ones, and changes no count. |
| UsageBuckets.UsageOverTime | backend/open_webui/models/chat_messages.py:1034-1100 | The same totals on the per-row and the pre-grouped path; gap filling adds only empty buckets, one for every time in the range; every model's total over the answer is that of its events. |
| AccessGrants.UserIds | backend/open_webui/models/access_grants.py:713-741 | All non-pending users for a public grant, otherwise exactly those with access. |
| AccessGrants.RevokedUserIds | backend/open_webui/models/access_grants.py:743-767 | Exactly the users who had access before and have none after, only non-pending ones when the resource was public. |
| AccessGrants.RevokedAgreesWithDifference | backend/open_webui/models/access_grants.py:762-767 | The early exits agree with the full set difference for every non-pending user, and where they differ for a pending one. |
| AccessGrants.PendingUserIsMissed | backend/open_webui/models/access_grants.py:762-767 | A pending user whose grant gives way to a public one is in the difference and is not reported. |
| AccessGrants.FilterIsAccess | backend/open_webui/models/access_grants.py:769-876 | The query filter is ownership or access. |
| AccessGrants.ReadOnlyFilterIsAccess | backend/open_webui/models/access_grants.py:878-981 | The read-only filter is reading without writing and without owning. |
| AccessGrants.AccessControlToGrants | backend/open_webui/models/access_grants.py:83-147 | The converted grants let in exactly whom the dictionary lets in, for every directory, user and permission. |
| AccessGrants.GrantsToAccessControl | backend/open_webui/models/access_grants.py:276-318 | The dictionary lets in exactly whom the grants let in, except that public reading drops every write grant, and for a file the reading too. |
| AccessGrants.WriteGrantIsForgotten | backend/open_webui/models/access_grants.py:276-318 | A public resource that one user may write: the dictionary lets the user write nothing. |
| Automations.SafeWrite | backend/open_webui/models/automations.py:225-245 | Writing a row leaves no active row with a claimed due time if and only if the row written is not one. |
| Automations.ClaimStep | backend/open_webui/models/automations.py:344-346 | A claim moves its row to a later run or to none, and can never be repeated. |
| Automations.ChosenAt | backend/open_webui/models/automations.py:337-346 | A row is claimed exactly when its next run could be worked out. |
| Automations.RescheduledAt | backend/open_webui/models/automations.py:337-346 | Claimed rows get their outcome, all others stay as they were. |
| Automations.Table.TakeEarliest | backend/open_webui/models/automations.py:312-313 | At most `limit` candidates in order of due time, none left out that is earlier than one taken. |
| Automations.Table.SelectDue | backend/open_webui/models/automations.py:306-320 | The batch: due, active, unlocked rows, earliest first, and full when any such row is left. |
| Automations.Table.Commit | backend/open_webui/models/automations.py:335-350 | Exactly the rows that could be evaluated are claimed, with the due times they had, and are no longer due at the batch's time; timed-out rows are unchanged; whatever other workers did, no (automation, due time) is claimed twice unless a user's write put a claimed one back. |
| Automations.Table.Toggle | backend/open_webui/models/automations.py:273-287 | The new row for any next run passed in, and that it is safe if and only if it does not activate the row at a due time claimed before. |
| Automations.Table.UpdateById | backend/open_webui/models/automations.py:225-245 | The new row for any next run, none included, and that it is safe if and only if it does not leave the row active at a due time claimed before. |
| Automations.UnsafeIsClaimedAgain | backend/open_webui/models/automations.py:298-350 | From any state, an active row that waits for a claimed due time is claimed at it a second time, by the worker that holds it or by a new one. |
| Automations.ClaimedTwice | backend/open_webui/models/automations.py:225-350 | A run from an empty table in which an update puts back a due time claimed meanwhile, and it is claimed again. |
| Automations.Table.Insert | backend/open_webui/models/automations.py:133-156 | A new automation, due at any time, is safe. |
| Automations.Table.Delete | backend/open_webui/models/automations.py:289-296 | So does deleting one that nobody holds. |
| Channels.CountIsSize | backend/open_webui/models/channels.py:449-463 | With one row for each survivor, the joined row count is the size of the surviving-member set. |
| Channels.SelectedExactly | backend/open_webui/models/channels.py:449-463 | Then the two counting conditions select a channel if and only if its surviving members are the requested, non-empty set. |
| Channels.DuplicateRowsMislead | backend/open_webui/models/channels.py:449-463 | For any rows in which a survivor appears twice in a channel, a request that selects it wrongly, whether or not the requested accounts exist. |
| Channels.LookupExactly | backend/open_webui/models/channels.py:449-463 | The two conditions are right for every request if and only if no survivor has two rows in the channel. |
| Channels.Tables.InsertNewChannel | backend/open_webui/models/channels.py:351-385 | The creator and the people named, once each, for group and direct-message channels. |
| Channels.Tables.AddMembers | backend/open_webui/models/channels.py:478-502 | Adds exactly the missing ones, inviter included, still one row each. |
| Channels.Tables.JoinOrMute | backend/open_webui/models/channels.py:538-574 | Joining, and muting without a membership (lines 643-665), add a row only when there is none. |
| Channels.Tables.RemoveMembers | backend/open_webui/models/channels.py:504-518 | Removes exactly the named people's rows of the channel. |
| Channels.Tables.DmChannel | backend/open_webui/models/channels.py:442-476 | Finds a direct-message channel whose surviving members are the requested set, duplicates in the request included, whenever there is one. |

## Left out

- Like.LikeFunction.Call: lowering is one fixed map from character to character, so case folding that changes a string's length is not modelled; SQLAlchemy's own lowering of both sides before `like` is called is the same map applied once more.
- Glob.SearchTheorem: says which names pass the filter, not the order, paging and owner filter of the search; assumes that no other character lowers to a metacharacter.
- ResponseDelta.HandleAppends: models text deltas with integer or absent indexes; an index that is explicitly null, a delta that is not text, and `list()` of an object-valued content are outside the event type (the last counts as a failure), as are the event types that do not end in `.delta`.
- ResponseStream.Stream.Apply: one writer per task key; a SET that arrives after its client gave up and a second writer under the same task id are not modelled. A delta that fails in the handler ends the run before it is logged.
- ResponseStream.Load: JSON encoding is any codec with a round trip and no newline in its text (`WireFormat` shows that there is one), and numbers are decimal as written; the chat and message ids next to the output and the check that a stream belongs to the chat asked for are left out.
- TaskRegistry.Client.ListTasks: describes a call with nobody else active; the interleaved case is the state machine and its lemmas.
- TaskRegistry.InvStep: the process-local tables of `create_task` and `cleanup_task`, cancellation and the stop-command listener are left out; task ids are fresh, and a liveness key's time to live is an expiry step that may come at any time.
- ConfigPaths.AssignPath: nested dictionaries are updated on values, so aliasing between the stored value and the one being repaired, and the change tracking of the database session that depends on it, are not captured; an assigned row persists.
- ConfigTable.RepairKeepsValueExactly: the order in which dotted and alias rows come is taken as arbitrary; the source takes the alias rows last, so with rows under both spellings a value that a dotted row overwrites may be written back by an alias row. The condition is enough in every order, and exact when all rows to fold have one spelling.
- ConfigTable.DictionaryRowStaysExactly: the same.
- ConfigTable.Config.RepairOne: the LIKE on a key prefix is starts-with; on SQLite it may return further rows, which the source and the model both skip by checking the prefix again.
- ConfigTable.Config.RenamePrefix: the LIKE on the old prefix is starts-with, and the prefixes must not begin with one another, as the one call of the source has it.
- ConfigTable.Config.SeedRegisteredDefaults: the whole default table is a parameter; idempotence needs that no default is an old-prefix key, a flattened piece or a list.
- ConfigKeys.SplitOf: `isdigit` means the ten ASCII digits.
- Reading and writing single configuration keys (`get`, `get_many`, `upsert`): maps with a default, easy members.
- FunctionHistory.Tables.Write: merging of metadata, valve validation, imported snapshots that do not match and the row lock are left out; a configuration is one opaque snapshot, and entry ids are fresh.
- Credentials.AuthRow.UpdateMfaById: a transaction that is rolled back leaves no trace and is no step; challenge limits, recovery codes and the password hash are opaque, e-mail changes and sign-in are left out.
- ChatMessages.Table.Apply: reading, normalising and merging usage are any functions; the update time is left out.
- ChatMessages.Table.Build: the user id is left out.
- ChatMessages.Table.MessagesMap: the copy of the usage under `info` is left out.
- UsageBuckets.UsageOverTime: the zone has a fixed offset, the clock does not move during one query, times are whole milliseconds, and buckets are numbers where the source formats them as text; daylight-saving changes are left out.
- AccessGrants.FilterIsAccess: documents have an owner; a SQL NULL owner is not modelled. Group inheritance is part of the directory.
- Normalising grant lists, replacing a resource's grants and listing accessible ids: set operations on the same rows, easy members.
- Automations.Table.Commit: the next run lies after the batch's time, which is the contract of `next_run_ns`; the SQLite dialect, which takes no row locks, is not modelled.
- Automations.Table.Toggle: reading and writing the row is one step that waits for locks.
- Automations.Table.UpdateById: the same.
- Channels.Tables.JoinOrMute: only who is a member is modelled, not the mute flag, read times, pins and roles; operations on one channel come one after the other, since two concurrent joins can add two rows.
- Password hashing, OAuth, connection set-up, webhooks, the chat-completion orchestration and the frontend: I/O or libraries.
