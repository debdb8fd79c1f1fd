# A verified model of rail2ban

rail2ban reads log files, counts failures per host, bans hosts and remembers
the bans across restarts. This project models the parts of it that carry their
own algorithms and state, and proves what they promise over all inputs, all
runs and all reachable states. `dafny verify dfyconfig.toml` checks everything.

* **Interpolation** (`Interpolator`, `InterpolatorSemantics`,
  `InterpolatorLookups`): the depth-bounded evaluator for `%(name)s`, `%%` and
  nested `<...>` tags equals an unbounded derivation relation cut at a height;
  reference cycles always fail; every form of reference reads its places in
  order.
* **Configuration files** (`IniParser`, `IniReading`, `IniRoundTrip`,
  `Includes`, `IncludeWalks`, `IncludeNames`): what every line means and which
  are errors; printing and parsing are inverse on exactly the parser's image;
  include resolution fails exactly on bad walks, and its result reads like the
  last write of the depth-first order.
* **Filter tags** (`Tags`, `TagPatterns`): the compiler gives the structural
  translation of a pattern exactly when no tag is nested inside itself.
* **Failures** (`Failures`, `FailManager`, `FailWindow`, `FailTickets`): the
  pruned window and the ticket equal definitions over the whole history.
* **Bans** (`BanManager`, `BanTables`, `Store`, `StoreSteps`, `Bantime`,
  `BanFate`, `IgnoreCache`, `JailTask`, `Jail`, `Outcomes`): the ban map, the
  two tables, what each jail operation leaves in them, and what becomes of a ban
  of a given length.
* **The whole system** (`Lifecycle`, `Coverage`, `StoreHistory`, `JailHistory`,
  `Panics`, `Restart`, `Server`, `Unbanning`): jails, server and store
  interleaved call by call, with panics and crashes; no stored ban that has its
  row is forgotten, an unban reaches every jail, a restart ends and restores
  exactly what has not expired, and the tables keep their integrity exactly when
  no crash cuts a removal at the wrong place.
* **Web access** (`Sessions`, `Logins`, `Auth`, `AuthHistory`, `RateLimits`,
  `RateLimiting`): sessions are earned by a right password; pruned session and
  request tables answer as the full history would.
* **Durations** (`Numbers`, `TimeValues`, `TimeGrammar`).

Code that changes state is a class or a method with loops, proved against
functions on values; the theorems are about those functions and about runs of
them. A call under a lock is one atomic step, with one exception: a call on the
store is two SQL statements without a transaction, and a crash may come between
them. A panic ends the task of its jail. Clocks, random
draws, name resolution, hash-map order and the verdicts of outside commands are
inputs of the steps that use them, so the results hold for every such value.

Where code and documentation disagree the model follows the code:

* `README.md:319` calls `bans` append-only; removing a ban deletes its newest
  row (`BanTables.RemoveBanDeletes`).
* A permanent ban time becomes the largest unsigned number and then -1, so the
  ban is over the moment it is made; lengths in between panic
  (`BanFate.FateIsRight`).
* `docs/MANUAL.md:710` says that escalation counts the earlier bans of an
  address; it counts only those that no expiry, unban or flush has taken back,
  because each of these deletes the ban's row (`StoreHistory.EscalatesIffUnremoved`).
* A crash inside a removal can leave a current ban without its row, which no
  restart restores (`StoreHistory.CrashCanOrphan`).
* A manual ban never reaches the store (`Jail.Jail.ManualBan`), so it does not
  survive a restart.
* `src/filter/tags.rs:71` puts the prefix of a mapped address before the host
  group; the expression has it inside the group (`TagPatterns.Spelling`).
* The ignore cache is not least-recently-used: storing a key again keeps its
  position (`IgnoreCache.Cache.Insert`).
* The set of visited names that the interpolator passes along is never
  consulted; the depth limit is its only guard and the model has only that.
* A number without unit ends a duration and the rest of the text is ignored
  (`TimeGrammar.LastingIff`).

## Model

| member | source | states |
|---|---|---|
| `InterpolatorSemantics.Interpolate` | src/config/interpolator.rs:40-44 | the result is the evaluator's with limit 10: a text has the value `v` exactly when a derivation of its expansion to `v` of height at most 10 exists |
| `InterpolatorSemantics.ExpandIffDerivable` | src/config/interpolator.rs:45-136 | for every text, depth and limit: the depth-bounded evaluator is sound and complete for the unbounded expansion relation, cut at height `limit - depth` |
| `InterpolatorSemantics.ExpansionDeterministic` | src/config/interpolator.rs:45-136 | a text has at most one expansion, whatever the heights of its derivations |
| `InterpolatorSemantics.OutcomeStable` | src/config/interpolator.rs:51-55 | an outcome other than the recursion error, value or error, is the same at every smaller starting depth |
| `InterpolatorSemantics.CycleAlwaysFails` | src/config/interpolator.rs:51-55 | a text on a cycle of references, or that refers into one, is an error at every depth and for every limit |
| `InterpolatorSemantics.CycleNotDerivable` | src/config/interpolator.rs:45-136 | no text of a set whose members all refer back into the set has a derivation, of any height |
| `InterpolatorSemantics.ReferenceDerived` | src/config/interpolator.rs:74-128 | a derivation contains a smaller one of every text that its own text refers to, through a variable, a tag or a tag's own nested tags |
| `InterpolatorSemantics.ReadsWhatIsWritten` | src/config/interpolator.rs:60-131 | scanning the written form of any well-formed item followed by anything reads back that item and that rest, balanced nested tags included |
| `InterpolatorSemantics.ReadItemSound` | src/config/interpolator.rs:60-131 | what the scan reads is well-formed and its written form is the text that was read |
| `Interpolator.ReadTag` | src/config/interpolator.rs:88-113 | the loop with its nesting counter stops at the closing bracket of the opening one, or reports that none exists |
| `Interpolator.ReadUntil` | src/config/interpolator.rs:138-152 | reads up to the first end character and consumes it; none found is reported |
| `Interpolator.ResolveTag` | src/config/interpolator.rs:204-217 | nested tags are expanded one level deeper, then the tag is looked up under the resulting name |
| `Interpolator.InterpolateInner` | src/config/interpolator.rs:45-136 | the loop over the character iterator computes the evaluator `Expand`, error for error |
| `InterpolatorLookups.KnownFormsAgreeIff` | src/config/interpolator.rs:164-171 | `%(known/x)s` and `<known/x>` agree exactly when init and known do not hold different values for the name |
| `InterpolatorLookups.QualifiedName` | src/config/interpolator.rs:156-183 | `%(section/parameter)s` reads that section, except that sections called `default` and `known` are shadowed |
| `InterpolatorLookups.DynamicTag` | src/config/interpolator.rs:231-250 | `<lt_v/parameter>` reads the section chosen by the value of `v`, else by `v`; absent means empty, never an error |
| `InterpolatorLookups.PlainVariable` | src/config/interpolator.rs:183-197 | `%(key)s`, blanks around the key or not, in any text: stands for what the current section, else the defaults, else the builtins hold for the key, and is an error naming the key exactly when none does |
| `InterpolatorLookups.QualifiedVariable` | src/config/interpolator.rs:156-183 | `%(section/parameter)s` in any text: the section's value; for `default` the defaults and then the builtins, for `known` the known values and then the init ones; else an error naming the key |
| `InterpolatorLookups.PlainTag` | src/config/interpolator.rs:273-284 | `<key>` in any text: what the init values, else the defaults, else the builtins hold; a tag that none of them holds stays as it is written |
| `InterpolatorLookups.KnownTag` | src/config/interpolator.rs:219-229 | `<known/parameter>` in any text: the init values, then the known ones, else an error naming the tag |
| `InterpolatorLookups.SectionTag` | src/config/interpolator.rs:230-270 | `<lt_v/parameter>` and `<ipt_v/parameter>` in any text: the section is the prefix and the init value, else the default, else the name `v`; what it does not hold is empty |
| `InterpolatorLookups.BadTag` | src/config/interpolator.rs:231-257 | a section tag without a slash is an error naming it |
| `InterpolatorLookups.BadInnerTag` | src/config/interpolator.rs:210-217 | an error in a tag inside a tag is the error of the whole |
| `Ini.ValueIff` | src/config/parser.rs:27-29 | a lookup gives a value exactly when the first section of the name holds it in its first entry for the key |
| `InterpolatorLookups.PercentSigns` | src/config/interpolator.rs:60-73 | `%%` is a percent sign; a `%` without a parenthesis, a parenthesis that is not closed, and a depth beyond the limit are the three errors |
| `InterpolatorLookups.PlainText` | src/config/interpolator.rs:131 | text without `%` and `<` stands for itself, in front of anything |
| `InterpolatorLookups.UnclosedTag` | src/config/interpolator.rs:110-113 | a `<` that is never closed stands for itself, with all that follows |
| `IniRoundTrip.RoundTrip` | src/config/parser.rs:116-178 | printing any canonical document, with any indentation and with repeated section names, and parsing it gives back the same ordered sections and entries |
| `IniRoundTrip.CanonicalIffParsed` | src/config/parser.rs:116-178 | a document is canonical exactly when some text parses to it: the round trip covers the parser's whole image |
| `IniRoundTrip.ParsedIsCanonical` | src/config/parser.rs:116-178 | every document that parsing returns is canonical |
| `IniRoundTrip.ContinuationLine` | src/config/parser.rs:142-149 | an indented line after a key appends to that key's value and nothing else |
| `IniRoundTrip.InterpretCanonical` | src/config/parser.rs:142-175 | every line, header, entry or continuation, keeps what was parsed so far canonical |
| `IniReading.ReadLineIff` | src/config/parser.rs:120-140 | nothing is read of a blank line or one that starts with `#`; any other line reads as its text, exactly when the line is that text with white space around it and perhaps a semicolon comment with a blank before it |
| `IniReading.SkippedLine` | src/config/parser.rs:132-138 | a blank line and a line that starts with `#` change nothing |
| `IniReading.HeaderBegins` | src/config/parser.rs:152-164 | `[name]` begins a section of the trimmed name with no entries and no current key, whatever follows the bracket |
| `IniReading.EntrySets` | src/config/parser.rs:166-175 | `key = value`, blanks and a comment or not, sets the trimmed key to the trimmed value in the last section, in the key's place or at the end, and changes nothing else |
| `IniReading.ContinuationAppends` | src/config/parser.rs:142-149 | an indented line behind an entry, whatever it looks like, becomes the value of an empty entry or one more line of its value |
| `IniReading.LineErrorIff` | src/config/parser.rs:152-174 | exactly which lines are which error: a header without bracket, a text without `=`, an entry before any section |
| `IniReading.ParseErrorIff` | src/config/parser.rs:116-178 | a file is an error exactly for its first bad line, with that line's number from 1 |
| `IniParser.StripComment` | src/config/parser.rs:188-198 | cuts at the first semicolon that follows a blank, computing the specification `StripInlineComment` |
| `IniParser.ProcessLine` | src/config/parser.rs:120-175 | one iteration over a line changes the document and the current key as `ParseLine` says, with the same error and line number |
| `IniParser.ParseIni` | src/config/parser.rs:116-178 | the loop over lines computes `Parse` |
| `Includes.MergeInto` | src/config/parser.rs:105-113 | merging in place computes `Merge` |
| `IncludeWalks.MergeIsLastWins` | src/config/parser.rs:105-113 | after a merge every lookup gives the last write of the other document, or else the old value |
| `Includes.ResolveIncludes` | src/config/parser.rs:211-252 | computes `Resolve`, terminates on every finite file system, and on success leaves the set of files being resolved as it was |
| `Includes.IncludeEach` | src/config/parser.rs:231-248 | resolves and merges the files of one include list in order, stopping at the first error |
| `IncludeWalks.FailsIffBadWalk` | src/config/parser.rs:211-252 | resolution fails exactly when some walk along the includes enters a file twice or ends at one with an include that cannot be found, read or parsed |
| `IncludeWalks.CycleReportedIff` | src/config/parser.rs:217-224 | when every reachable file loads, the only error is a cycle, reported exactly when some walk comes back to a file; a file included twice on different walks is fine |
| `IncludeWalks.ErrorHasWalk` | src/config/parser.rs:211-252 | every error is explained by a walk: one that clashes for a cycle, one whose last file has the failing include otherwise |
| `IncludeWalks.SuccessHasNoBadWalk` | src/config/parser.rs:211-252 | after success no walk, of any length, clashes with the files on the path or is stuck |
| `IncludeWalks.ReadsLikeFlat` | src/config/parser.rs:226-251 | every lookup in the result gives the last write in the depth-first order before, self, after |
| `IncludeWalks.ResolvedIsDistinct` | src/config/parser.rs:92-101 | a resolved document names no section and no key twice |
| `IncludeNames.PartsOfList` | src/config/parser.rs:265-277 | splitting any list of names written with white space and commas gives the names in order |
| `IncludeNames.LocateFindsFirst` | src/config/parser.rs:283-308 | an include is the first existing candidate: next to the including file, then each search directory; none exactly when none exists |
| `IncludeNames.NamedIff` | src/config/parser.rs:260-281 | a file is included exactly when some section called INCLUDES, not only the first, lists it |
| `IncludeNames.NamesInOrder` | src/config/parser.rs:260-281 | the lists of all INCLUDES sections count, in the order of the sections |
| `IncludeNames.LoadIs` | src/config/parser.rs:181-185 | an include is the document of the first candidate that exists, or the error that none exists, that it cannot be read, or that its text is malformed |
| `Tags.CompileTags` | src/filter/tags.rs:73-93 | the scan computes `Compile`; on well-formed UTF-8 it never cuts inside a character |
| `Tags.CompileNext` | src/filter/tags.rs:80-90 | one iteration takes the tag at the front or one whole character, and leaves the rest to be compiled |
| `Tags.ExpandTag` | src/filter/tags.rs:148-161 | computes `Expand`: what it is, group by group, is `TagPatterns.CompilesIffNotSelfNested`; inner errors are passed on |
| `Tags.MatchTag` | src/filter/tags.rs:109-146 | a match consumes something, and both the inner text and what is left are whole characters |
| `Tags.Boundary` | src/filter/tags.rs:95-105 | in well-formed text every place before a byte that is no continuation is a character boundary |
| `TagPatterns.CompilesIffNotSelfNested` | src/filter/tags.rs:73-93 | for every pattern tree: its text compiles exactly when no tag is nested inside itself, and then to the translation in which a pair is `(?P<`, its group's name, `>`, the whole translation of the body and `)`, with the top-level tags in order |
| `TagPatterns.Spelling` | src/filter/tags.rs:31-161 | the words of the nine tags, the groups of the seven pair tags and the two fixed expressions |
| `TagPatterns.GroupsDiffer` | src/filter/tags.rs:148-161 | no two tags become groups of one name |
| `TagPatterns.BodyIsKept` | src/filter/tags.rs:148-161 | two pairs with the same translation have bodies with the same translation |
| `TagPatterns.UnknownTagIsText` | src/filter/tags.rs:117-128 | a tag of any other name is copied as text |
| `TagPatterns.TextIsCopied` | src/filter/tags.rs:86-90 | text without `<` is copied, in front of anything |
| `TagPatterns.WhichError` | src/filter/tags.rs:112-141 | an opening bracket with no closing one is the first error, an opening pair tag with no closing tag the second |
| `TagPatterns.CodePointIsCharacter` | src/filter/tags.rs:95-105 | the UTF-8 bytes of every code point are well-formed and as long as their first byte says |
| `TagPatterns.Unclosed` | src/filter/tags.rs:136-141 | any text with an opening pair tag and no matching closing tag is an error, wherever the tag is and whatever is around it |
| `TagPatterns.FindsOwnClosing` | src/filter/tags.rs:134-141 | the first closing tag found is the right one when the body has no such closing tag |
| `TagPatterns.MatchCutsEarly` | src/filter/tags.rs:134-145 | with another such closing tag in the body the match ends after an unclosed inner opening tag |
| `TagPatterns.ClosingAfterOpening` | src/filter/tags.rs:134-145 | in the text of any pattern every closing tag comes after an opening tag of the same name |
| `FailManager.FailManager.AddFailure` | src/server/failmanager.rs:71-140 | the method's new state and result are the specification `Failures.AddFailure` |
| `FailManager.FailManager.Update` | src/server/failmanager.rs:85-128 | prunes, pushes and truncates one ticket as the specification `Observe` |
| `FailManager.FailManager.ForgetMlfid` | src/server/failmanager.rs:143-150 | removes the binding of the MLFID and nothing else |
| `FailManager.FailManager.Remove` | src/server/failmanager.rs:153-156 | takes the host's ticket out and returns it |
| `FailManager.FailManager.Purge` | src/server/failmanager.rs:176-181 | drops exactly the tickets with no time recent enough |
| `FailWindow.WindowIsHistory` | src/server/failmanager.rs:71-181 | over every history of observations, MLFID resets, removals and purges: a host's times are exactly its failures since its last reset that were never too old for a later observation of it, in order |
| `FailWindow.TriggersOnLiveFailures` | src/server/failmanager.rs:129-139 | an observation triggers exactly when it is a failure and the number of live failures, cut to 32 bits, reaches maxretry; it reports exactly those times |
| `FailWindow.PurgeInvisible` | src/server/failmanager.rs:176-181 | if no observation is stamped before an earlier purge, every observation triggers with the purges exactly when it does without them |
| `FailWindow.PurgesSimulated` | src/server/failmanager.rs:85-181 | the run with purges and the run without them have the same MLFID bindings and windows that differ only by what a purge emptied |
| `FailWindow.LateStampsSeePurges` | src/server/failmanager.rs:176-181 | without that condition it fails: two failures five seconds apart, the second read after a purge, trigger only without the purge |
| `FailWindow.PurgeVisibleIff` | src/server/failmanager.rs:176-181 | a purge shows at the next observation of a host exactly when it dropped the host's ticket and the ticket held a time the observation would still have counted |
| `FailTickets.TicketIsHistory` | src/server/failmanager.rs:90-128 | over every history: a host has a ticket exactly when it was observed since the last one was taken away; the ticket has the first known address, user and other user, the MLFID of the first observation, the first lines up to the maximum, and the flag of the last observation that was no success |
| `FailTickets.TriggerTells` | src/server/failmanager.rs:129-139 | the ticket that a trigger reports is that one |
| `BanManager.BanManager.AddBan` | src/server/banmanager.rs:72-81 | the ticket is stored under its host; the result says whether the host was new |
| `BanManager.BanManager.RemoveBan` | src/server/banmanager.rs:84-87 | the host's ticket is taken out and returned |
| `BanManager.BanManager.Expired` | src/server/banmanager.rs:113-125 | exactly the expired tickets are taken out and returned, each once; it panics, with nothing changed, exactly when the end of some ban is outside the calendar |
| `BanManager.BanManager.Clear` | src/server/banmanager.rs:128-132 | every ticket is taken out and returned, each once |
| `Store.Database.AddBan` | src/server/database.rs:61-80 | the row is added to `bans` and made the current one in `bips` |
| `Store.Database.RemoveBan` | src/server/database.rs:83-94 | the newest row of the pair and its current ban are deleted |
| `Store.Database.RemoveBanAllJails` | src/server/database.rs:97-102 | every row of the address is deleted from both tables |
| `Store.Database.RemoveAllBans` | src/server/database.rs:105-110 | both tables are emptied |
| `Store.Database.BanCount` | src/server/database.rs:114-122 | the number of rows of the pair in `bans` |
| `Store.Database.Purge` | src/server/database.rs:127-148 | expired current bans go first, then old rows that are not current |
| `StoreSteps.IntegrityIff` | src/server/database.rs:61-148 | over any sequence of calls, complete or cut by a crash after their first statement: integrity holds all along exactly when it holds at first and no cut comes after a removal has deleted the row of a current ban |
| `StoreSteps.CutKeepsIff` | src/server/database.rs:61-148 | cutting a call after its first statement keeps integrity exactly when that statement did not delete the row of a current ban; the orders of adding and purging are safe |
| `StoreSteps.WholeMakesNoOrphan` | src/server/database.rs:61-148 | a complete call never leaves a new current ban without its row, whatever the tables hold |
| `StoreSteps.OrphanStaysIff` | src/server/database.rs:61-148 | a current ban without its row stays so exactly until its own pair is banned again or removed; a purge does not take it away |
| `StoreSteps.OrphanNotListed` | src/server/database.rs:152-174 | no listing shows a current ban without its row |
| `StoreSteps.NewestThroughout` | src/server/database.rs:61-148 | without crashes and with increasing ban times the current ban of a pair is always its newest row |
| `StoreSteps.CountIsUnremoved` | src/server/database.rs:61-122 | the number of rows that escalation counts is the number of bans of the pair that no removal, cut or complete, has taken back |
| `BanTables.ListingIsCurrentBans` | src/server/database.rs:152-174 | for any tables, the join returns exactly one row per current ban that has its row, with its time and duration |
| `BanTables.ListingExists` | src/server/database.rs:152-174 | any tables have a listing: those current bans ordered by time |
| `BanTables.AddThenRemove` | src/server/database.rs:61-94 | adding a ban and removing it restores `bans` exactly if and only if the ban is newer than every recorded one of its pair |
| `BanTables.RemoveBanDeletes` | src/server/database.rs:83-94 | with the current ban the newest, removing deletes exactly its row and the current ban, so `bans` is not append-only and the next ban counts one less |
| `BanTables.PurgeKeepsCurrentBans` | src/server/database.rs:127-148 | a purge keeps integrity and every current ban that is not over, with its row |
| `BanTables.PurgeLeaves` | src/server/database.rs:127-148 | a purge deletes exactly the current bans whose row ended before now, and exactly the rows older than the maximum age that are then no current ban |
| `BanTables.RemovesAddress` | src/server/database.rs:97-102 | removing an address deletes exactly its rows from both tables |
| `Jail.Jail.ProcessLine` | src/server/jail.rs:168-243 | a matched line leaves failures, bans and store as the specification says, whatever the inputs, and panics exactly when it does |
| `Jail.Jail.IssueBan` | src/server/jail.rs:293-387 | the ban goes to the store, then to the manager, and the failures are forgotten; a duration out of range panics before any of that |
| `Jail.Jail.ManualAttempt` | src/server/jail.rs:522-541 | counts an attempt and bans at the threshold without the ignore checks |
| `Jail.Jail.ManualBan` | src/server/jail.rs:389-433 | puts a ticket in the ban map and leaves the store as it is, or panics over the duration |
| `Jail.Jail.ManualUnban` | src/server/jail.rs:435-457 | removes the ban from map and store when the map has it, else does nothing; what is left is `Outcomes.UnbanUnbans` |
| `Jail.Jail.FlushAllBans` | src/server/jail.rs:462-520 | empties the ban map and deletes each of its hosts from the store |
| `Jail.Jail.RestoreBan` | src/server/jail.rs:545-576 | an expired restore deletes the stored ban, any other goes to the ban map; an impossible duration or end panics |
| `Jail.Jail.PurgeExpiredBans` | src/server/jail.rs:612-654 | takes exactly the expired bans out of map and store, and purges failures, or panics with nothing changed |
| `Jail.Jail.ComputeBantime` | src/server/jail.rs:578-609 | counts the earlier bans and computes the specification, whose length for every configuration is `Bantime.LengthIsRight` |
| `Outcomes.UnbanUnbans` | src/server/jail.rs:435-457 | after an unban of a banned host the map is the old one without it, it is no current ban and its newest row is gone, and every row of other pairs is as before; for any other host nothing changes |
| `Outcomes.FlushEmpties` | src/server/jail.rs:462-520 | after a flush the map is empty, each host that was in it has no current ban and one row less, and every other row is as before |
| `Outcomes.TickDropsExpired` | src/server/jail.rs:612-654 | after a tick or a stop that does not panic the map has exactly the bans that are not over, and exactly the others are taken back in the store; failures keep exactly the tickets with a recent time |
| `Outcomes.BanBans` | src/server/jail.rs:389-433 | after a manual ban the address is in the map with the computed length from now, and the store is as before; it panics exactly when the length is no duration |
| `Outcomes.AttemptBans` | src/server/jail.rs:522-541 | an attempt counts one failure now and bans the address in map and store exactly when the count reaches max(1, maxretry) |
| `Outcomes.LineBans` | src/server/jail.rs:168-243 | a line that counts bans its host in map and both tables with the ticket and the row written out, or forgets its failures when ignored, or only counts |
| `Outcomes.LineForgets` | src/server/jail.rs:183-205 | a line that forgets an MLFID, or has an unresolved name with DNS off, changes at most that binding |
| `Outcomes.RestoreRestores` | src/server/jail.rs:545-576 | a restored ban is in the map as it was stored, or taken back when its end has come, and panics exactly when its length or its end is out of range |
| `Unbanning.UnbanReaches` | src/server/server.rs:374-401 | once the server has come to a jail with an unban or a flush, while no ban of the address is on its way, any run that asks for none ends with the jail, when its commands are taken in, not banning the address |
| `Unbanning.DroppedStaysGone` | src/server/server.rs:374-390 | and once the address is dropped from the store, no such run puts a row of it back in either table |
| `JailTask.BansAtThreshold` | src/server/jail.rs:206-243 | a matched line wants a ban exactly when it is a failure, the count reaches max(1, maxretry) and the ignore checks pass; it then bans the host the failures were counted for, or panics exactly when the duration is out of range |
| `JailTask.ObservationKeepsBelow` | src/server/failmanager.rs:71-140 | an observation triggers exactly at the threshold, and removing the triggering ticket leaves all others below it |
| `JailTask.LineKeepsBelow` | src/server/jail.rs:168-243 | every line that does not panic leaves every host below the threshold |
| `JailTask.CommandKeepsBelow` | src/server/jail.rs:756-788 | so does every command |
| `BanFate.FateIsRight` | src/server/banmanager.rs:33-46 | for every length and date: making the ban panics exactly between the library's longest duration and its negative counterpart; a ban lasts as long as configured exactly up to that duration and the calendar's end; a negative one, the permanent one among them, is over at once unless it reaches back before the calendar |
| `BanFate.BothAreMade` | src/server/jail.rs:420-431 | the tickets of automatic and manual bans are of the kind whose fate is determined there |
| `BanFate.DurationExists` | src/server/banmanager.rs:154 | the unsigned length gives a duration exactly when it is at most i64::MAX / 1000 seconds as a signed number, either way |
| `BanFate.EscalationFate` | src/server/jail.rs:578-609 | an escalated ban lasts as long as asked, or as the cap, exactly when that fits duration and calendar; one that saturates without a cap is over at once |
| `Panics.CalmRunsDoNotPanic` | src/server/jail.rs:748-793 | from stored bans that can be restored, no jail panics in any run whose bans are harmless when made |
| `Restart.IssuedBanComesBack` | src/server/jail.rs:321-334 | a ban that a line issues and stores, then a crash: the listing has its row, and what the restore command brings back is the same host, ends no later and less than a second earlier, and panics only if the first ticket would have |
| `Restart.StoredBanComesBack` | src/server/jail.rs:545-576 | the same for any ban whose store call has been made, whatever else the tables hold |
| `Coverage.RunKeeps` | src/server/jail.rs:748-800 | over every interleaving of jail iterations, single calls, server steps, stops, panics and crashes, also inside a store call, and from any tables: every current ban with its row of a covered jail that lives is tracked |
| `Coverage.NextKeeps` | src/server/jail.rs:748-800 | each atomic step keeps that invariant |
| `Coverage.NoBanForgotten` | src/server/server.rs:93-148 | from any tables: once the store has been read for a listed jail and until it stops or panics, between its iterations each of its current bans that has its row is in its map, in its queue or still to be sent |
| `Coverage.CoveredThroughout` | src/server/server.rs:118-148 | only stopping the jail or a crash ends that coverage |
| `Coverage.HostsStayBelow` | src/server/jail.rs:206-243 | in every reachable system every host of every jail that has not panicked is below the threshold |
| `Coverage.StoppedJailsStop` | src/server/server.rs:203-215 | in every reachable system a jail that is off the list and has no command left has taken its stop command or panicked |
| `JailHistory.FailsAreHistory` | src/server/jail.rs:168-243 | in every reachable system each jail's failure state is that of its own history of observations, removals and purges, whatever other tasks did |
| `JailHistory.BansOnLiveFailures` | src/server/jail.rs:206-243 | in every reachable system a counted line wants a ban exactly when it is a failure, the ignore checks pass, and the live failures of its host in the jail's history reach the threshold |
| `StoreHistory.IntegrityIff` | src/server/database.rs:61-110 | over every run of the system the tables keep integrity exactly when they have it at first and no crash falls inside a removal after the row of a current ban is gone |
| `StoreHistory.CrashCanOrphan` | src/server/database.rs:83-94 | such a crash is reachable: a jail started on one expired ban, and a crash in its removal |
| `StoreHistory.OnlyCrashesOrphan` | src/server/database.rs:61-110 | whatever the tables hold, only such a crash makes a current ban without its row |
| `StoreHistory.OnlyRemovalsLose` | src/server/database.rs:61-110 | a current ban with its row is lost to nothing but a removal of it, cut or complete |
| `StoreHistory.RunIsTrace` | src/server/database.rs:61-110 | the store after a run is its calls executed one after the other |
| `StoreHistory.EscalatesIffUnremoved` | src/server/jail.rs:578-609 | in every reachable system the count behind a line's ban is the number of bans of the host that no expiry, unban or flush has taken back, and the next ban is longer than the base exactly when there is one and the configuration lets it grow |
| `StoreHistory.LineBanLength` | src/server/jail.rs:578-609 | in every reachable system the ban of a line has the configured length without increment whatever the history, and with it the capped exact product for the bans that nothing has taken back, plus the draw; the row in the store says the same |
| `StoreHistory.CommandBanLength` | src/server/jail.rs:578-609 | so has the ban that a command makes |
| `Coverage.LateRestore` | src/server/jail.rs:545-576 | a restore that does not panic, arriving after its address was banned anew, keeps it banned, but keeps the new current ban in the store exactly when the restored one is not over |
| `Restart.RestartRoundTrip` | src/server/server.rs:118-148 | from any tables, after a full restore: a jail has panicked exactly when one of its current bans cannot be restored; any other's map is exactly its unexpired current bans with a row, ticket for ticket, and `bips` has lost exactly the expired ones; bans without a row stay in `bips` and in no map; jails not started are untouched |
| `Restart.RestartKeeps` | src/server/server.rs:118-148 | every order of sending and taking in the restore commands keeps the restart invariant |
| `Restart.RestartGoesOn` | src/server/jail.rs:545-576 | until everything is restored some step can be taken |
| `Restart.RestartEnds` | src/server/server.rs:118-148 | every restart run has at most three steps for each row, and one that cannot go on has dealt with everything |
| `Restart.SendAll` | src/server/server.rs:126-147 | sending the listing row by row appends to each listed jail's queue its own commands in order |
| `Server.Server.UnbanIp` | src/server/server.rs:374-390 | each jail that has the address gets one unban command, no other does; the store drops it only if some jail had it |
| `Server.Server.UnbanAll` | src/server/server.rs:393-401 | every jail gets one flush command and the store is emptied |
| `Server.Server.RestoreBans` | src/server/server.rs:118-148 | every running jail's queue gets exactly its own restore commands, in listing order |
| `Server.Server.StartJail` | src/server/server.rs:151-200 | the jail is put on the list unless one of its name is running, which is reported |
| `Server.Server.StartAllEnabled` | src/server/server.rs:93-114 | the jails are started in turn, and then every running jail's queue gets its restore commands |
| `Bantime.EscalatedExact` | src/server/jail.rs:578-609 | below 2^32 earlier bans: the minimum of base times factor to the count, the 64-bit maximum and the configured maximum |
| `Bantime.LengthIsRight` | src/server/jail.rs:578-609 | for every configuration, count and draw: the configured length without increment; otherwise base times factor to the count, cut at 64 bits and at the cap, plus exactly the draw below the jitter bound, wrapping at 64 bits |
| `Bantime.EscalatedMonotone` | src/server/jail.rs:578-609 | more earlier bans never shorten the next one |
| `Bantime.EscalationStartsOver` | src/server/jail.rs:586-593 | at 2^32 earlier bans the count is cut and escalation starts over |
| `Bantime.LongerIff` | src/server/jail.rs:578-609 | the next ban is longer than the base exactly when the cut count is positive, the factor at least two, the base neither zero nor permanent, and the cap above it |
| `Bantime.JitterAdds` | src/server/jail.rs:600-608 | jitter stays within its bound exactly when the sum fits 64 bits |
| `IgnoreCache.Cache.Get` | src/server/jail.rs:136-143 | the stored result, unless it is older than the maximum age |
| `IgnoreCache.Cache.Insert` | src/server/jail.rs:146-163 | when full, the first expired entry or else the first entry goes; a key already there keeps its position |
| `IgnoreCache.RunInvariant` | src/server/jail.rs:136-163 | over any run: never more entries than the maximum, keys distinct, and every entry is the last result the command gave for its key |
| `IgnoreCache.AnswersAgree` | src/server/jail.rs:249-264 | a hit answers what the most recent run of the command for that key gave, and that run is no older than the maximum age |
| `IgnoreCache.FreshEntriesStay` | src/server/jail.rs:146-163 | storing a result keeps every other entry while there is room, and every fresh one while an old one is left to evict |
| `IgnoreCache.HitIff` | src/server/jail.rs:136-143 | a lookup hits exactly when there is an entry of the key stored at most the maximum age ago |
| `IgnoreCache.RunsIffNotFresh` | src/server/jail.rs:249-264 | with fewer keys than places, a check runs the command exactly when its last run for the key is longer ago than the maximum age, or there was none |
| `IgnoreCache.InsertedIs` | src/server/jail.rs:146-163 | what storing leaves, entry by entry: when full the first entry that is not fresh goes, or else the first of all; a key keeps its place |
| `Sessions.AcceptedIffAlive` | src/web/auth.rs:373-422 | over every run with a monotone clock and fresh tokens: an access is accepted, for that user and login, exactly when the login is less than a day old, nothing ended it and every gap between uses up to now is below eight hours |
| `Sessions.CleanupsInvisible` | src/web/auth.rs:415-422 | leaving every cleanup out of a run changes no later answer |
| `Sessions.AliveStep` | src/web/auth.rs:373-390 | what one more event changes in the history's answer |
| `Sessions.GrantsStep` | src/web/auth.rs:367-422 | what one more event changes in the session map's answer |
| `Auth.AuthManager.ValidateSession` | src/web/auth.rs:373-390 | accepts exactly an unexpired session, returns its user and renews it; an expired one is removed |
| `Auth.AuthManager.Login` | src/web/auth.rs:324-364 | a token is returned exactly for a right password from an address with fewer than five failures in the window; a session is made exactly then; which error comes otherwise is `Logins.LoginOutcome` |
| `Auth.AuthManager.Logout` | src/web/auth.rs:367-369 | removes the session |
| `Auth.AuthManager.ChangePassword` | src/web/auth.rs:394-406 | on success removes every session of the user and no other; on refusal changes nothing |
| `Auth.AuthManager.CleanupExpiredSessions` | src/web/auth.rs:415-422 | removes exactly the expired sessions |
| `Auth.AuthManager.CountRecentFailures` | src/web/auth.rs:278-288 | the number of logged failures of the address within the window |
| `Auth.AuthManager.LogAttempt` | src/web/auth.rs:241-248 | appends one row |
| `Logins.WindowsStaySmall` | src/web/auth.rs:330-351 | over any sequence of calls that check no later than they log: at most five failures of an address in every window of fifteen minutes, wherever it starts |
| `Logins.LockoutEnds` | src/web/auth.rs:330-337 | when every failure of an address is a window old, a login with the right password succeeds |
| `Logins.OtherAddresses` | src/web/auth.rs:278-288 | successes and other addresses never lock an address out |
| `Logins.LoginOutcome` | src/web/auth.rs:324-364 | a token exactly for a right password from an address not locked out; otherwise locked out, the failure of the check, or invalid credentials, each exactly when; and the one row that the log gains |
| `AuthHistory.SessionsAreEarned` | src/web/auth.rs:324-422 | over every run of logins and anything else: each session in the map was made by a call with the right password for its user, from an address with fewer than five failures in the fifteen minutes before |
| `AuthHistory.AccessIsEarned` | src/web/auth.rs:373-390 | so every access that is granted goes back to such a call |
| `RateLimiting.RateLimiter.Check` | src/web/middleware.rs:150-162 | prunes the key's times, answers by their number, and records the request only when it is let through |
| `RateLimiting.RateLimiter.Cleanup` | src/web/middleware.rs:166-173 | drops old times of every key, and keys with none left |
| `RateLimits.WindowIsHistory` | src/web/middleware.rs:150-173 | whatever cleanups ran, what is stored for a key gives every later check the same window as the full history of accepted requests |
| `RateLimits.AllowedIff` | src/web/middleware.rs:150-162 | a request is let through exactly when fewer than the maximum were in the window before it |
| `RateLimits.AtMostMaximum` | src/web/middleware.rs:150-162 | every interval as long as the window holds at most the maximum of accepted requests of a key |
| `RateLimits.CleanupsInvisible` | src/web/middleware.rs:166-173 | leaving every cleanup out of a run changes no later answer |
| `TimeValues.Parse` | src/time.rs:31-131 | the nested loops compute `ParseTime`, error for error |
| `TimeGrammar.LastingIff` | src/time.rs:46-130 | a text is a finite duration exactly when it is a non-negative integer or numbers with units, in any letter case, up to a number without unit that ends it; the value is their sum, saturating |
| `TimeGrammar.PermanentIff` | src/time.rs:37-52 | exactly the three words and the negative integers are permanent |
| `TimeGrammar.ComponentsParse` | src/time.rs:60-130 | any rendered non-empty list of numbers with units parses to the minimum of its sum and the 64-bit maximum |
| `TimeGrammar.DecimalRoundTrip` | src/time.rs:46-57 | the decimal form of every unsigned 64-bit number parses back to it, on both number paths |
| `TimeGrammar.DigitsParse` | src/time.rs:46-97 | digits are their number when it fits 64 bits and an error otherwise |
| `TimeGrammar.WalkDecomposes` | src/time.rs:60-118 | whatever the loop accepts was numbers with units and a tail |
| `TimeGrammar.OneUnit` | src/time.rs:100-117 | a number with any of the 23 unit words is that many times the unit's length in seconds, saturating, with white space around it |
| `TimeGrammar.UnitIs` | src/time.rs:100-117 | the unit words and their lengths, and no others |
| `TimeGrammar.SignedParse` | src/time.rs:46-57 | a negative number is permanent, zero is not whatever its sign, and a signed number out of range or a sign alone is an error |
| `TimeGrammar.SameInAnyCase` | src/time.rs:31-36 | neither letter case nor white space around a text matters |
| `TimeGrammar.ErrorIff` | src/time.rs:60-125 | exactly which text is which error: empty, or numbers with units up to something that is no number, a number too large, or an unknown unit |

## Left out

- Actions, ban commands, `actionflush` and the bookkeeping of started actions: they run outside programs and change neither bans nor tables.
- Regular expressions, date detection, address ranges, DNS and the ignore checks themselves: a line comes in as the filter's match, and the checks' verdict, the resolved address and the parsed address are inputs.
- SQL, and statements that fail: the store executes each statement on two finite maps, and a statement is atomic even in a crash. A jail always has a store; without one the store calls are skipped.
- Server.Server.RestoreBans: takes the listing as an argument; that every listing has the content it needs is `BanTables.ListingIsCurrentBans`. The order of rows with equal times is any order.
- Jail.Jail.ProcessLine: starts from the filter's match; the regex part of the line's way is not modelled.
- FailWindow.PurgeInvisible: assumes that no observation is stamped before an earlier purge; the counterexample beside it shows that the assumption is needed.
- Coverage.NoBanForgotten: says nothing about a jail started alone after the store was read, for which the source never reads the store (the flag `covered` marks the others), and nothing about a current ban whose row a crash has cut away, which no listing shows.
- Store.Database.Purge: the running program never calls it, so it is no action of `Lifecycle`; `StoreSteps` includes it.
- StoreHistory.EscalatesIffUnremoved: assumes that no two bans of a pair are stored with the same second; the second would replace the row of the first.
- Server.Server.StartJail: takes a jail that has been built; configuration errors on the way there are not modelled.
- The bound of 32 on a jail's command queue: queues are unbounded, so a server step never waits.
- Two simultaneous starts of one jail name: a jail is started only when no task of its name is left.
- Totals and snapshots for display (`total_banned`, `total_failed`, `banned_map`): easy members.
- Find times so long that a cutoff leaves the calendar, where counting a failure panics, and panics of clock subtraction: cutoffs are unbounded integers. Lengths and ends of bans are modelled with their range; the calendar's end is that of chrono since version 0.4.32.
- Sessions.AcceptedIffAlive: assumes a monotone clock and fresh tokens; a clock read before waiting for the lock is taken as read under it.
- Logins.WindowsStaySmall: is about calls one after the other; overlapping calls may each pass the check before any of them logs.
- Passwords, their hashing and the rules for user names: verifying a password is an input of a login.
- Includes.ResolveIncludes: the file system does not change while it is read; making a path canonical, its parent and joining paths are functions of the file system.
- IncludeWalks.ReadsLikeFlat: is about what lookups see, not about the order in which the result lists sections.
- IniRoundTrip.RoundTrip: prints keys as `key=value`; that every other text parses to such a document is `IniRoundTrip.CanonicalIffParsed`.
- Tags.CompileTags: keeps the text that is left instead of an index into the input, and one iteration is a method of its own (`Tags.CompileNext`).
- TagPatterns.CompilesIffNotSelfNested: literal text has no `<`; a `<` that starts no tag is `TagPatterns.UnknownTagIsText`, outside of patterns.
- IgnoreCache.RunsIffNotFresh: is about fewer keys than places; with more of them `IgnoreCache.InsertedIs` says which entry goes.
- Unbanning.UnbanReaches: assumes that no ban of the address is queued or half made and that no line counts for it meanwhile; such a ban would stand, in the source too.
- Texts of error messages: errors are values that say which check failed.
- Filter and jail configuration structs, HTTP handlers, the dashboard, the wire protocol and the command-line programs: plumbing around the parts above.
