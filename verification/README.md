# Identity backend: protocols and languages, modelled and proved

The Go backend hides a number of small protocols and languages behind its HTTP handlers.
This project models them in Dafny 4.11 and proves what they promise: over every
interleaving, every run or every input. `dafny verify dfyconfig.toml` checks everything.

Postgres, Keycloak and Fleet are explicit state with atomic steps: one statement, one
transaction or one foreign call is one step, which succeeds with its effect or fails, and a
process may stop between any two steps. Code that changes state step by step is a class or
a method with the program's own loops, proved against a specification; where several
processes interleave, a state machine over their steps carries the invariant, and the
class's methods are tied to it.

| module | what it covers |
|---|---|
| `ScimPatchOps`, `ScimPatch`, `ScimPatchSerial`, `ScimPatchIdentity` | SCIM PATCH: the operation fold, the version compare-and-swap and its compensation; the row and the identity provider under overlap |
| `AuditEncoding`, `AuditChain`, `AuditRetention`, `AuditRuns`, `AuditTamper` | the audit hash chain: writer, verifier, pruner, backfill |
| `ScimFilter`, `ScimFilterParser`, `ScimFilterGrammar`, `ScimFilterAccepted`, `ScimFilterLayout`, `ScimFilterText`, `ScimFilterBracket`, `ScimSql` | the filter language: tokenizer, parser, the exact language it accepts, printers, translation to SQL, paging |
| `RateLimiter`, `RateLimiterRuns`, `RateLimiterEntries`, `RateLimiterBursts`, `ClientKey` | the sliding-window limiter, alone and under concurrency, and who is charged |
| `Leader`, `LeaderRuns`, `LeaderElector` | leader election on session locks of pooled connections |
| `ReviewSchedules`, `ReviewCampaigns`, `ReviewRunner` | recurring review campaigns fired by several replicas |
| `Migrations`, `Approvals` | two multi-actor state machines built on conditional writes |
| `PolicyTime`, `AccessEval` | time-of-day windows, policy conditions, device posture |
| `DeviceCookie`, `PasswordPolicy` | two printer/parser pairs |
| `Text` | byte strings: case, trimming, splitting, decimals |

## What the proofs found

Where a promise of the code or its comments turned out not to hold, the code is kept as it
is, a lemma gives inputs for which it fails, and another says exactly when it holds.

- SCIM PATCH, the row: versions are claimed correctly in every interleaving, but the row is
  not serialisable when a handler loads it while another one's version is unresolved: one
  update is lost (`OverlapLosesUpdate`), also through a rolled-back version that returns
  (`AbaLosesUpdate`). It is serialisable when no load overlaps a claim (`PatchesAreSerial`),
  and a run loses no update if and only if every write finds the columns it leaves alone as
  they were read (`RunReplaysIff`).
- SCIM PATCH, the identity provider: a failed handler gives its version back before it
  restores Keycloak, so a late restore can undo another handler's push and leave the two
  sides apart for good (`LateRestoreSplits`), even when reads wait for restores
  (`EarlyReadSplits`), and so does a restore that fails (`FailedRestoreSplits`). The two
  sides agree throughout a run if and only if every call that ends the last unfinished
  business finds the other side as it expects (`RunAgreesIff`); with loads that overlap no
  claim it is enough that nothing is pushed while a restore is due and that restores succeed
  (`IdentityAgrees`).
- Audit retention: after a prune the table verifies if and only if no row was deleted from
  between two retained ones, hash collisions aside (`PruneVerifiesIff`, `RunVerifiesIff`);
  `created_at` following `seq` is sufficient, and a writer that waited for the lock breaks it
  (`LateWriterBreaksPrune`). Verifying while a prune commits raises a false alarm
  (`RacingPruneRaisesAlarm`), exactly in the cases of `VerifyRacingPrune`, and for whole runs
  between the verifier's two reads exactly in those of `VerifyRacingRun`. `org_id` and
  `created_at` are not attested (`UncoveredColumns`).
- Filters: leftover tokens are meant to make a filter unparseable, and at the top level they
  do. Inside the brackets of a path whatever follows a filter is dropped, so that
  `emails[type eq "work"].value`, with nothing compared, is accepted as type eq "work"
  (`LeftoverDropped`); the brackets hold the filter and no more if and only if nothing is
  dropped (`BracketIff`). Closing parentheses, a closing bracket and the last quote
  (`UnclosedQuoteAccepted`) may be missing at the end. With these liberties written into the
  grammar, the parser accepts exactly its filters, for all token lists (`AcceptedIff`) and all
  texts (`FilterAcceptedIff`). A bracketed comparison loses its quotes and means what was
  written exactly when the value is one word (`BracketedComparison`). The
  SQL translation drops `ne` and every attribute but the e-mail, so that everyone is listed,
  and LIKE metacharacters break it; it is exact precisely in the cases of
  `TranslationExactIff`.
- Rate limiter: stalls between the two critical sections of one call, across sweeps, let any
  number of requests through at one instant (`SweepBetweenSections`), though never more than
  the limit for each entry that decided (`ExcessIsBounded`); otherwise the limit is exact. A
  decision stays on record if and only if its entry is still in the table or it refuses
  (`DecisionForgottenIff`).
- Client keys: an entry of the trusted list trusts an address it names if and only if that
  address has no zone and is not an IPv4 address in mapped form (`EntryTrustsIff`); a header
  whose hops are all trusted can be forged (`UnforgeableIff`).
- Leader election: an unlock that fails while its session goes back to the pool alive
  leaves the lock there, exactly then (`RefusedUnlockLeaks`, `DisciplinedIffClean`), and no
  other instance leads until that session ends (`LeakBlocksOthers`).
- Review schedules: the count the runner returns includes claims it lost, contrary to its
  comment (`CountIncludesLostRaces`), and the spacing of campaigns loses the clock skew
  between replica and database (`SkewIsReached`).
- Approvals: a decider that stops while it has the claim strands the request for good
  (`CrashStrands`), and a request in execution can leave it if and only if somebody still has
  the claim (`CanLeaveExecutionIff`).
- Migrations: the wait for the schema is exact while the list only grows at its end, and is
  fooled by an id inserted into a gap of the list (`GapFoolsVersionTest`); it is right for
  binaries of every age if and only if no id below MAX(id) is missing (`VersionTestExactIff`).
- Time windows: equal bounds admit no time at all (`WindowIsArc`).

## Model

| member | source | states |
|---|---|---|
| `ScimPatchOps.FilterIsCutOut` | backend/internal/handlers/scim.go:666-684 | whatever text the brackets of a path hold, base[filter].leaf addresses base.leaf and base[filter] addresses base; with a blank base the text stays as it is |
| `ScimPatchOps.PlainPath` | backend/internal/handlers/scim.go:666-684 | a path without matching brackets is only lower-cased |
| `ScimPatchOps.ApplyOperations` | backend/internal/handlers/scim.go:657-761 | after the loop each column holds what the last operation to write it says, and its old value if none does: active=b sets disabled to !b and removing active sets it; given and family name are trimmed; the e-mail comes from userName, a string, an object or the first usable array item, lower-cased and non-blank; by path, or by field when there is no path; any other operation writes nothing |
| `ScimPatchOps.EffectsConcat` | backend/internal/handlers/scim.go:662-761 | the delta of two operation lists is that of the first overridden by that of the second, attribute by attribute |
| `ScimPatchOps.ReplayIsIdempotent` | backend/internal/handlers/scim.go:662-761 | sending the same PATCH twice leaves the row it left the first time |
| `ScimPatchOps.EmailStaysNormal` | backend/internal/handlers/scim.go:701-751 | a PATCH keeps the stored e-mail non-empty, lower-case and without blanks around it |
| `ScimPatch.ETagRoundTrip` | backend/internal/handlers/scim.go:869-887 | every ETag the handlers emit is read back from If-Match as exactly that version |
| `ScimPatch.IfMatchMeans` | backend/internal/handlers/scim.go:869-887 | a blank header constrains nothing, "*" matches any version, a version is read from exactly the texts that spell it (weak marks, quotes, sign), and all others are malformed |
| `Text.ParseInt64Iff` | backend/internal/handlers/scim.go:880-884 | an integer is read from exactly the texts of digits with an optional sign whose value 64 bits hold |
| `ScimPatch.UserStore.Patch` | backend/internal/handlers/scim.go:612-835 | without overlap a PATCH is all or nothing: each reply is given exactly when the source gives it; on success every column holds its last write and Keycloak the names and the disabled flag, otherwise the row stays and version and identity provider are restored unless the restore itself fails |
| `ScimPatch.UserStore.Store` | backend/internal/handlers/scim.go:762-823 | bump, push and write succeed together or are compensated |
| `ScimPatch.OwnedRun` | backend/internal/handlers/scim.go:762-793 | every interleaving keeps: each version above the first up to the stored one belongs to exactly one request |
| `ScimPatch.VersionClaims` | backend/internal/handlers/scim.go:635-654 | for any interleaving: versions are owned uniquely, ETags of successes are distinct, and at most one PATCH per If-Match version succeeds |
| `ScimPatch.ETagIsAFloor` | backend/internal/handlers/scim.go:837-847 | the stored version never falls below an ETag that was returned, roll-backs included |
| `ScimPatch.RepliesAreFinal` | backend/internal/handlers/scim.go:762-835 | a reply once given stays, in every continuation |
| `ScimPatchSerial.PatchesAreSerial` | backend/internal/handlers/scim.go:612-835 | if no load overlaps an unresolved claim, the row is the replay of the successful PATCHes in ETag order, failed ones leaving no trace in the row |
| `ScimPatchSerial.RunReplaysIff` | backend/internal/handlers/scim.go:796-823 | at every point of a run the row is the replay of the committed PATCHes if and only if each write finds the columns it leaves alone as its handler read them |
| `ScimPatchSerial.WriteAppliesIff` | backend/internal/handlers/scim.go:799-816 | one UPDATE has the effect of its PATCH on the stored row exactly under that condition; an e-mail set to the value that was read is not written |
| `ScimPatchSerial.OverlapLosesUpdate` | backend/internal/handlers/scim.go:619-626 | otherwise two PATCHes can both succeed and the row lack the first one's change |
| `ScimPatchSerial.AbaLosesUpdate` | backend/internal/handlers/scim.go:840-848 | the same through a version that is rolled back and taken again |
| `ScimPatchIdentity.RunAgreesIff` | backend/internal/handlers/scim.go:788-823 | over any run, Keycloak holds what the row holds whenever nobody is between a push and its end, if and only if the last call of such business finds its own push in Keycloak, restores what the row holds, or fails with nothing to restore |
| `ScimPatchIdentity.IdentityAgrees` | backend/internal/handlers/scim.go:849-861 | if no load overlaps an unresolved claim, nothing is pushed while another handler's restore is due and restores succeed, the two sides agree throughout |
| `ScimPatchIdentity.SoloIsGuarded` | backend/internal/handlers/scim.go:762-823 | an undisturbed PATCH that succeeds is such a run |
| `ScimPatchIdentity.LateRestoreSplits` | backend/internal/handlers/scim.go:803-807 | the version goes back before Keycloak does: another PATCH succeeds in between and the late restore undoes its push, with no load overlapping a claim |
| `ScimPatchIdentity.EarlyReadSplits` | backend/internal/handlers/scim.go:817-820 | the same although no load overlaps a claim or a due restore |
| `ScimPatchIdentity.FailedRestoreSplits` | backend/internal/handlers/scim.go:853-861 | one handler whose restore fails leaves Keycloak with the values it pushed |
| `AuditEncoding.DecodeEncoded` | backend/internal/audit/chain.go:137-144 | the length-prefixed encoding can be decoded, whatever bytes the fields hold |
| `AuditEncoding.EncodeInjective` | backend/internal/audit/chain.go:137-144 | different field lists have different encodings |
| `AuditEncoding.SameHashOrCollision` | backend/internal/audit/chain.go:137-144 | two field lists with one hash are equal or exhibit a collision of the digest |
| `AuditChain.VerifyChain` | backend/internal/audit/chain.go:174-244 | the loop accepts exactly when every row links to its predecessor and the anchor, and otherwise reports the first row that does not: the rows before it are accepted, with it they are not |
| `AuditChain.ChainStep` | backend/internal/audit/chain.go:204-236 | one turn of the verifier: a chain up to a row extends over it exactly when that row links |
| `AuditChain.NullsHashAsEmpty` | backend/internal/audit/chain.go:180-187 | a NULL target hashes like "" and NULL details like "{}"; the six hashed values stand in their fixed order |
| `AuditChain.MissingHashBreaks` | backend/internal/audit/chain.go:217-221 | a row without a hash never links |
| `AuditChain.InjectiveHashNeverCollides` | backend/internal/audit/chain.go:137-144 | the collisions that other rows allow for do not exist when the hash is injective |
| `AuditRetention.Backfill` | backend/internal/db/schema.go:455-491 | the migration's loop leaves a chain from genesis over the legacy rows, changing nothing but their hashes |
| `AuditRetention.SelectKept` | backend/internal/audit/retention.go:58-93 | the retained rows and the anchor of the first of them |
| `AuditRetention.AuditLog.WriteEntry` | backend/internal/audit/chain.go:46-129 | a committed write appends one row that records every argument in its column, with the next seq, linked to the tip, its hash over actor, action, target type, target id, details and tip hash in this order; a rolled-back one leaves at most a gap in seq |
| `AuditRetention.AuditLog.Prune` | backend/internal/audit/retention.go:40-122 | a committed prune keeps exactly the rows from the cutoff on, re-anchors or clears the anchor, and appends the marker row with its fixed columns; a failed one changes nothing but the sequence |
| `AuditRetention.AppendContinues` | backend/internal/audit/chain.go:46-129 | appending to a table that continues a chain from genesis keeps it so; an empty table starts a new one |
| `AuditRetention.PruneContinues` | backend/internal/audit/retention.go:40-122 | so does a prune that deletes no row from between two retained ones |
| `AuditRetention.ContinuedIsAccepted` | backend/internal/audit/chain.go:174-244 | such a table verifies |
| `AuditRuns.RepeatedHashCollides` | backend/internal/audit/chain.go:137-144 | a row hash repeats in a chain only by a collision between two of its rows |
| `AuditRuns.PruneVerifiesIff` | backend/internal/audit/retention.go:40-122 | a pruned table verifies if and only if no row was deleted from between two retained ones, unless two rows of the chain collide |
| `AuditRuns.RunVerifiesIff` | backend/internal/audit/retention.go:40-122 | over any run of writes, failed writes and prunes, every intermediate table verifies if and only if every prune is of that kind, unless two rows seen by the run collide |
| `AuditRuns.TimeOrderIsContiguous` | backend/internal/audit/retention.go:58-93 | created_at not decreasing in seq makes every prune of that kind |
| `AuditRuns.BackfilledIsSound` | backend/internal/db/schema.go:455-491 | the backfilled table is a sound start |
| `AuditRuns.RunFromBackfillVerifies` | backend/internal/audit/chain.go:174-244 | from the backfill on, with created_at following seq, every table of every run verifies, through prunes that empty it and rolled-back writes |
| `AuditRuns.VerifyRacingPrune` | backend/internal/audit/chain.go:174-200 | anchor and rows are read separately: a prune in between is reported as tampering exactly when it removes the first row, unless it empties a table that had no anchor |
| `AuditRuns.VerifyRacingRun` | backend/internal/audit/chain.go:174-200 | any run of writes, failed writes and contiguous prunes between the two reads is reported as tampering exactly when, with an anchor, a prune reaches the first row, and without one, the rows no longer start at genesis |
| `AuditRuns.RacingPruneRaisesAlarm` | backend/internal/audit/chain.go:174-200 | two entries around the cutoff: the table verifies before and after the prune, but not with the anchor of before and the rows of after |
| `AuditRuns.LateWriterBreaksPrune` | backend/internal/audit/retention.go:58-93 | a writer that began before the cutoff and got the lock between two later ones is pruned from between them, and the table no longer verifies unless two of its rows collide |
| `AuditRuns.UncoveredColumns` | backend/internal/audit/chain.go:137-144 | rewriting org_id and created_at changes no verdict |
| `AuditTamper.TamperEvidence` | backend/internal/audit/chain.go:174-244 | two tables of equal length that verify under one anchor with one last hash agree on all hashed fields of every row, or exhibit a collision |
| `AuditTamper.TipFixesTable` | backend/internal/audit/chain.go:174-244 | from genesis the last hash fixes the hashed content of the whole table and its length, or two rows collide |
| `ScimFilterParser.ScimTokenize` | backend/internal/handlers/scim_filter.go:102-142 | the index loops return the token sequence of the specification |
| `ScimFilterParser.Parser.RunOr` | backend/internal/handlers/scim_filter.go:165-181 | the or-loop over a moving position returns what the recursive specification returns and stops where it stops |
| `ScimFilterParser.Parser.RunAnd` | backend/internal/handlers/scim_filter.go:182-198 | likewise for and |
| `ScimFilterParser.Parser.RunPrimary` | backend/internal/handlers/scim_filter.go:212-282 | likewise for groups, bracketed paths, which are glued and tokenized again, and comparisons |
| `ScimFilterParser.ParseScimFilter` | backend/internal/handlers/scim_filter.go:83-98 | the parser terminates on every text and returns the specified tree, or nothing when it is empty, unparseable or not consumed |
| `ScimFilter.BracketTextShrinks` | backend/internal/handlers/scim_filter.go:212-245 | the text that is tokenized again holds strictly fewer "[", which is why the parser terminates |
| `ScimFilter.TokenizeBrackets` | backend/internal/handlers/scim_filter.go:102-142 | tokenizing never adds a "[" |
| `ScimFilterGrammar.GrammarParses` | backend/internal/handlers/scim_filter.go:165-282 | every token list of the grammar, bracketed paths included, with and binding tighter than or and both left-associative, parses to its tree with nothing left, also without any of the closing parentheses and the closing bracket it ends in |
| `ScimFilterAccepted.AcceptedIff` | backend/internal/handlers/scim_filter.go:165-282 | any token list parses to a tree with nothing left if and only if it is a filter of the grammar for that tree, save for closing tokens missing at its end |
| `ScimFilterAccepted.BracketIff` | backend/internal/handlers/scim_filter.go:228-245 | a bracketed path stands for a tree if and only if a filter for that tree is in front of what the brackets hold, and is all they hold if and only if nothing behind it is dropped |
| `ScimFilterAccepted.FrontIff` | backend/internal/handlers/scim_filter.go:165-198 | the parser returns a tree and leaves some tokens if and only if a filter for that tree is in front of exactly those tokens |
| `ScimFilterText.FilterAcceptedIff` | backend/internal/handlers/scim_filter.go:83-95 | exactly which texts ParseSCIMFilter accepts, and as which tree: those that, but for the spaces around them and a missing last quote, lay out a filter of the grammar, closing tokens at its end missing or not |
| `ScimFilterLayout.SourceTokenized` | backend/internal/handlers/scim_filter.go:102-142 | text made of lexemes and blanks tokenizes to exactly those lexemes |
| `ScimFilterLayout.TextIsLaid` | backend/internal/handlers/scim_filter.go:102-142 | every text, its last open quote closed, is such a layout of its tokens |
| `ScimFilterLayout.LastQuoteIff` | backend/internal/handlers/scim_filter.go:118-130 | a quote added at the end of a text leaves its tokens as they are if and only if it closes the quote that is open there |
| `ScimFilterText.LastQuoteMayBeMissing` | backend/internal/handlers/scim_filter.go:118-130 | a trimmed text parses to the same result with and without the quote that closes its open one |
| `ScimFilterText.FilterTextParses` | backend/internal/handlers/scim_filter.go:83-98 | any spacing of a grammatical filter, closing tokens at its end missing or not, parses to its tree |
| `ScimFilterText.PrintedFilterParses` | backend/internal/handlers/scim_filter.go:83-282 | printing any tree to a string, fully parenthesised or minimally, and parsing the string returns that tree |
| `ScimFilterText.TextMeans` | backend/internal/handlers/scim_filter.go:47-78 | the text of an and, or or not filter matches a user as the texts of its parts do |
| `ScimFilterText.NeIsNotEq` | backend/internal/handlers/scim_filter.go:61-71 | the text attr ne v matches exactly the users that attr eq v does not |
| `ScimFilterText.FewestParentheses` | backend/internal/handlers/scim_filter.go:165-282 | no filter of the grammar for the same tree has fewer pairs of parentheses or brackets than the minimal print |
| `ScimFilterBracket.BracketedComparison` | backend/internal/handlers/scim_filter.go:212-245 | the text base[attr op "v"] parses to attr op v exactly when v stays one token without its quotes and is no closing bracket |
| `ScimFilterBracket.LeftoverDropped` | backend/internal/handlers/scim_filter.go:228-245 | base[attr op "v" with any further word and no closing bracket is accepted as attr op v |
| `ScimFilterBracket.UnclosedQuoteAccepted` | backend/internal/handlers/scim_filter.go:118-130 | attr op "v without the closing quote is accepted as attr op v |
| `ScimFilterBracket.EmptyValueRejected` | backend/internal/handlers/scim_filter.go:246-282 | the text attr op "" does not parse |
| `ScimSql.TranslationPreservesMeaning` | backend/internal/handlers/scim.go:272-314 | eq, and co and sw without LIKE metacharacters, select a lower-case e-mail exactly when the filter holds of it |
| `ScimSql.MetaBreaksMeaning` | backend/internal/handlers/scim.go:305-313 | with a metacharacter some stored e-mail is selected wrongly |
| `ScimSql.TranslationExactIff` | backend/internal/handlers/scim.go:272-314 | a leaf filter of any operator and attribute is translated exactly, for all users, if and only if it compares the e-mail by eq, by co or sw without a metacharacter, tests its presence, or constrains nothing; ne and other attributes are dropped |
| `ScimSql.DroppedFails` | backend/internal/handlers/scim.go:286-314 | for every other dropped filter, a user who is listed although the filter is false of him |
| `ScimSql.ListIsFiltered` | backend/internal/handlers/scim.go:292-343 | for an exact filter the list is exactly the organisation's matching users in order, and the count query counts them |
| `ScimSql.ListAnswers` | backend/internal/handlers/scim.go:272-343 | from the filter text on: the answer is invalidFilter if and only if the text parses to and, or or not; an absent or unparseable filter lists the whole organisation; an exact comparison lists the page and the number of its matching users |
| `ScimSql.PageOf` | backend/internal/handlers/scim.go:1054-1066 | re-slicing gives the items at the 1-based positions asked for |
| `ScimSql.PageItems` | backend/internal/handlers/scim.go:1054-1066 | a page starts at its 1-based index, or at the first item, and holds the count asked for or as many items as there are |
| `ScimSql.PagesCoverAll` | backend/internal/handlers/scim.go:1054-1066 | walking the pages returns every item once and in order |
| `RateLimiter.CompactInPlace` | backend/internal/middleware/ratelimit.go:145-151 | writing over the buffer being read leaves exactly the recent timestamps, in order |
| `RateLimiter.RecentKeepsLater` | backend/internal/middleware/ratelimit.go:145-151 | the recent timestamps are exactly those after the cutoff, each at the place given by the number of those before it |
| `RateLimiter.Entry.Admit` | backend/internal/middleware/ratelimit.go:139-160 | the second critical section: admitted exactly when fewer than the limit are recent, and then recorded |
| `RateLimiter.AfterDecides` | backend/internal/middleware/ratelimit.go:139-160 | a request is admitted if and only if fewer than the limit of timestamps lie after now - window; the buffer then holds those in order, and the new one if admitted |
| `RateLimiter.RateLimiter.EvictOldest` | backend/internal/middleware/ratelimit.go:168-179 | removes the oldest key and never fails on a non-empty table |
| `RateLimiter.RateLimiter.LookUp` | backend/internal/middleware/ratelimit.go:122-137 | a known client keeps its entry and the table is unchanged; for a new one nothing goes below 10000 entries and the oldest goes at 10000, all others keep entry and place, and the new key comes last |
| `RateLimiter.RateLimiter.Gc` | backend/internal/middleware/ratelimit.go:190-212 | removes exactly the stale entries and their places in the order |
| `RateLimiter.SweptExactly` | backend/internal/middleware/ratelimit.go:182-217 | a sweep keeps exactly the live entries, as they are and in their order |
| `RateLimiter.StaleIff` | backend/internal/middleware/ratelimit.go:194-200 | an entry is stale exactly when none of its timestamps lies in the window |
| `RateLimiter.CompactOrder` | backend/internal/middleware/ratelimit.go:204-210 | the order keeps exactly the remaining keys, in order |
| `RateLimiterRuns.FifoInserts` | backend/internal/middleware/ratelimit.go:122-137 | the table of the machine always has room for one more client by first in, first out |
| `RateLimiterRuns.EvictsExactlyOldest` | backend/internal/middleware/ratelimit.go:128-137 | an insertion below the cap evicts nothing and one at the cap exactly the oldest key |
| `RateLimiterRuns.FullSweeps` | backend/internal/middleware/ratelimit.go:190-212 | the program's collection is an instance of the machine's sweep |
| `RateLimiterRuns.InvRun` | backend/internal/middleware/ratelimit.go:121-215 | over every interleaving: the order enumerates the entries, the table is within its cap, timestamps are sorted, and inside the window the table knows exactly the log's admissions |
| `RateLimiterRuns.DecisionIsExact` | backend/internal/middleware/ratelimit.go:139-160 | a decision is that of a plain log: admitted exactly when fewer than the limit were admitted in the window |
| `RateLimiterRuns.LimitHolds` | backend/internal/middleware/ratelimit.go:121-160 | no window of any run holds more admissions than the limit, for a client never evicted nor used after leaving the table |
| `RateLimiterRuns.DecisionForgottenIff` | backend/internal/middleware/ratelimit.go:137-160 | after a decision the table still agrees with the log if and only if the entry was still in the table or the request was refused |
| `RateLimiterRuns.EvictionForgetsIff` | backend/internal/middleware/ratelimit.go:125-132 | an evicted client's record is kept if and only if none of it lay in the window |
| `RateLimiterEntries.EntryLimitHolds` | backend/internal/middleware/ratelimit.go:139-160 | in every run every entry, in the table or not, admits at most the limit in any window |
| `RateLimiterEntries.ExcessIsBounded` | backend/internal/middleware/ratelimit.go:121-215 | in every run, evictions and sweeps included, a client is admitted in any window at most the limit for each entry that decided for it |
| `RateLimiterBursts.SweepBetweenSections` | backend/internal/middleware/ratelimit.go:137-139 | requests that stall between the critical sections while the sweeper, once a window, takes their unused entries: any number of them passes at one instant |
| `ClientKey.NewClientKeyer` | backend/internal/middleware/clientip.go:44-66 | fails exactly on an unreadable non-blank entry; otherwise trusts exactly the networks written down |
| `ClientKey.TrustedIff` | backend/internal/middleware/clientip.go:44-66 | an address is trusted, by its IPv4 form if it has one, if and only if it has no zone and some entry names it: by a shared prefix, or as the very host |
| `ClientKey.EntryTrustsIff` | backend/internal/middleware/clientip.go:105-116 | an entry trusts an address in the network it writes down if and only if the address has no zone and is not in mapped form |
| `ClientKey.HostTrustsItselfIff` | backend/internal/middleware/clientip.go:59-63 | an entry that is one address trusts that address under the same condition |
| `ClientKey.NetworkTrustsAllIff` | backend/internal/middleware/clientip.go:51-57 | a network trusts all of its zone-less addresses if and only if none of them is in mapped form |
| `ClientKey.BucketsCoincide` | backend/internal/middleware/clientip.go:121-136 | IPv4 buckets coincide exactly on equal addresses, also when written as ::ffff:0:0/96, IPv6 buckets exactly when the first 64 bits are equal, and never across families |
| `ClientKey.ReverseForwardedFor` | backend/internal/middleware/clientip.go:145-160 | the non-blank hops of all header values, last first |
| `ClientKey.KeyOf` | backend/internal/middleware/clientip.go:72-101 | the walk charges the rightmost hop that is no trusted proxy, if a trusted proxy vouches for it and it can be read, and otherwise the peer |
| `ClientKey.ChargedHop` | backend/internal/middleware/clientip.go:72-101 | behind a trusted peer the last hop that is no trusted proxy is charged if it can be read, and in every other case the peer |
| `ClientKey.HeaderIgnored` | backend/internal/middleware/clientip.go:77-82 | from an untrusted peer the header has no effect |
| `ClientKey.ForgerySucceeds` | backend/internal/middleware/clientip.go:88-100 | when all genuine hops are trusted, text put in front names the bucket |
| `ClientKey.UnforgeableIff` | backend/internal/middleware/clientip.go:88-100 | nothing put in front of the header changes the key if and only if the genuine hops hold an untrusted or unreadable one |
| `ClientKey.ChargedToClient` | backend/internal/middleware/clientip.go:72-101 | through any route of trusted proxies and with any forged header a client is charged to the bucket of its direct connection |
| `Leader.InvRun` | backend/internal/leader/leader.go:123-224 | every interleaving of instances, lost connections, crashes and dying backends without a refused unlock on a live session keeps the lock discipline |
| `LeaderRuns.LockDiscipline` | backend/internal/leader/leader.go:123-224 | at most one session holds the lock, a live leader holds it once, live leaders coincide, and no pooled session holds it |
| `LeaderRuns.DisciplinedIffClean` | backend/internal/leader/leader.go:203-224 | locks are held throughout a run only by live sessions, once, and for an instance that leads or is about to unlock, if and only if no unlock is refused on a live session |
| `LeaderRuns.ReleaseFrees` | backend/internal/leader/leader.go:203-224 | a clean release frees the lock |
| `LeaderRuns.AlwaysReacquirable` | backend/internal/leader/leader.go:123-181 | from every reachable state every follower can become a live leader without a session in use dying |
| `LeaderRuns.TwoBelievers` | backend/internal/leader/leader.go:139-150 | an instance whose session died goes on believing while another one leads |
| `LeaderRuns.RefusedUnlockLeaks` | backend/internal/leader/leader.go:209-222 | an unlock that is refused leaves the lock in the pool exactly when the session is alive |
| `LeaderRuns.LeakBlocksOthers` | backend/internal/leader/leader.go:193-224 | then no other instance leads in any run in which that session survives |
| `LeaderElector.Elector.TryAcquire` | backend/internal/leader/leader.go:156-181 | an attempt succeeds if and only if the session offered is usable, no other session holds the lock and the query is answered, and then leads on that session; what an attempt in vain leaves of the session; and it is the machine's connect, query and hand-back |
| `LeaderElector.Elector.ReleaseIfLeader` | backend/internal/leader/leader.go:203-224 | a leader is demoted, its unlock is sent and the session handed back or discarded, by outcome; and that is the machine's demotion, unlock and hand-back |
| `LeaderElector.Elector.TakeTurn` | backend/internal/leader/leader.go:123-151 | in one turn a follower whose attempt wins leads, a leader whose ping succeeds stays as it is, one whose ping fails is demoted and has sent its unlock, and a turn that is not woken again or is cancelled stops the loop |
| `LeaderElector.TurnMeans` | backend/internal/leader/leader.go:123-151 | what a turn means for leadership, in values of sessions: a new leader holds the lock once, a kept one changes nothing, an answered unlock after a failed ping frees it |
| `LeaderElector.Elector.Loop` | backend/internal/leader/leader.go:123-152 | the loop takes the turns in order until one stops it and then releases; the states between satisfy TurnTaken turn by turn; altogether that is a sequence of machine steps, unsafe ones only where an unlock is refused |
| `ReviewSchedules.InvRun` | backend/internal/handlers/review_schedules.go:311-411 | every interleaving of replicas, edits and deletions keeps each schedule's next run a cadence after all of its campaigns |
| `ReviewSchedules.CadenceSeconds` | backend/internal/handlers/review_schedules.go:46-58 | 604800 seconds for weekly, 7776000 for quarterly, 2592000 for monthly and anything else |
| `ReviewCampaigns.CampaignsAreSpaced` | backend/internal/handlers/review_schedules.go:46-58 | two campaigns of one schedule are its cadence apart, up to the clock skew, and hold exactly their organisation's grants |
| `ReviewCampaigns.AdvancedIffOneCampaign` | backend/internal/handlers/review_schedules.go:358-411 | a step advances a schedule if and only if it commits exactly one campaign of it |
| `ReviewCampaigns.SkewIsReached` | backend/internal/handlers/review_schedules.go:365-376 | a replica clock behind the database's lets campaigns be that much closer |
| `ReviewCampaigns.CountIncludesLostRaces` | backend/internal/handlers/review_schedules.go:344-355 | over every run the returned count is the campaigns that pass committed and was told of, and the claims it lost; with every commit answered it is the number of its campaigns exactly when it lost no claim |
| `ReviewCampaigns.LostRaceIsCounted` | backend/internal/handlers/review_schedules.go:377-379 | two replicas count one campaign twice |
| `ReviewRunner.ScheduleStore.Fire` | backend/internal/handlers/review_schedules.go:358-411 | a schedule that is enabled and due is advanced by its cadence together with its one campaign, which carries the schedule's columns and its organisation's grants, or neither; one no longer due is left alone without an error |
| `ReviewRunner.ScheduleStore.RunDue` | backend/internal/handlers/review_schedules.go:311-356 | the campaigns committed are those of the schedules that fire, one each and in order, and the count exceeds them by exactly the lost races |
| `ReviewRunner.LostRaceIff` | backend/internal/handlers/review_schedules.go:366-379 | a race is lost exactly when begin and update succeed and the schedule is gone, disabled or already advanced |
| `Migrations.LatestMigrationID` | backend/internal/db/schema.go:1058-1066 | the largest id, which is the last one of an increasing list |
| `Migrations.KnownIncreasing` | backend/internal/db/schema.go:24-190 | the shipped ids are positive and strictly increasing |
| `Migrations.InvRun` | backend/internal/db/schema.go:1147-1229 | every interleaving of migrators with stale snapshots, failures and crashes keeps the recorded ids those of a prefix of the list |
| `Migrations.AppliedInOrderOnce` | backend/internal/db/schema.go:1147-1229 | migrations take effect in list order and once each, and a migrator that finishes has all of its own applied |
| `Migrations.UndisturbedFinishes` | backend/internal/db/schema.go:1194-1222 | from every reachable database a migrator that is left alone and whose transactions commit finishes with its migrations applied |
| `Migrations.RolledBackLeavesNoTrace` | backend/internal/db/schema.go:1200-1220 | a rolled-back migration leaves no trace and its migrator gives up |
| `Migrations.VersionTestIsExact` | backend/internal/db/schema.go:1099-1132 | MAX(id) reaches a binary's latest id if and only if all of its migrations are applied |
| `Migrations.WaitForSchema` | backend/internal/db/schema.go:1099-1132 | the verdict is that of the first poll that fails, is current or finds the deadline passed |
| `Migrations.VersionTestExactIff` | backend/internal/db/schema.go:1099-1132 | whatever is recorded, the test is right for a binary that knows any first part of the list if and only if every id of the list up to MAX(id) is recorded |
| `Migrations.GapFoolsVersionTest` | backend/internal/db/schema.go:21-24 | a list with an extra id below the latest takes a database without it for current |
| `Migrations.Database.RunMigrations` | backend/internal/db/schema.go:1194-1222 | alone, a migrator applies exactly what is missing, in order, and an error leaves the part before it |
| `Migrations.MissingExactly` | backend/internal/db/schema.go:1194-1200 | the missing migrations are exactly those of the list that the snapshot lacks, in list order |
| `Approvals.InvRun` | backend/internal/handlers/approvals.go:199-318 | every interleaving of deciders, crashes and statements that arrive late keeps the claim exclusive |
| `Approvals.DecisionsAreSafe` | backend/internal/handlers/approvals.go:199-318 | at most one execution in flight and one success; approved means exactly one, rejected none; the decider is the executor and never the requester; no decider meets a changed state; replies agree with the row |
| `Approvals.SettledForever` | backend/internal/handlers/approvals.go:244-258 | approved, rejected and abandoned requests never change again |
| `Approvals.CrashStrands` | backend/internal/handlers/approvals.go:260-310 | a decider lost while it has the claim leaves the request in execution for good |
| `Approvals.CanLeaveExecutionIff` | backend/internal/handlers/approvals.go:260-310 | a request in execution can leave it by some continuation if and only if a decider or a statement on its way still has the claim |
| `Approvals.FailureReopens` | backend/internal/handlers/approvals.go:266-293 | a failed execution whose reset arrives, at once or late, is pending and unexecuted |
| `Approvals.Request.Carry` | backend/internal/handlers/approvals.go:260-310 | a claimed request ends approved, reopened, or in execution when the last statement fails |
| `Approvals.Request.Decide` | backend/internal/handlers/approvals.go:199-318 | exactly when each reply is given, the requester's own decision being forbidden, and that row and executions are those of the machine's steps |
| `PolicyTime.ParsesExactly` | backend/internal/handlers/access_policy_time.go:32-43 | the three layouts accept exactly H:MM and HH:MM with optional seconds and fraction, and read hour and minute |
| `PolicyTime.FormatParses` | backend/internal/handlers/access_policy_time.go:47-50 | every integer is written as the time of day it falls on and read back as that |
| `PolicyTime.DbTextParses` | backend/internal/handlers/access_policy_time.go:11-19 | the database's rendering with seconds and microseconds reads as the same minute |
| `PolicyTime.NormaliseKeepsMeaning` | backend/internal/handlers/access_policy_time.go:55-65 | normalising keeps the meaning and is idempotent |
| `PolicyTime.ValidateExactly` | backend/internal/handlers/access_policy_time.go:72-101 | exactly when no window is given, the start is named as wrong, or a window is accepted |
| `PolicyTime.WindowSurvives` | backend/internal/handlers/access_policy_time.go:72-101 | a window is accepted exactly when both bounds are times, and they survive storage, rendering and reading |
| `PolicyTime.WindowIsArc` | backend/internal/handlers/access_eval.go:415-422 | the two branches are (now - start) mod 1440 < (end - start) mod 1440, so opposite windows partition the day and equal bounds admit nothing |
| `AccessEval.EvalConditions` | backend/internal/handlers/access_eval.go:401-478 | the reasons are exactly those that hold of the conditions, in their order, and there is none exactly when all conditions that are set hold |
| `AccessEval.StoredWindowMeansArc` | backend/internal/handlers/access_eval.go:405-428 | an accepted window, read back from the database, allows exactly the arc from start to end |
| `AccessEval.DevicePosture` | backend/internal/handlers/access_eval.go:354-396 | the reasons given are exactly those that hold of the device, and there is none exactly when it meets the baseline |
| `AccessEval.JustifiedIffNotCompliant` | backend/internal/handlers/access_eval.go:354-396 | some reason holds exactly of the devices below the baseline, whatever the policy's own flags |
| `AccessEval.DevicesPosture` | backend/internal/handlers/access_eval.go:337-346 | all devices' reasons; none only when every device complies |
| `DeviceCookie.DecodeEncoded` | backend/internal/handlers/device_identity.go:224-241 | base64url decoding undoes encoding for every byte string |
| `DeviceCookie.SameNumber` | backend/internal/handlers/device_identity.go:224-224 | three bytes and their four six-bit groups are one number |
| `DeviceCookie.AlphabetCodes` | backend/internal/handlers/device_identity.go:224-224 | the letters are those of base64url, in ASCII codes |
| `DeviceCookie.HexRoundTrip` | backend/internal/handlers/device_identity.go:223-257 | hexadecimal decoding undoes encoding |
| `DeviceCookie.HexDigits` | backend/internal/handlers/device_identity.go:223-223 | two lower-case hexadecimal digits for each byte, the high one first |
| `DeviceCookie.HexIgnoresCase` | backend/internal/handlers/device_identity.go:254-257 | a signature is read in either case |
| `DeviceCookie.MessageInjective` | backend/internal/handlers/device_identity.go:220-252 | the signed message determines host and expiry, even for hosts that contain the separator |
| `DeviceCookie.FourParts` | backend/internal/handlers/device_identity.go:236-239 | the split at "." returns exactly the four parts |
| `DeviceCookie.ValidHostIff` | backend/internal/handlers/validators.go:29-49 | a host id is valid exactly when, trimmed, it has 1 to 256 bytes, none of them a control character, slash or backslash, no dot in front and no two dots in a row |
| `DeviceCookie.MintThenVerify` | backend/internal/handlers/device_identity.go:212-261 | minting succeeds exactly for a secret and a host that is, trimmed, 1 to 256 bytes without control characters, slashes, a dot in front or two dots in a row, and the cookie verifies to its host exactly for 900 seconds |
| `DeviceCookie.AcceptedIsMinted` | backend/internal/handlers/device_identity.go:232-261 | only with a secret, and only a v1 value, is accepted, for the host and the expiry it claims; if it carries the signature of a minted cookie, it is for that host and expiry, not yet passed, or the two signed messages collide |
| `PasswordPolicy.SearchIsLeftmost` | backend/internal/handlers/account_policy.go:67-75 | the search returns the first match at a word boundary, and fails only when there is none |
| `PasswordPolicy.MatchIff` | backend/internal/handlers/account_policy.go:67-75 | a match is the name, case ignored, and at least one digit in brackets right behind it |
| `PasswordPolicy.MatchRun` | backend/internal/handlers/account_policy.go:67-75 | a name matches a run of letters only as a whole and only before a bracket |
| `PasswordPolicy.ParamIsLookup` | backend/internal/handlers/account_policy.go:67-105 | for every list of components and every name, reading the string is looking the name up |
| `PasswordPolicy.AtoiSaturates` | backend/internal/handlers/account_policy.go:73-74 | a number too large for 64 bits reads as 9223372036854775807 |
| `PasswordPolicy.BuildPolicyString` | backend/internal/handlers/account_policy.go:81-105 | the seven appends and the join write the positive fields in order, and reading each of the seven names from the result returns its own field |
| `PasswordPolicy.WrittenForm` | backend/internal/handlers/account_policy.go:77-80 | the written form is that of the example length(12) and upperCase(1) |
| `PasswordPolicy.PolicyRoundTrip` | backend/internal/handlers/account_policy.go:153-172 | the seven fields come back, zero included, exactly when none is negative |

## Left out

- HTTP decoding, routing, response envelopes, headers and metrics: no invariant beyond one branch.
- Unicode: strings are bytes and case folding, trimming and word characters are ASCII; a value with other letters or spaces is not captured.
- Keycloak, Fleet and GeoIP clients: a foreign call succeeds with its effect or fails without one; the address and time-zone libraries are parameters or are modelled on the formats used.
- SHA-256 and HMAC: any function; where a claim rests on telling inputs apart, the alternative is a collision between inputs that were really used.
- Interleaved protocols (PATCH, rate limiter, election, schedules, migrations, approvals): modelled on values, as state machines over atomic steps; what one thread does in place is modelled by the classes beside them.
- SCIM create, delete and the group handlers apart from paging: they would add easy members.
- SCIM PATCH audit entry and the not-found branch of the load: no effect on version or row.
- Migration statements other than the audit backfill: opaque transactional steps.
- The advisory lock around migrations: not modelled, because the result does not need it.
- Campaign names (the date suffix) and the ORDER BY and LIMIT of the due query: the spacing holds for any list of due schedules.
- Jitter and back-off of the election loop, tickers and timeouts: steps may happen at any time.
- The range checks of account policy updates, single-statement handlers, bootstrap, configuration and secrets: settled by one branch each.
- Leader.InvRun: excludes an unlock that is refused on a live session; DisciplinedIffClean shows that exactly this breaks the discipline, and RefusedUnlockLeaks and LeakBlocksOthers say how.
- RateLimiterRuns.LimitHolds: says nothing of clients whose entry was evicted or used after it left the table, for whom SweepBetweenSections shows it fails; ExcessIsBounded bounds what they get.
- ScimPatchSerial.PatchesAreSerial: needs loads that do not overlap an unresolved claim; OverlapLosesUpdate and AbaLosesUpdate show that it is false without, and RunReplaysIff gives the exact condition on the writes.
- ScimPatchIdentity.IdentityAgrees: needs loads that overlap no claim and its guard on pushes and restores, which the program does not keep; LateRestoreSplits, EarlyReadSplits and FailedRestoreSplits show that it is false without, and RunAgreesIff gives the exact condition.
- ReviewCampaigns.CampaignsAreSpaced: for a clock skew shorter than the shortest cadence.
