# DRepTalk: verified models of the request, display, pairing, voting and submission logic

DRepTalk is a forum and governance front end for Cardano. This project models the parts of it whose promises range
over every input or every run, and proves them:

- **Rate limiting** (`Rate`, `RateRuns`): a pure decision over one stored window, one stored window per key. The
  stored window is proved to be a summary of the whole log, and the number of requests that any stretch of time can
  admit is bounded, with a run that attains the bound.
- **Display-time HTML rewriting** (`JsText`, `ChainIds*`, `OpenTags`, `LinkAttributes`, `LinkSpelling`,
  `AttributeNames`, `Headings`, `HeadingTags`, `Enhance`): three regular expressions as hand-written scanners, the
  replace callbacks over them, and what the passes keep, add and undo.
- **Device pairing** (`Pairing`, `PairingRuns`, `PairingAnswers`, `PairingPhone`): clicks, timers, visibility events
  and network answers in any order, over a polling effect, a storage entry and the component's state.
- **Votes** (`Votes`, `VoteTraces`, `VoteTexts`, `VoteFlows`, `VoteBar`): hosting texts, casting and recording, as a
  trace of calls to dependencies that may answer anything.
- **Governance actions** (`GovSubmit*`, `BalanceReads`, `ContextRequests`, `ReviewPreview`, `Changes*`): the submit
  protocol with the checks before its first irreversible effect, the three places where answers race and only the
  newest counts, and the generated paragraph that is edited into the abstract.
- **Cron cadences** (`Cron`, `CronFields`) and **slugs** (`Slug`).

Code that changes state in place is a class or a method with loops, proved equal to a function of the old state; what
is promised is then proved of that function over all inputs or all runs. A dependency, a wallet, the network or a
server is a function of the whole history of calls, so that a theorem about it covers every pattern of failures.

## Where the code and its words differ

Each of these is proved, in both directions, where the table says "exactly when".

- `linkifyChainIds` is called idempotent (src/lib/markdown.ts:244). It is so exactly when no text left between chips
  reads as an id by itself (`ChainIdsTwice.LinkifyTwiceIff`). A stray alphanumeric after an id can break it
  (`RightNeighbourMatters`), and so can one before it (`LeftNeighbourMatters`).
- The `rel` and `target` passes are said to cover every link. The presence test is also met by a query string in a
  quoted or unquoted value and by a longer attribute name, and what is inserted is not read as the attribute after a
  bare name, after a dangling equals sign, or where HTML ends the tag earlier than the scanner does;
  `AttributeNames.AttributeEnsuredIff` says exactly which inputs leave every recognised link with it. A rewritten `<A`
  also becomes `<a`, so deleting the insertions restores the input exactly when no rewritten tag is spelled that way
  (`LinkAttributes.DeletionRestores`).
- A chip for `<64hex>#<index>` leads to the same action as searching for that text exactly when the index has no
  leading zero (`ChainIdPages.ChipAgreesWithSearch`).
- The skip depth, clamped at zero, is the true nesting exactly when no closing tag crosses an open element
  (`ChainIdPieces.CounterIsDepthIff`); one that does lets a chip into code (`StrayCloseDrifts`), and the output is the
  intended one exactly when the two agree wherever there is an id (`LinksOutsideIff`).
- Denied requests are said not to write. The first on an empty key does where its limit is below one, and no other
  (`Rate.WritesAreAdmissionsIff`, `ZeroLimitWrites`).
- "Storage always matches the code on screen" (src/components/PairWithDesktop.tsx:236-237) fails when a start request
  is answered after its component was taken off the page and put back (`PairingRuns.StaleStartOverwrites`); it holds
  exactly when the entry was last written for the pairing on screen (`StorageMatchesScreenIff`).
- With storage blocked, `loadPairing` throws from its own catch block and the island never comes up
  (`PairingRuns.BlockedNeverStarts`).
- The changes paragraph is replaced as text, at the first place where that text occurs, which need not be the block
  that was recognised (`ChangesLaws.ReadsBackIff`, `StaleBlockStays`), so a later edit overwrites an earlier one
  exactly when no header text comes first (`ChangesOverwrite.OverwritesIff`).
- A batch of one vote is the single vote exactly when the rationale is already trimmed, or blank: the single flow
  hosts it as typed (`VoteFlows.OneActionIsTheSingleVote`).
- A submit whose own chain read failed can be overtaken by "Try again" (`ContextRequests.FailedLoadCanBeOvertaken`);
  it holds no reading then, and a submit without one is always refused (`GovSubmitChecks.GateIff`).

## Model

| member | source | states |
|---|---|---|
| `Rate.RateLimiter.Limit` | src/lib/rateLimiterDO.ts:20-27 | one step of storage is one more entry in the key's log; a denial writes nothing, except an empty window where there was none |
| `Rate.RateLimiter.Peek` | src/lib/rateLimiterDO.ts:35-38 | predicts the next `Limit` and changes nothing |
| `Rate.RateNamespace.CheckRate` | src/lib/rate.ts:51-58 | answers by the key's own log, appends to it, and leaves every other key's log alone |
| `Rate.RateNamespace.PeekRate` | src/lib/rate.ts:68-75 | answers what the next request on the key would be told; no key's log changes |
| `Rate.StoredIsTheLog` | src/lib/rate.ts:22-37 | with a limit of at least one, the stored start is the last opening in the log and the count is the admissions since, never above the limit |
| `Rate.WritesAreAdmissionsIff` | src/lib/rateLimiterDO.ts:14-19 | the writes of a run are its admissions exactly when its first request came with a limit of at least one, as no other denial writes |
| `Rate.ZeroLimitWrites` | src/lib/rate.ts:27-29 | a first request with a limit below one is denied and stores a zero-count window |
| `RateRuns.WindowsSpread` | src/lib/rate.ts:30-36 | after any run, what was admitted since any time is bounded through the window now open, as openings lie a window apart |
| `RateRuns.AdmissionBound` | src/lib/rate.ts:22-37 | any half-open interval of k windows' length admits at most (k+1)*max - 1 requests |
| `RateRuns.AdmissionBoundIsTight` | src/lib/rate.ts:22-37 | for every limit, window and k, a run admits exactly that many |
| `RateRuns.AlwaysResets` | src/lib/rate.ts:16-20 | once a whole window has passed the next request is admitted and opens a new window, whatever came before |
| `ChainIds.LinkifyChainIds` | src/lib/markdown.ts:247-258 | the callback loop with its carried skip depth writes the rewritten text |
| `ChainIds.Callback` | src/lib/markdown.ts:249-257 | one callback: a tag moves the depth, an id becomes a chip outside skipped elements, all else is kept |
| `ChainIdTokens.TokenLinkable` | src/lib/markdown.ts:208-236 | every id the token pattern matches has a link target once lower-cased, so the fallback to plain text is never taken |
| `ChainIdTokens.ChipParts` | src/lib/markdown.ts:226-227 | a chip is one opening anchor tag, a text of 23 characters without angle brackets, and the closing tag |
| `ChainIdsTwice.LinkCat` | src/lib/markdown.ts:235-257 | text before a tag and what follows are rewritten independently |
| `ChainIdsTwice.LinkifyTwiceIff` | src/lib/markdown.ts:238-258 | a second pass changes nothing exactly when no text left between chips and tags reads as an id by itself |
| `ChainIdNeighbours.IdempotentWhenClear` | src/lib/markdown.ts:230-258 | if every id to be chipped stands clear of alphanumerics on both sides, twice is once |
| `ChainIdNeighbours.RightNeighbourMatters` | src/lib/markdown.ts:236 | an id followed by alphanumerics for which a second pass adds a chip |
| `ChainIdNeighbours.LeftNeighbourMatters` | src/lib/markdown.ts:236 | an id preceded by alphanumerics, with a clear right side, for which a second pass adds a chip |
| `ChainIdPieces.LinkIsPiecewise` | src/lib/markdown.ts:247-258 | the input is cut into disjoint pieces in order; only id spans change, into chips titled with their lower-cased text |
| `ChainIdPieces.CounterIsDepthIff` | src/lib/markdown.ts:248-255 | the clamped counter is the true a/code/pre depth after every tag exactly when no closing tag crosses an open element; a closing tag with nothing open is harmless |
| `ChainIdPieces.LinksOutsideIff` | src/lib/markdown.ts:242-258 | ids become chips exactly outside those elements exactly when counter and depth agree on being zero at every stretch of text that holds an id |
| `ChainIdPieces.LinkedOutside` | src/lib/markdown.ts:242-243 | so they do wherever no closing tag crosses |
| `ChainIdPieces.StrayCloseDrifts` | src/lib/markdown.ts:252 | a closing tag that crosses a code element lets a chip into it |
| `ChainIdLinks.ActionIdLinks` | src/lib/markdown.ts:210-236 | an action id is linked at exactly 70 characters, to /ga/; of a longer text the first 70 are |
| `ChainIdLinks.DRepLinks` | src/lib/markdown.ts:218-236 | a DRep id is linked at 50 to 65 characters, to /dreps/; otherwise the text starts with no id |
| `ChainIdLinks.DRepScriptLinks` | src/lib/markdown.ts:218-236 | a script DRep id at 57 to 72 |
| `ChainIdLinks.AddressLinks` | src/lib/markdown.ts:221-236 | a mainnet address at 55 to 115, to the explorer, with nofollow |
| `ChainIdLinks.TestAddressLinks` | src/lib/markdown.ts:221-236 | a test address at 60 to 120, to the explorer's preprod path, with nofollow |
| `ChainIdLinks.HexLinks` | src/lib/markdown.ts:210-236 | a run of hex digits at exactly 66 or 68, to /ga/ |
| `ChainIdLinks.HashIndexLinks` | src/lib/markdown.ts:212-236 | a hash with one to six index digits, to the page of hash and index bytes; further digits are left |
| `ChainIdLinks.KindIff` | src/lib/markdown.ts:251 | a tag moves the skip depth exactly when its whole name is a, code or pre, in any case |
| `ChainIdLinks.ContentIsKept` | src/lib/markdown.ts:247-258 | the content of these elements is kept, and the pass goes on behind them as from the start |
| `ChainIdPages.IndexHexRoundTrip` | src/lib/markdown.ts:213-217 | the whole-byte hex of an index reads back as the index |
| `ChainIdPages.HashIndexChipResolves` | src/lib/markdown.ts:213-217 | the page a `<64hex>#<index>` chip leads to resolves to that transaction and index |
| `ChainIdPages.Bech32ChipResolves` | src/lib/search/identifiers.ts:11-18 | the page that a bech32 action or DRep chip leads to is found by that id |
| `ChainIdPages.DetectHex` | src/lib/search/identifiers.ts:27-34 | searching for an index's hex form finds the action of that index |
| `ChainIdPages.ChipAgreesWithSearch` | src/lib/search/identifiers.ts:11-36 | chip and search agree on `<64hex>#<index>` exactly when the index has no leading zero |
| `OpenTags.MatchIsBalanced` | src/lib/markdown.ts:154-162 | a matched tag ends at its first `>` outside quotes and its attribute text leaves no quote open |
| `OpenTags.EnsureIsTag` | src/lib/markdown.ts:170-177 | a rewritten tag, whatever follows it, is again recognised as that one tag |
| `OpenTags.EndKept` | src/lib/markdown.ts:154-162 | a pass never makes or breaks the end of a tag that starts further left |
| `LinkAttributes.TagsOfRewrite` | src/lib/markdown.ts:169-193 | the tags recognised in the output are those of the input, each with the attribute ensured |
| `LinkAttributes.RewriteIdempotent` | src/lib/markdown.ts:180-193 | either attribute pass twice is that pass once |
| `LinkAttributes.EveryLinkHasBoth` | src/lib/markdown.ts:169-193 | after both passes every recognised link passes both presence tests, and none is added or lost |
| `LinkAttributes.RewriteOnlyInserts` | src/lib/markdown.ts:154-162 | the output is the input with one text inserted per lacking tag, each outside every quoted value |
| `LinkAttributes.DeletionRestores` | src/lib/markdown.ts:176 | deleting the insertions restores the input exactly when no rewritten tag is spelled `<A` |
| `LinkSpelling.PresenceIff` | src/lib/markdown.ts:171-190 | a pass takes an attribute for present exactly where its name stands at the start of a word, in any case, with an equals sign behind it |
| `LinkSpelling.TargetIsAdded` | src/lib/markdown.ts:187-193 | a link tag without one gets target="_blank" as its last attribute; one that has it is left alone |
| `LinkSpelling.RelIsAdded` | src/lib/markdown.ts:169-177 | a link tag without one gets rel="noopener noreferrer nofollow ugc" |
| `AttributeNames.AttributeEnsuredIff` | src/lib/markdown.ts:164-193 | read as HTML reads attributes, every recognised link ends up with the attribute and a value exactly when none meets the presence test by other text, has the bare name already, ends inside a value or where one is due, or ends for HTML before it does for the scanner |
| `AttributeNames.QuotedMasks` | src/lib/markdown.ts:171 | a query string in a quoted value is taken for the attribute |
| `AttributeNames.UnquotedMasks` | src/lib/markdown.ts:171 | so is one in an unquoted value |
| `AttributeNames.PrefixedMasks` | src/lib/markdown.ts:171 | so is an attribute whose name ends in a hyphen and this name |
| `AttributeNames.BareNameMisplaces` | src/lib/markdown.ts:171-176 | a bare name is not seen by the test, and the inserted attribute comes second |
| `AttributeNames.DanglingMisplaces` | src/lib/markdown.ts:175-176 | after an equals sign with no value the inserted text becomes that value |
| `AttributeNames.EarlyEndMisplaces` | src/lib/markdown.ts:154-162 | after a quote in an attribute name the scanner reads past the `>` that ends the tag in HTML, and inserts outside the tag |
| `Headings.ShiftIsAlike` | src/lib/sanitizedHtmlGrammar.ts:74-80 | the pass keeps the length and changes digits only |
| `Headings.ShiftKeepsBoundaries` | src/lib/sanitizedHtmlGrammar.ts:62-65 | every tag boundary stays where it was |
| `Headings.HeadingsShift` | src/lib/sanitizedHtmlGrammar.ts:67-80 | the headings of the output are those of the input, each one level deeper, h6 staying |
| `Headings.NoTopHeading` | src/lib/sanitizedHtmlGrammar.ts:68-70 | no h1 is left |
| `Headings.ShiftedLevels` | src/lib/sanitizedHtmlGrammar.ts:71 | applied n times, level l becomes min(6, l + n) |
| `Headings.PairsStayPaired` | src/lib/sanitizedHtmlGrammar.ts:74-80 | matching opening and closing headings still match |
| `HeadingTags.TagIsWhole` | src/lib/sanitizedHtmlGrammar.ts:62-65 | a tag written from a name, attributes in every form and an end is matched whole, whatever its quoted values hold and whatever follows |
| `HeadingTags.HeadingIsDeeper` | src/lib/sanitizedHtmlGrammar.ts:74-80 | such a tag is rewritten one level deeper if it is a heading, with everything else in it kept, and kept if it is not |
| `HeadingTags.TagEndsOutsideQuotes` | src/lib/sanitizedHtmlGrammar.ts:62-65 | every match ends at its first `>` outside quotes, where the link scanner ends it too |
| `Enhance.ShownHtml` | src/lib/markdown.ts:260-267 | in what is shown no h1 is left, every link passes the target test, and no link is added or lost after the chips |
| `Cron.NextCronRunMs` | src/lib/freshness.ts:52-64 | the least firing after now; None exactly when the expression never fires |
| `Cron.ChainHasNoGaps` | src/lib/freshness.ts:47-64 | asking again from each answer lists every firing in between |
| `Cron.GovernanceEveryFive` | src/lib/freshness.ts:10 | fires exactly at the whole five minutes |
| `Cron.VotesEveryTwenty` | src/lib/freshness.ts:11 | fires exactly at the whole twenty minutes |
| `Cron.DRepsEverySixHours` | src/lib/freshness.ts:12 | fires exactly at the whole six hours |
| `Cron.NotificationsFollowGovernance` | src/lib/freshness.ts:13 | fires exactly two minutes after a governance tick |
| `Cron.DispatchIff` | src/lib/freshness.ts:24-30 | an event runs a kind of sync exactly when it carries that kind's own cadence |
| `CronFields.SupportedIff` | src/lib/freshness.ts:35-45 | a field is supported exactly in the four shapes: a star, a number, a step, a range with a step |
| `CronFields.RangeField` | src/lib/freshness.ts:39-43 | a range with a step is read as its three numbers |
| `CronFields.PartsDecide` | src/lib/freshness.ts:52-55 | an expression is supported exactly when it has five parts and the last three are stars; the first two are its fields |
| `PairingRuns.ReachedKeeps` | src/components/PairWithDesktop.tsx:206-339 | the invariant of effects, timers, start requests, pacing and storage holds after every run of events |
| `PairingRuns.OneChain` | src/components/PairWithDesktop.tsx:269-334 | while a pairing has no outcome, the newest effect has one poll on the wire or one timer armed, never both or neither, and no other effect can act |
| `PairingRuns.SupersededIsInert` | src/components/PairWithDesktop.tsx:296-300 | an answer to a superseded effect changes neither state nor storage and arms nothing |
| `PairingRuns.SignedInStays` | src/components/PairWithDesktop.tsx:257-264 | no event by itself takes signed-in away |
| `PairingRuns.BlockedNeverStarts` | src/components/PairWithDesktop.tsx:44-58 | with storage blocked the mount effect throws |
| `PairingRuns.StorageMatchesScreenIff` | src/components/PairWithDesktop.tsx:236-246 | an active pairing is the stored one exactly when, by the events of the run, the entry was last written for it |
| `PairingRuns.StorageMatchesScreen` | src/components/PairWithDesktop.tsx:236-246 | with storage available and start requests answered to their own instance, it always is |
| `PairingRuns.StaleStartOverwrites` | src/components/PairWithDesktop.tsx:225-246 | a run in which a late start answer leaves another pairing stored than the one on screen |
| `PairingRuns.TimerPollsArePaced` | src/components/PairWithDesktop.tsx:82-86 | the n-th poll a timer starts comes after the first n waits and before expiry |
| `PairingRuns.AtMost122` | src/components/PairWithDesktop.tsx:79-86 | a pairing that expires within ten minutes of its first wait is polled at most 122 times by timers, for any latencies; the rest is one per visibility event |
| `PairingRuns.PollsAttained` | src/components/PairWithDesktop.tsx:79-86 | a run in which the timer does poll 122 times |
| `PairingRuns.EndedIsForgotten` | src/components/PairWithDesktop.tsx:248-264 | success, failure, expiry and Cancel clear the stored secret; asking for a new code does not |
| `PairingRuns.Relaunch` | src/components/PairWithDesktop.tsx:209-223 | a reload before expiry resumes exactly the stored pairing and polls for it; a later one starts idle and forgets it |
| `PairingAnswers.EveryPhaseHasItsCause` | src/components/PairWithDesktop.tsx:212-315 | over every run: signed in under a name only if a poll was answered with an approval of it; failed only after a failed poll or one due past expiry; a code or a pairing shown only as issued or stored |
| `PairingAnswers.AnswerDecides` | src/components/PairWithDesktop.tsx:297-315 | the answer to the running effect's poll: an approval signs in under its name and forgets the secret, a failure fails unless signed in, anything else changes nothing and waits one step longer |
| `PairingAnswers.TickDecides` | src/components/PairWithDesktop.tsx:285-326 | a timer or a page that becomes visible polls at once, or fails and forgets the secret once the pairing has expired |
| `PairingAnswers.ClickDecides` | src/components/PairWithDesktop.tsx:225-251 | asking for a code or giving up ends all polling; only giving up forgets the secret |
| `PairingAnswers.StartDecides` | src/components/PairWithDesktop.tsx:227-246 | the mounted instance shows the pairing with its code, or the error; one that is gone shows neither and still saves |
| `PairingAnswers.CommitDecides` | src/components/PairWithDesktop.tsx:269-334 | rendering starts polling, after two seconds, for a pairing that is new on screen, and leaves a running effect alone |
| `PairingAnswers.OpeningDecides` | src/components/PairWithDesktop.tsx:44-58 | what each kind of stored entry becomes when the page opens |
| `PairingPhone.Phone.LoadPairing` | src/components/PairWithDesktop.tsx:44-58 | reads the entry, removing an expired or unreadable one and returning one without an expiry, and throws with storage blocked |
| `PairingPhone.Phone.SavePairing` | src/components/PairWithDesktop.tsx:60-67 | stores the pairing, or leaves storage alone where it cannot be written |
| `PairingPhone.Phone.ClearPairing` | src/components/PairWithDesktop.tsx:69-75 | empties the entry |
| `PairingPhone.Phone.FailPairing` | src/components/PairWithDesktop.tsx:261-264 | clears the entry; failed, unless signed in |
| `PairingPhone.Phone.Mounted` | src/components/PairWithDesktop.tsx:212-223 | the mount effect of the protocol |
| `PairingPhone.Phone.HandleStart` | src/components/PairWithDesktop.tsx:225-227 | starting, storage untouched |
| `PairingPhone.Phone.StartAnswered` | src/components/PairWithDesktop.tsx:228-246 | the answer step of the protocol; an instance that is gone saves but cannot change the state |
| `PairingPhone.Phone.HandleCancel` | src/components/PairWithDesktop.tsx:248-251 | clears and goes idle |
| `PairingPhone.PollEffect.Tick` | src/components/PairWithDesktop.tsx:285-296 | no second poll, none after expiry, none once cancelled |
| `PairingPhone.PollEffect.Answered` | src/components/PairWithDesktop.tsx:297-315 | the answer step: re-arm with backoff, sign in, or fail |
| `PairingPhone.PollEffect.TimerFired` | src/components/PairWithDesktop.tsx:303-317 | a timer's poll |
| `PairingPhone.PollEffect.OnVisibilityChange` | src/components/PairWithDesktop.tsx:319-326 | a hidden page or a poll on the wire changes nothing; otherwise the timer is replaced by a poll |
| `PairingPhone.PollEffect.CleanUp` | src/components/PairWithDesktop.tsx:329-333 | cancelled, no timer |
| `Votes.CountUniqueRationales` | src/components/MultiVoteBar.tsx:135-146 | counts the distinct non-empty texts of a selection |
| `Votes.HostUnique` | src/components/MultiVoteBar.tsx:191-197 | the hosting loop over the growing map of anchors |
| `Votes.SubmitMultiVote` | src/components/MultiVoteBar.tsx:163-236 | the calls made and the result, for dependencies that answer by the history of calls |
| `Votes.SubmitVote` | src/components/VotePanel.tsx:57-111 | the same for the single vote, with whether it was recorded |
| `VoteTraces.TraceShape` | src/components/MultiVoteBar.tsx:163-236 | every trace: the first use of each distinct text in order, at most ten; then one cast; then one record; it ends at the call that fails, and a refusal makes none |
| `VoteTraces.HostedOnce` | src/components/MultiVoteBar.tsx:191-197 | no text is hosted twice, and every non-empty one before the cast |
| `VoteTraces.FirstUsesCount` | src/components/MultiVoteBar.tsx:181-189 | there are as many hosting requests as distinct non-empty texts |
| `VoteTraces.CastIsFaithful` | src/components/MultiVoteBar.tsx:199-227 | the k-th vote is the k-th selection's, with the host's answer for its own text or none, and is recorded as cast |
| `VoteTexts.RecordedWithOwnText` | src/components/MultiVoteBar.tsx:128-132 | in every recorded batch each vote is cast and recorded with its own stored text, trimmed, unless that is blank, and else the shared one; its anchor is the host's answer for that text |
| `VoteTexts.CountedTexts` | src/components/MultiVoteBar.tsx:134-146 | the texts counted for the button are exactly those |
| `VoteTraces.RecordingChangesNothing` | src/components/MultiVoteBar.tsx:211-235 | whatever recording answers or throws, calls and result are the same; what it throws is caught and logged |
| `VoteTraces.ButtonAgreesWithCap` | src/components/MultiVoteBar.tsx:290-297 | the count that disables the button exceeds the cap exactly when the submission would be refused for it |
| `VoteFlows.OneActionIsTheSingleVote` | src/components/VotePanel.tsx:57-111 | a batch of one makes the single vote's calls and has its result, wherever a dependency fails, exactly when trimming leaves the rationale alone or leaves nothing |
| `VoteBar.MultiVoteBar.HandleSubmit` | src/components/MultiVoteBar.tsx:423-498 | nothing is hosted or cast if any selected action is gone, and the notice names what was dropped; success clears the draft; failure keeps it |
| `VoteBar.MultiVoteBar.ResetBatchState` | src/components/MultiVoteBar.tsx:391-402 | the batch is empty again |
| `VoteBar.NothingDroppedIff` | src/components/MultiVoteBar.tsx:441-445 | the gate opens exactly when every selected action is still active |
| `VoteBar.SecondSubmitPasses` | src/components/MultiVoteBar.tsx:445-455 | after a drop exactly the active selections are left, in order, and the same answer lets them through |
| `GovSubmit.Island.HandleSubmit` | src/components/SubmitGovAction.tsx:1126-1368 | the calls of a click, and the whole new state: phase, wallet, generation, context, draft |
| `GovSubmit.Island.CheckAccount` | src/components/SubmitGovAction.tsx:1182-1208 | another account drops the wallet and its reads before anything else happens |
| `GovSubmit.Island.CheckChain` | src/components/SubmitGovAction.tsx:1210-1240 | the chain and the recipients are re-read and judged |
| `GovSubmit.Island.PublishAll` | src/components/SubmitGovAction.tsx:1242-1287 | the panel is prepared on the latest context; a constitution's document is published |
| `GovSubmit.Island.SignAll` | src/components/SubmitGovAction.tsx:1288-1322 | the author signs the hash of the metadata that will be published |
| `GovSubmit.Island.Finish` | src/components/SubmitGovAction.tsx:1323-1367 | metadata, transaction, and only then the draft |
| `GovSubmitRuns.FollowsThePlan` | src/components/SubmitGovAction.tsx:1126-1368 | the calls of every click are an initial part of the plan for its form, and all of it exactly when it succeeds |
| `GovSubmitRuns.EffectsInOrder` | src/components/SubmitGovAction.tsx:1251-1353 | what others can see is an initial part of: document, author signature, metadata, transaction |
| `GovSubmitChecks.GateIff` | src/components/SubmitGovAction.tsx:1173-1249 | a call past the checks is made exactly when, by the answers to this click, the account is the connected one, the guardrail is absent or the known one and as on screen, the recipients' re-check finds nothing, the action to follow is in the chain, and the panel is valid |
| `GovSubmitChecks.NothingBeforeTheChecks` | src/components/SubmitGovAction.tsx:288-321 | no effect that others can see happens unless all of these are so |
| `GovSubmitChecks.WhatIsSubmitted` | src/components/SubmitGovAction.tsx:1251-1353 | the transaction carries the connected account, the deposit, the anchor just published, the author's signature over that same metadata, every metadata field from its own field, the panel's own content and document, and the previous action the form follows |
| `GovSubmitEnds.EveryEndIsExplained` | src/components/SubmitGovAction.tsx:1126-1368 | what a click shows in the end is why it ended: the first guard that stopped it, the first check that failed, the panel's error, the failure of its last call, or the accepted transaction |
| `GovSubmitEnds.WhatAClickLeaves` | src/components/SubmitGovAction.tsx:1206-1240 | the context on the form is what this click's own load was answered; the wallet and its balance reads go exactly with a lost or changed account; the draft goes exactly with an accepted transaction |
| `BalanceReads.DroppedReadsAreStale` | src/components/SubmitGovAction.tsx:1375-1381 | no newest-generation read is in flight while no wallet is connected |
| `BalanceReads.ShownBalanceIsCurrent` | src/components/SubmitGovAction.tsx:986-1012 | a balance shown is what some event answered the newest read, started for the connected wallet; one that loads is still being read |
| `BalanceReads.OnlyTheNewestFiles` | src/components/SubmitGovAction.tsx:1004-1011 | only that read's answer changes what is shown |
| `BalanceReads.AddressIsTheLast` | src/components/SubmitGovAction.tsx:1020-1085 | the connected address is what the last successful connect gave |
| `BalanceReads.EventDecides` | src/components/SubmitGovAction.tsx:986-1085 | connecting and asking again start a read newer than every other; dropping the wallet leaves none for it |
| `BalanceReads.WalletStep.StartRead` | src/components/SubmitGovAction.tsx:986-995 | a new generation, loading |
| `BalanceReads.WalletStep.ReadLands` | src/components/SubmitGovAction.tsx:996-1011 | an answer of an older generation is dropped |
| `BalanceReads.WalletStep.ConnectLands` | src/components/SubmitGovAction.tsx:1020-1085 | connected and reading, or back to no wallet |
| `BalanceReads.WalletStep.Reset` | src/components/SubmitGovAction.tsx:1375-1381 | no wallet, and everything in flight is stale |
| `ContextRequests.SubmitSeesTheNewest` | src/components/SubmitGovAction.tsx:606-618 | the reading a submit validates against answers the newest request and is the one on screen, for the form's type |
| `ContextRequests.OvertakenOnlyByRetry` | src/components/SubmitGovAction.tsx:606-639 | during the whole of a submit nothing but "Try again" asks for a newer reading, and that only once the submit holds none |
| `ContextRequests.OlderAnswersChangeNothing` | src/lib/governance/govActionFormState.ts:867-905 | only the newest request's answer reaches the screen, and what is shown belongs to the form's type |
| `ContextRequests.EventAsks` | src/components/SubmitGovAction.tsx:590-639 | over every run, a newer request for the form's type is made by exactly these: a new type that needs one, "Try again", coming back, the submit |
| `ContextRequests.FailedLoadCanBeOvertaken` | src/components/SubmitGovAction.tsx:1417-1430 | a run in which "Try again" overtakes a submit whose own read failed |
| `ContextRequests.ContextHost.LoadContext` | src/components/SubmitGovAction.tsx:482-486 | a new id, loading |
| `ContextRequests.ContextHost.Landed` | src/components/SubmitGovAction.tsx:486-503 | filed only under the newest id, and handed to whoever waits for it either way |
| `ContextRequests.ContextHost.OnVisibilityChange` | src/components/SubmitGovAction.tsx:621-639 | asks again exactly after more than a minute away, outside a submit, for a type with a context |
| `ReviewPreview.ShownIsCurrent` | src/components/govAction/ReviewModal.tsx:94-134 | over all runs, an open dialog shows only what some event answered the newest request, which was sent the text its fields hold now |
| `ReviewPreview.OlderAnswersChangeNothing` | src/components/govAction/ReviewModal.tsx:94-97 | an answer to anything sent before the last open, close, edit or retry changes nothing on screen |
| `ReviewPreview.EventAsks` | src/components/govAction/ReviewModal.tsx:101-158 | over every run, opening, "Try again" and a changed field of an open dialog each send the current text, newer than everything before |
| `ReviewPreview.ReviewModal.StartLoad` | src/components/govAction/ReviewModal.tsx:101-105 | a new request for the text in the fields, loading |
| `ReviewPreview.ReviewModal.LoadLands` | src/components/govAction/ReviewModal.tsx:106-133 | filed only under the newest id; a 400 is worded as too long |
| `ReviewPreview.ReviewModal.Open` | src/components/govAction/ReviewModal.tsx:146-158 | opens and sends a request |
| `ReviewPreview.ReviewModal.Close` | src/components/govAction/ReviewModal.tsx:140-145 | closes, and everything in flight becomes stale |
| `ReviewPreview.ReviewModal.ChangeText` | src/components/govAction/ReviewModal.tsx:134-158 | a changed field asks again in an open dialog and sends nothing from a closed one |
| `ChangesBlock.ParagraphIsBlock` | src/lib/governance/paramDefs.ts:159-170 | the generated paragraph is recognised as one whole block, whatever its lines |
| `ChangesLaws.ParagraphIsPlain` | src/lib/governance/paramDefs.ts:159-170 | built of lines without line ends, it has plain newlines only |
| `ChangesEdit.AppendReadsBack` | src/components/SubmitGovAction.tsx:823-828 | an appended paragraph is the first recognised block |
| `ChangesEdit.ReplaceReadsBack` | src/components/SubmitGovAction.tsx:823-826 | where the block is the first occurrence of its text, it alone is replaced, text around it stays, and the new one is recognised |
| `ChangesLaws.ReadsBackIff` | src/components/SubmitGovAction.tsx:819-828 | an edit is read back exactly when there was no block, or the first occurrence of its text is the block, or the next block after that occurrence already is the paragraph; for every abstract |
| `ChangesLaws.CopyTakesTheEdit` | src/components/SubmitGovAction.tsx:825 | where an earlier copy of its text comes first, that copy takes the edit, and the first block after it is what is recognised |
| `ChangesLaws.OldBlockStays` | src/components/SubmitGovAction.tsx:825 | with plain newlines that is the old block, unchanged |
| `ChangesLaws.StaleBlockStays` | src/components/SubmitGovAction.tsx:825 | for any two blocks an abstract in which that happens |
| `ChangesClick.ClickIs` | src/components/SubmitGovAction.tsx:819-834 | a click puts the paragraph in place of the first occurrence of the recognised block, or after a blank line at the end, unless it is there already or more than 2500 characters would result; and it changes nothing exactly then |
| `ChangesClick.EditedOnce` | src/components/SubmitGovAction.tsx:819-828 | that describes one text only |
| `ChangesClick.LineStarts` | src/components/SubmitGovAction.tsx:286 | a block is recognised behind exactly the four line ends of JavaScript |
| `ChangesClick.ParagraphSays` | src/lib/governance/paramDefs.ts:159-170 | two paragraphs are equal exactly when all their lines are |
| `ChangesOverwrite.SecondClickRefusedIff` | src/components/SubmitGovAction.tsx:820-834 | a second identical click does nothing exactly when the first did nothing, or its edit is read back, or there is no room |
| `ChangesOverwrite.OverwritesIff` | src/components/SubmitGovAction.tsx:805-826 | editing with p then q is editing with q, for all paragraphs, exactly when the abstract's first header text is the one that starts its block or, while there is no block, the text a paragraph is appended to holds no header text |
| `Slug.SlugForm` | src/lib/slug.ts:12-21 | empty, or runs of a-z and 0-9 with single hyphens between, within the cap |
| `Slug.Idempotent` | src/lib/slug.ts:12-21 | a slug is its own slug under any cap it fits |
| `Slug.SlugIsWords` | src/lib/slug.ts:7-11 | where the cap does not bite, the words of the name joined by hyphens |
| `Slug.CapIsLongest` | src/lib/slug.ts:19-20 | of all slugs that begin the full slug and fit the cap, the longest |
| `Slug.PrefixUnderSmallerCap` | src/lib/slug.ts:12-21 | a smaller cap gives a prefix |
| `Slug.TailIsEnd` | src/lib/slug.ts:27-29 | the tail is the last characters of the id, as many as asked for where it has them |
| `Slug.TailsAreInjective` | src/lib/slug.ts:23-29 | slugs with id tails are equal exactly when base and tail are |

## Left out

- Rate limiting: the theorems over runs are for one limit and one window length per key, as every caller uses; the storage steps themselves take any options.
- Strings are sequences of UTF-16 code units; case folding and `i`-flag matching are ASCII only.
- The Markdown renderer, the sanitizer and the escaping of attribute values: the passes start from stored HTML, any string at all.
- Mention rendering and the rest of src/lib/markdown.ts.
- `detectIdentifier` is modelled as a reading of the text; looking the result up in the database is not.
- Cron: fields beyond the four supported shapes are read as unsupported, as in the source; dates outside the range of `Date` and the rounding of large numbers are not modelled.
- Pairing: other tabs that write the same storage entry, the wording of errors, and that a server lets only one poll claim an approval.
- Pairing: a stored entry with an id that is null, which is shown but never polled for; the ids of an entry that parses without them are any strings here.
- Pairing: React may apply an update made outside a click later than one made in it; the model applies them in order.
- Votes: building and signing the transaction, the wallet connection phases, draft persistence (`restoreDraft`, `restoreVoteDraft`), `toggleSelection`, and a selection's re-vote counter.
- Votes: the callback that shows the anchor as soon as it is hosted.
- GovSubmit: the validators of the form's panels and the readiness list are parameters; building the transaction, wording of errors (`mapSubmitError`, `pinRefusalMessage`) and the status poll after success are not modelled.
- GovSubmit: of a reading of the chain, only the purpose chain and the guardrail are told apart; everything else in it is one value that the validators see.
- GovSubmit.Island.CheckChain: the reads of the chain and of the recipients are started in the source's order; which of them is answered first is not modelled, and makes no difference to what follows both.
- BalanceReads: which wallet extension is chosen, the network guard, and remembering the choice; that a connect ends at most once is a premise of the events.
- ContextRequests: change notes, the age of a reading, and the separate check of treasury recipients while the form is edited.
- ReviewPreview: opening and closing the native dialog and the page's scroll lock.
- ChangesBlock: the formatting of values inside a line of the paragraph; a line is any text without a newline.
- Slug: compatibility decomposition and the removal of combining marks; the model starts from their result.
- Rendering, styling, focus, clipboard, caching, databases and the server side of every request.
