# Verification of the Quagenticus core

This project models the parts of Quagenticus that carry an algorithm or a protocol, and proves what
they are for. Every module has a comment with the file it models. State that the program changes in
place is a class here (`LeaseTables`, `RateLimiter`, `BoardPage`, `Table`, `EditorPage`, `DocumentTable`,
`RefreshTokens`, `Session`, `LocalStore`, `Clauses`); its methods are proved against functions on values,
and the laws over whole runs are proved about those functions.

| module | what it is about |
|---|---|
| `Diff` | the line diff between two versions of a document |
| `Lease`, `LeaseTables` | the leases by which agents claim requirements |
| `Refs`, `RemarkRefs`, `ServerRefs` | the grammar of references, the links made of it, and how the server reads it |
| `Completion`, `Brackets`, `CompletionGaps` | completions of references, and what they are read back as |
| `RateLimit`, `RateLimiters` | the limiter in front of the login |
| `BoardOrder`, `Board`, `BoardPage` | dragging a card over a board |
| `Reorder`, `DropToServer` | how the server stores where the card was dropped |
| `Documents`, `DocumentEditor`, `DocumentWorld`, `DocumentSave`, `DocumentGaps`, `EditorPage` | any number of editors on one versioned document |
| `Sessions`, `ApiClient`, `SessionObjects` | refresh tokens, and the browser that rotates them |
| `Upload` | multipart uploads and the storage under them |
| `RequirementQuery`, `RequirementList`, `Paging` | filters turned into SQL with positional parameters, and the pages of the answer |
| `AgentCache` | the answers for agent keys that are kept for a minute |
| `Wrappers`, `Sets`, `Text` | options, members of sets, lines of text |

Assumptions, throughout: a database function is one atomic step, except `document_update`, which is two;
steps are serial; and clocks do not run backwards. Randomness, clocks, locks held by others, faults of disk and network, and
the order in which things happen are parameters or events of the model, so that the theorems hold for all
of them. A class of the browser or of a table has an invariant `Valid`, which every event keeps; the events
of the document editor also keep it honest about what is saved, or say exactly when they do not.

## Where the code does less than one would expect

The code is modelled as it is. These are the places where a law one would like does not hold of it, each
with the exact condition under which it does, and with an input or a run for which it does not:

- A diff is not minimal when the size guard fires and the texts share a line (`Diff.DiffIsMinimalIff`,
  `TextAgainstItself`).
- `document_update` reads the document without a lock. A version is lost if and only if a write comes after
  another one since its own read; two updates that name the same version then both go through
  (`DocumentWorld.NothingIsLostIff`, `NoLostUpdateIff`, `Documents.RaceLosesIff`, `RaceLoses`,
  `DocumentGaps.RaceIsReachable`).
- Even when no write races, a save of the document editor can replace a version that its user never saw:
  the answer to a save is read from the document after the commit, so it can be somebody else's later
  version, and the editor takes that as its base (`DocumentWorld.NextIsBasedIff`, `OvertakenLoses`,
  `DocumentGaps.OvertakenIsReachable`). The versioning described in docs/ARCHITECTURE.md:1538-1547
  promises more.
- The editor can say that all is saved when it is not (`DocumentWorld.NextSettlesIff`, and a run for each
  of the four events in `DocumentGaps`). One of them is an insertion that finds no mounted view: the dialog
  for it is opened from the toolbar, which is there in two of the three modes of the page, and does not
  close when the page goes over to the third. Another is a save whose handler was made by an earlier render:
  its timer can fire after a keystroke and before the effects of the next render have replaced it.
- `agent_claim_next` can fail on the row it picked (`Lease.ClaimNextFailsIff`, `ClaimNextCanFail`), and a
  lapsed lease can be renewed (`Lease.RenewRevives`, `RenewingALapsedLease`).
- A completion is not read back inside a wikilink, for titles and handles that the grammar cannot express
  (`Completion.CompletionRoundTrip`), and for requirements chosen after brackets that follow a word or a
  reference (`Brackets.BracketsRoundTripIff`). `CompletionGaps` has a text for each.
- The grammar of references is said to be the same on the page and on the server. It is for wikilinks
  (`ServerRefs.SameWikilinks`), and for the other kinds outside wikilinks and not right after another
  reference (`ServerRefs.PageReadsSigilIff`, `PageReadsBareIff`, `PageReadsServerMentionsIff`;
  `OnlyTheServerReads`, `AlsoAMention`).
- A browser presents a refresh token twice when the answer to a refresh is lost or issuing failed
  (`ApiClient.NextIsFreshIff`, `BrokenSignsOut`, `BreaksIsReachable`).
- A changed password does not end the sessions of a user one of whose refreshes, or one of whose logins
  with the old password, is between its two steps, or when revoking fails, which is not reported
  (`Sessions.PasswordEndsSessionsIff`, `FailedRevokeLeavesASession`, `RefreshOutlivesThePassword`,
  `LoginOutlivesThePassword`).
- The cache of agent keys is purged before the update and not after, so it can keep an answer that the
  update takes back (`AgentCache.PurgeThenUpdateIff`, `PurgedTooSoon`).
- The list of requirements is ordered by a column and the time of creation, which need not tell rows apart:
  a row can be on two pages and another on none (`Paging.PagesAreTheRowsIff`, `TieAtThePage`).

## Model

| member | source | states |
|---|---|---|
| `Diff.DiffLines` | web/src/lib/diff.ts:4-37 | The imperative algorithm (table filled bottom-up in 32-bit cells, forward walk, two tail loops, size guard) returns exactly the script of the specification, and terminates |
| `Diff.FillTable` | web/src/lib/diff.ts:12-17 | Every cell of the finished table is the length of a longest common subsequence of the two suffixes |
| `Diff.LcsIsUpperBound` | web/src/lib/diff.ts:15 | No alignment of two suffixes, of any shape, is longer than the recurrence says |
| `Diff.LcsIsAttained` | web/src/lib/diff.ts:15 | Some alignment is that long: the recurrence is the length of a longest common subsequence |
| `Diff.TableEntryBound` | web/src/lib/diff.ts:9-15 | Under the guard no cell exceeds 2000, so no 32-bit cell wraps |
| `Diff.DiffIsFaithful` | web/src/lib/diff.ts:4-36 | The same and del lines joined by newlines are the old text, the same and add lines the new one, and the numbers run 1..n and 1..m in order, in the fallback too |
| `Diff.ScriptKeepsAtMostLcs` | web/src/lib/diff.ts:12-36 | No script at all from one text to the other keeps more lines than a longest common subsequence has |
| `Diff.DiffKeepsLcs` | web/src/lib/diff.ts:9-36 | Up to 4,000,000 cells the script keeps exactly that many lines and its length is n + m minus that |
| `Diff.DiffIsMinimalIff` | web/src/lib/diff.ts:9-36 | No valid script has fewer add and del lines, if and only if n times m is at most 4,000,000 or the texts have no line in common |
| `Diff.TextAgainstItself` | web/src/lib/diff.ts:9-10 | The failing case: there is a text whose comparison with itself is not minimal, one of 2001 equal lines |
| `Diff.WalkIsFirstMinimal` | web/src/lib/diff.ts:21-35 | What the >= tie-break means: among all scripts that keep as many lines, the output is the lexicographically first, same before del before add |
| `Diff.WalkIsCanonical` | web/src/lib/diff.ts:21-35 | Every change hunk is canonical: no add is directly followed by a del, through the tail loops (`Diff.DiffIsFaithful` has the fallback too) |
| `Diff.AddIsNotFollowedByDel` | web/src/lib/diff.ts:26-32 | Why: where the tie-break prefers an add, the next step of the walk is never a del |
| `Lease.ExclusiveAlways` | db/agent/agent_functions.sql:20-176 | After any run of claims, takeovers, renewals, releases and sweeps, and at every later instant, at most one claim row of a requirement is open and unexpired |
| `Lease.SupersededRowsAreFrozen` | db/agent/agent_functions.sql:37-56 | A row superseded by a takeover, or completed, is never written again by any run: each claim row is completed at most once |
| `Lease.StepKeeps` | db/agent/agent_functions.sql:20-176 | Claim columns are all null or all set and, when set, agree with an open row of that requirement, agent and expiry whose agent is a member; every operation keeps this and evolves rows only through the current claim |
| `Lease.RunLeavesOrphansLapsed` | db/agent/agent_functions.sql:37-56 | Every open row that is not the current claim of its requirement has lapsed, in every reachable state |
| `Lease.ClaimGrantsIff` | db/agent/agent_functions.sql:33-60 | A claim is granted exactly when the caller is an agent, the row exists and is not locked, its status is claimable, no claim row of it is live, and this agent has no row for it acquired at this instant |
| `Lease.ClaimAnswers` | db/agent/agent_functions.sql:33-60 | Which of the five errors a claim that is not granted answers with, over the rows and the caller alone |
| `Lease.GrantLasts` | db/agent/agent_functions.sql:50-76 | A granted lease lives for exactly its length, is the current one, remembers the status it came from, has no renewal yet, makes its agent a member, moves the card if the catalogue has a status for work in progress, and changes no other row |
| `Lease.ClaimingAgainIsIdempotent` | db/agent/agent_functions.sql:37-43 | Claiming what one holds changes nothing and answers with the lease there is |
| `Lease.RenewalExtends` | db/agent/agent_functions.sql:103-117 | A renewal counts and moves the expiry to a lease from now, in the row and in the requirement, and changes nothing else |
| `Lease.ReleaseEndsOne` | db/agent/agent_functions.sql:120-157 | A release goes through exactly for a claimed requirement and a caller that is no other agent, and each error has its case; it completes the current row at that time with that state, clears the lease columns, ends the membership, and changes nothing else; the status goes back to the one it was claimed from exactly for abandoned, failed and expired, when the transition succeeds |
| `Lease.LiveLeaseIsUntouchable` | db/agent/agent_functions.sql:33-176 | Until a lease lapses, nothing that other agents, the sweeper or the rest of the database do, in any order, changes its row (a release by a user does) or takes the requirement away |
| `Lease.ReleaseRestoresStatus` | db/agent/agent_functions.sql:120-157 | Claim, then anything, then release: with abandoned, failed or expired the requirement is back in the status it was claimed from, when the transition succeeds, and with any other state its status stays |
| `Lease.SweepRestoresStatus` | db/agent/agent_functions.sql:160-176 | Claim, then anything, then expiry: the same |
| `Lease.SweepIsExact` | db/agent/agent_functions.sql:160-176 | The sweep releases exactly the requirements whose lease ended before now and whose row nobody has locked, returns their number, completes only their rows, as expired, ends only their memberships, changes no other requirement, and leaves nothing to sweep |
| `Lease.QueueHasHead` | db/agent/agent_functions.sql:81-100 | A non-empty queue has a row of greatest weight, then least board position, then least creation time |
| `Lease.ClaimNextFailsIff` | db/agent/agent_functions.sql:81-100 | The claim inside agent_claim_next fails only for a caller that is no agent, or one with a row for that requirement acquired at this very instant; otherwise it grants the head of the queue |
| `Lease.ClaimNextCanFail` | db/agent/agent_functions.sql:44-100 | That second case is reachable: claim, give back and ask again within one transaction |
| `Lease.RenewRevives` | db/agent/agent_functions.sql:103-117 | Renewing succeeds exactly for the current claim of the caller, lapsed or not, and a lapsed one is live again afterwards |
| `Lease.RenewingALapsedLease` | db/agent/agent_functions.sql:103-117 | A run from the start in which a lapsed lease is renewed and live again |
| `LeaseTables.LeaseTables.AgentClaim` | db/agent/agent_functions.sql:20-78 | agent_claim: the tables after the call, and the answer or the error, are those of the specification; the invariant is kept |
| `LeaseTables.LeaseTables.AgentClaimNext` | db/agent/agent_functions.sql:81-101 | agent_claim_next, picking a head of the queue: the tables after the call, and the answer or the error, are those of the specification; the invariant is kept |
| `LeaseTables.LeaseTables.AgentClaimRenew` | db/agent/agent_functions.sql:103-117 | agent_claim_renew: the tables after the call, and the answer or the error, are those of the specification; the invariant is kept |
| `LeaseTables.LeaseTables.AgentRelease` | db/agent/agent_functions.sql:120-157 | agent_release: the tables after the call, and the answer or the error, are those of the specification; the invariant is kept |
| `LeaseTables.LeaseTables.AgentClaimsExpire` | db/agent/agent_functions.sql:160-176 | agent_claims_expire, whose loop is proved never to raise and to count what it releases: the tables after the call, and the answer or the error, are those of the specification; the invariant is kept |
| `Refs.TokenizeRefs` | web/src/lib/refs.ts:24-66 | The loop over the matches, with its merging of text and its trimming of handles, returns the tokens of the specification |
| `Refs.SplitHandle` | web/src/lib/refs.ts:52-57 | The trimming loop terminates with a non-empty handle; handle and trailing give the matched text back |
| `Refs.TokenizingIsLossless` | web/src/lib/refs.ts:24-66 | For every text, the token values and raw fields concatenated are the text; no text token is empty, no two are adjacent, and every token is what its raw text says, read without the matcher: target before the first bar and alias after it, both without the white space around them, a requirement key without its sign, a handle in small letters |
| `Refs.BarredLinkMeans` | web/src/lib/refs.ts:37 | A wikilink whose brackets hold x, a bar and y has target x and alias y, trimmed, and no alias when that is empty |
| `Refs.PlainLinkMeans` | web/src/lib/refs.ts:37 | One whose brackets hold x alone has target x, trimmed, and no alias |
| `Refs.TrimIff` | web/src/lib/refs.ts:37 | Trimming takes the white space at both ends, all of it and nothing else |
| `Refs.ScanIsMatched` | web/src/lib/refs.ts:33 | Every match of the scan is the match of the pattern at its start |
| `Refs.NextIsMatch` | web/src/lib/refs.ts:33 | The search finds the leftmost match and misses none |
| `Refs.WikiIff` | web/src/lib/refs.ts:15 | The wikilink matcher accepts exactly the spans of the first alternative, described without it |
| `Refs.SigilIff` | web/src/lib/refs.ts:16 | So does the matcher of #123, @123 and #KEY-123 |
| `Refs.BareIff` | web/src/lib/refs.ts:17 | So does the matcher of KEY-123 |
| `Refs.MentionIff` | web/src/lib/refs.ts:18 | So does the matcher of @handle, with its greedy bound of 40 characters |
| `Completion.CompletionRoundTrip` | web/src/lib/refs.ts:104-118 | Accepting a completion round-trips across detectTrigger, suggestionInsertText and tokenizeRefs: the reference and a space replace what was typed, the text around stays, and it reads back with exactly the chosen reference at exactly the trigger, if and only if the item can be written in the grammar and the trigger is not inside a wikilink |
| `Completion.NoBracketNoSurprise` | web/src/lib/refs.ts:104-118 | In particular whenever the text before the trigger holds no opening bracket |
| `Completion.TriggerIff` | web/src/lib/refs.ts:104-112 | Which trigger is found, for every text and caret: the leftmost brackets with at most 60 characters after them that leave them open, with the text after them; else the sign after a context character with at most 40 query characters up to the caret, of the kind of that sign; else none |
| `Completion.OffersByText` | web/src/lib/refs.ts:114-118 | What is offered, by the text at the trigger: users only after an at sign without a digit, documents only after brackets, requirements always, in that order |
| `Brackets.BracketsRoundTripIff` | web/src/lib/refs.ts:114-115 | For a requirement offered after brackets, the exact condition on the text before them: it is empty, or its last character can precede a reference and is not the end of one that the text has; and the brackets are in no wikilink |
| `Completion.UserMatches` | web/src/components/editor/SuggestionList.tsx:14-18 | What is printed for a user is matched as that mention, if the handle does not end in a dot, dash or underscore |
| `Completion.RequirementMatches` | web/src/components/editor/SuggestionList.tsx:14-18 | What is printed for a requirement is matched as that requirement, after any context character |
| `Completion.DocumentMatches` | web/src/components/editor/SuggestionList.tsx:14-18 | What is printed for a document is matched as a wikilink with that title, for trimmed titles without brackets, bars and newlines |
| `CompletionGaps.TitleIsLost` | web/src/components/editor/SuggestionList.tsx:14-18 | A failing case: a title with a closing bracket, offered and chosen, is not read back |
| `CompletionGaps.AfterAWordIsLost` | web/src/lib/refs.ts:114-115 | Another: a requirement chosen after brackets that follow a word |
| `CompletionGaps.InsideALinkIsLost` | web/src/lib/refs.ts:104-118 | Another: a requirement chosen inside a wikilink that is open further back than the trigger looks |
| `ServerRefs.SameWikilinks` | db/md/md_functions.sql:139-146 | The server, with an expression of its own, finds exactly the wikilinks that the page finds with one expression for all references, in the same places of every text |
| `ServerRefs.ServerReadsIff` | db/md/md_functions.sql:124-137 | For each expression of the server: it reads what stands with its context, unless something of the same kind that it has read ends there |
| `ServerRefs.ServerReadsRequirementsIff` | db/md/md_functions.sql:124-132 | Of requirements, with #, with @ or bare, that is everything that stands: no match of its scans hides another |
| `ServerRefs.StandsIff` | web/src/lib/refs.ts:16-18 | What it is for a reference to stand somewhere, written out: the span that its expression accepts, after the start of the text or a character that is no letter, no number and none of those the expression names |
| `ServerRefs.PageReadsSigilIff` | db/md/md_functions.sql:127-128 | Of the requirements with # or @ that the server finds, the page reads exactly those that are in no wikilink and do not follow a reference directly, and no others |
| `ServerRefs.PageReadsBareIff` | db/md/md_functions.sql:130-131 | Of the bare keys, exactly those that are in no wikilink and not right after one, and no others |
| `ServerRefs.PageReadsMentionIff` | web/src/lib/refs.ts:18 | The page reads exactly the mentions that stand, that are no requirement as well, are in no wikilink and do not follow a reference directly |
| `ServerRefs.PageReadsServerMentionsIff` | db/md/md_functions.sql:134-137 | Where no dash precedes, those are the mentions of the server but for the ones that are requirements as well, in a wikilink, or right after a reference |
| `ServerRefs.OnlyTheServerReads` | db/md/md_functions.sql:124-132 | The failing case: in [[#12]] the server finds a requirement and the page does not |
| `ServerRefs.AlsoAMention` | db/md/md_functions.sql:134-137 | Another: @AB-12 is a requirement for the page and also a mention for the server |
| `RemarkRefs.EveryLinkLeadsBack` | web/src/components/markdown/remarkRefs.ts:20-33 | A text becomes one node per token, in order; a link shows the reference as it is written, or the alias or else the target of a wikilink, and its address, split and decoded as the page that shows it does, gives back the kind of the reference and what it refers to |
| `RemarkRefs.WalkKeepsVisibleTextIff` | web/src/components/markdown/remarkRefs.ts:14-42 | The visible text of any tree is kept if and only if the text that is walked has no wikilink, and is strictly shorter otherwise |
| `RemarkRefs.WalkIsIdentityIff` | web/src/components/markdown/remarkRefs.ts:14-42 | A tree is left exactly as it is if and only if no text in it, outside code, links, definitions, HTML and images, holds a reference |
| `RateLimiters.RateLimiter.Allow` | internal/auth/ratelimit.go:27-45 | The method with its purge loop changes the map and answers as the specification does: a hit opens a window at its own time or is counted in the one there is, whose start stays, and goes through while the count is at most the limit; every live window of another key is kept, and at most 10000 keys are never purged |
| `RateLimit.KeysAreIndependent` | internal/auth/ratelimit.go:27-52 | For every trace of calls, a key is told exactly what a limiter of its own that never purges would tell it, from any state |
| `RateLimit.PurgeIsUnobservable` | internal/auth/ratelimit.go:31-37 | In particular from the start: the purge above 10000 keys cannot be told from the answers |
| `RateLimit.BurstBound` | internal/auth/ratelimit.go:38-44 | In any interval no longer than the window a key that is not reset gets at most 2 * max(limit, 1) - 1 hits through, whatever the other keys do |
| `RateLimit.BurstBoundAlways` | internal/auth/ratelimit.go:27-52 | And so it does from every reachable state: after any calls whatever, whether or not the window has been purged since |
| `RateLimit.WindowBound` | internal/auth/ratelimit.go:38-44 | Within one started window at most max(limit, 1) hits get through |
| `RateLimit.BurstBoundIsTight` | internal/auth/ratelimit.go:38-44 | For every limit and window that many do get through |
| `RateLimit.AnswersAreByWindow` | internal/auth/ratelimit.go:38-44 | Every answer follows from the times of the hits alone: a hit later than the window of an earlier opening hit opens one, which lasts until that time plus the window whatever is refused meanwhile, and within it exactly the first max(limit, 1) hits go through |
| `RateLimit.ResetBeginsAnew` | internal/auth/ratelimit.go:47-52 | After a reset the key is told what a key without any hit would be told, whatever came before |
| `RateLimit.RetriesDoNotExtend` | internal/auth/ratelimit.go:38-44 | With limit 1 and window 60 the hits at 0, 30 and 61 are let through, refused and let through: a retry does not extend the window |
| `BoardOrder.ArrayMove` | web/src/lib/boardOrder.ts:14-19 | The two splices, for all indices of JavaScript: the element moved is at the index asked for and the others are as before; where there is none to move, nothing is lost and what JavaScript has for nothing is put in |
| `BoardOrder.MovedIsAPermutation` | web/src/lib/boardOrder.ts:14-19 | It is a permutation that keeps the relative order of the others |
| `BoardOrder.NeighboursRebuild` | web/src/lib/boardOrder.ts:5-12 | Taking the card out and putting it back where its neighbours say rebuilds the order |
| `BoardOrder.NeighboursDetermine` | web/src/lib/boardOrder.ts:5-12 | Two orders of the same other cards give the same request if and only if they are the same order |
| `Board.DragKeepsThePartition` | web/src/pages/Board.tsx:117-140 | Through any drag over any board, with handlers of any earlier render, the columns stay a partition of the same cards into their statuses: without the dragged card every column is the original, and that card is there once |
| `Board.OverKeepsPlaced` | web/src/pages/Board.tsx:123-140 | Each drag event leaves the columns equal to the board with one card taken out and put in again |
| `Board.OverAColumn` | web/src/pages/Board.tsx:117-140 | Over a column the dragged card goes last in it, with the status of that column, and out of the one it was in |
| `Board.OverACard` | web/src/pages/Board.tsx:117-140 | Over a card of another column it goes right above that card |
| `Board.OverNothing` | web/src/pages/Board.tsx:117-140 | Over anything else, and over its own column, nothing changes |
| `Board.OverGoes` | web/src/pages/Board.tsx:117-140 | Together: where the card is after any hover, however old the render that the handler sees |
| `Board.LandingTakesTheIndex` | web/src/pages/Board.tsx:150-155 | A drop over a card of its own column takes the index of that card |
| `Board.DropSendsIff` | web/src/pages/Board.tsx:142-160 | While the board does not change, a drop sends a move if and only if the column or its order really differs from the board |
| `Board.DragAndDropSendsIff` | web/src/pages/Board.tsx:117-160 | From start to drop: after any drag events, with the columns of any render, a drop sends a move if and only if the card lands elsewhere than where it was |
| `Board.SentShowsTheLanding` | web/src/pages/Board.tsx:172-186 | The request names the status and the neighbours of the landing order, and the columns shown meanwhile have exactly that order, every other card unchanged |
| `Board.CacheShowsTheDrop` | web/src/pages/Board.tsx:176-182 | The cached board after the optimistic update is well formed and shows what the drop showed |
| `BoardPage.BoardPage.OnBoard` | web/src/pages/Board.tsx:76-79 | The page shows exactly the columns of the board that was fetched, unless a drag is under way, which goes on undisturbed; the invariant of the page is kept |
| `BoardPage.BoardPage.OnDragStart` | web/src/pages/Board.tsx:117-120 | Taking up a card that is shown: the origin is the column it is in, and from here on the columns are those of the start with one card moved |
| `BoardPage.BoardPage.OnDragOver` | web/src/pages/Board.tsx:117-140 | However old the render of the handler: no card is lost or doubled, all but the dragged one stay where they were, and that one goes last in the column that is hovered, right above the card that is hovered in another column, and nowhere over anything else |
| `BoardPage.BoardPage.OnDragEnd` | web/src/pages/Board.tsx:142-165 | A drop in the column of origin asks for what it shows, and on the board it started from asks if and only if the order differs; a drop in another column waits for the dialog, with the board of the server shown meanwhile; a drop that asks for nothing leaves that board |
| `BoardPage.BoardPage.OnExtras` | web/src/pages/Board.tsx:162-189 | The dialog answered: the move asks for the place that is shown from then on, although the board may have been fetched anew meanwhile |
| `BoardPage.BoardPage.OnCancelled` | web/src/pages/Board.tsx:162-170 | The dialog cancelled: nothing is asked, and the columns are those of the board of the drop |
| `BoardPage.BoardPage.OnDragCancel` | web/src/pages/Board.tsx:331 | A cancelled drag leaves exactly the columns of the server |
| `BoardPage.BoardPage.OnMoveFailed` | web/src/pages/Board.tsx:196-200 | After a refused move the page shows exactly the columns of the board from before it |
| `Reorder.ReorderHonoursTheDrop` | db/requirement/requirement_functions.sql:466-522 | If the list without the card is in the order of the rows, then after the reorder the list with the card at its neighbours is, rounding and rebalance included |
| `Reorder.ReorderKeepsTheOthers` | db/requirement/requirement_functions.sql:466-522 | Any two other cards of the column, listed or not, keep their order; without a rebalance no other row changes |
| `Reorder.Table.RequirementReorder` | db/requirement/requirement_functions.sql:466-522 | The two-round loop with its rebalance: the card ends 1000 below or above its one neighbour, or at the middle between two to ten decimals, or where it was; the others are numbered anew, 1000 apart, exactly when the two were closer than 0.000001 |
| `Reorder.RoundsToTenDecimals` | db/requirement/requirement_functions.sql:515 | Rounding gives a multiple of the tenth decimal, none is nearer, and of two as near the one farther from zero |
| `DropToServer.DroppedOrderIsStored` | web/src/pages/Board.tsx:142-186 | End to end: the order a drop shows is the order the server has after the move |
| `Documents.UpdatesKeepEveryVersion` | db/document/document_functions.sql:73-110 | An update goes through exactly when the document is not archived and no version or the current one is named; it makes the next version with the body and title sent, the title without the blanks around it, and every earlier one can still be read |
| `Documents.BTrimIff` | db/document/document_functions.sql:100 | The title that is stored is the longest stretch of what was sent that has no blank at either end |
| `Documents.RaceLosesIff` | db/document/document_functions.sql:77-106 | document_update reads without a lock and writes later: between the two, no version is lost if and only if nobody else has written |
| `Documents.RaceLoses` | db/document/document_functions.sql:77-106 | The failing case: two updates that name the same version both go through, and the text of the first is gone |
| `DocumentWorld.NoLostUpdateIff` | web/src/pages/DocumentEditor.tsx:89-115 | With any number of editors and other writers, whose updates read and write in any order: as long as no editor was told of a version written after its own save and no write has raced another, a save that names a version replaces one whose text the editor had taken or written, or that its user chose to overwrite, if and only if its own write does not race |
| `DocumentWorld.NextIsBasedIff` | internal/handlers/documents.go:124-163 | The exact condition, per step: the base of an editor becomes a version it never had if and only if the answer to its save, read after the commit, is of a later version and is not adopted |
| `DocumentWorld.OvertakenLoses` | internal/handlers/documents.go:124-163 | The condition is needed: from every such state, if that editor saves before anybody else does, it replaces a version it never had |
| `DocumentGaps.OvertakenIsReachable` | internal/handlers/documents.go:124-163 | A run from a new document that ends in such a state |
| `DocumentWorld.SavedMeansSaved` | web/src/pages/DocumentEditor.tsx:72-135 | An editor that says saved shows the text of the server at its base version, and any text typed and not yet accepted keeps it in an unsaved state, unless one of the four events of NextSettlesIff happened or a write has raced another |
| `DocumentWorld.NextSettlesIff` | web/src/pages/DocumentEditor.tsx:89-169 | Exactly which events break that: an insertion without a mounted view while saved or while the text is on its way, overwriting another version when no save can start, such an overtaken answer, and a save that starts with the text of an earlier render |
| `DocumentGaps.MisledByAnInsertion` | web/src/pages/DocumentEditor.tsx:160-165 | A run from a new document for the first of them |
| `DocumentGaps.MisledByTheDialog` | web/src/pages/DocumentEditor.tsx:404-413 | A run for the second |
| `DocumentGaps.MisledByAnAnswer` | web/src/pages/DocumentEditor.tsx:97-100 | A run for the third |
| `DocumentGaps.MisledByAnEarlierRender` | web/src/pages/DocumentEditor.tsx:117-122 | A run for the fourth: the timer of the render before the last keystroke fires |
| `DocumentWorld.NothingIsLostIff` | db/document/document_functions.sql:80-106 | Over any run of reads and writes in any order, all versions of the document can be read in the end if and only if no write has raced another |
| `DocumentWorld.RunIsSound` | db/document/document_functions.sql:91-96 | And then each still has the text it had at any point before |
| `DocumentWorld.NextKeepsIff` | db/document/document_functions.sql:80-106 | Per step: exactly a write that comes after another write since its read loses a version |
| `DocumentGaps.RaceIsReachable` | db/document/document_functions.sql:80-106 | A run from a new document with such a write |
| `DocumentWorld.NextIsSound` | web/src/pages/DocumentEditor.tsx:72-115 | Everything an editor has in its cache, its dialog, its base and its requests is a version of the document, in every reachable state |
| `DocumentEditor.StepSettlesIff` | web/src/pages/DocumentEditor.tsx:72-135 | The same exact condition for one editor and one event |
| `DocumentEditor.StepIsBasedIff` | web/src/pages/DocumentEditor.tsx:97-100 | The same for the base of one editor |
| `DocumentSave.SaveLands` | web/src/pages/DocumentEditor.tsx:89-115 | From any state of a document and its editors: a save against the current version, with nothing in between, becomes the next version with that text and the trimmed title, and the page says saved and is based on it |
| `DocumentSave.SaveConflicts` | web/src/pages/DocumentEditor.tsx:89-115 | Against any other version it changes nothing, and the page ends in a conflict that shows the current version, with its own text |
| `DocumentSave.SaveIsRefused` | web/src/pages/DocumentEditor.tsx:89-115 | An archived document takes no save: the page says that it failed, and has its text |
| `EditorPage.EditorPage.OnChange` | web/src/pages/DocumentEditor.tsx:311 | What is typed is owed to the user, the page says it is unsaved and changes nothing else; what the page has stays true of the document |
| `EditorPage.EditorPage.OnTitle` | web/src/pages/DocumentEditor.tsx:211 | A new title is unsaved, and nothing that is owed is given up for it |
| `EditorPage.EditorPage.Insert` | web/src/pages/DocumentEditor.tsx:160-169 | The reference is in the text and owed to the user; the page stays honest about what is saved if and only if there was a view, nothing to insert, or unsaved text that is not on its way |
| `EditorPage.EditorPage.OnFetched` | web/src/pages/DocumentEditor.tsx:72-81 | A fetched version never replaces unsaved text, title or base; a page that says saved takes all three from a version it did not have in its cache |
| `EditorPage.EditorPage.Save` | web/src/pages/DocumentEditor.tsx:89-115 | One save at a time; its handler is that of some render, and asks to put the text of that render, and the title sent, in place of a version that the editor had then or that its user agreed to overwrite; the page says saving, and stays honest if and only if its text has not changed since |
| `EditorPage.EditorPage.OnAnswer` | web/src/pages/DocumentEditor.tsx:97-110 | After an answer the page can save again. Accepted: its base is the document of the answer, a page that was saving says saved, and text and title change only when that document is shown. Rejected: it looks the document up. Refused: it says failed. The one answer that makes it dishonest is that somebody else saved in between and it is not shown |
| `EditorPage.EditorPage.OnConflict` | web/src/pages/DocumentEditor.tsx:101-104 | The page says conflict, the dialog shows a version of the document, and text, title and base are untouched |
| `EditorPage.EditorPage.UseServer` | web/src/pages/DocumentEditor.tsx:408 | The page then says saved, its text, title and base are those of the version in the dialog, and nothing is owed or agreed any more |
| `EditorPage.EditorPage.Overwrite` | web/src/pages/DocumentEditor.tsx:411 | The save names no version, and its user has agreed to overwrite the one that was shown; exactly when the page becomes dishonest, whether or not a save can start |
| `EditorPage.DocumentTable.Update` | db/document/document_functions.sql:73-110 | An update loses no version and makes the next one, with the body and the trimmed title sent or those there were, exactly if the caller names the current version or none and the document is not archived; else it answers not found for an archived document and stale for another |
| `EditorPage.DocumentTable.Store` | db/document/document_functions.sql:91-106 | The second half of an update, after any updates of others: it makes the version after theirs, and loses a version if and only if there were some since the first half |
| `Sessions.OneLiveTokenPerLogin` | internal/handlers/auth.go:71-146 | Whatever is presented by whomever and however often issuing fails, each refresh token opens at most one further session and each login has at most one live token |
| `Sessions.RedeemedIsSpent` | internal/handlers/auth.go:115-137 | A redeemed token never works again, and redeeming leaves no other live token of its login |
| `Sessions.IssuedWorks` | internal/handlers/auth.go:71-99 | The successor goes back to the same login and user, and can be redeemed for thirty days, 2,592,000 seconds, while its user is active |
| `Sessions.PasswordEndsSessionsIff` | internal/handlers/auth.go:195-217 | A changed password ends every session that goes back to an earlier one, for good and whatever happens later, if and only if no refresh and no login of such a session is between its two steps, and the revoke goes through or there is nothing to revoke |
| `Sessions.FailedRevokeLeavesASession` | internal/handlers/auth.go:213-216 | A failing case, from an empty table: the revoke fails |
| `Sessions.RefreshOutlivesThePassword` | internal/handlers/auth.go:115-137 | Another: a refresh has redeemed its token before the revoke and issues the next after it |
| `Sessions.LoginOutlivesThePassword` | internal/handlers/auth.go:46-69 | Another: a login is checked against the old password and its token is issued after the revoke |
| `SessionObjects.RefreshTokens.Refresh` | internal/handlers/auth.go:115-137 | The token presented is spent even if no successor can be issued; a successor works until it expires, for the same user and login; a token of no use changes nothing; at most one live token per login |
| `SessionObjects.RefreshTokens.IssueSession` | internal/handlers/auth.go:71-99 | The token issued can be redeemed exactly until it expires and while its user is active, and every other token is as it was |
| `SessionObjects.RefreshTokens.UserLogin` | db/app_user/app_user_functions.sql:3-18 | A login with the right password goes on only for an active user, and then with the password of that moment |
| `SessionObjects.RefreshTokens.Login` | internal/handlers/auth.go:57-69 | The second step of a login begins a line of tokens of its own, which goes back to the password of the first; a token whose hash is taken is not issued, and then nothing changes |
| `SessionObjects.RefreshTokens.SetPassword` | internal/handlers/auth.go:202-212 | From a change of password on, every token of the user goes back to an earlier one, and no token of anybody else |
| `SessionObjects.RefreshTokens.Logout` | internal/handlers/auth.go:139-146 | The token presented can never be redeemed again, and every other token is as it was |
| `SessionObjects.RefreshTokens.RevokeSessions` | internal/handlers/auth.go:213-216 | The second statement: a session with an earlier password outlives it exactly if a refresh or a login of one is under way, or it fails while a token is live |
| `ApiClient.NeverPresentsRedeemed` | web/src/lib/api.ts:34-82 | With any number of concurrent refused requests, a browser whose refreshes were all issued a successor and heard of it never presents a redeemed token |
| `ApiClient.NextIsFreshIff` | web/src/lib/api.ts:34-53 | The exact condition, per step: the cookie becomes a redeemed token that no refresh is waiting on if and only if its successor was not issued or its answer was lost |
| `ApiClient.BrokenSignsOut` | internal/handlers/auth.go:131-135 | The condition is needed: after any such step the next refresh presents the token again and the cookie is taken away |
| `ApiClient.BreaksIsReachable` | web/src/lib/api.ts:34-53 | Runs from the start for both cases: the answer lost, and no successor issued |
| `ApiClient.RequestsGoOutTwiceAtMost` | web/src/lib/api.ts:70-82 | Each request is sent twice at most, and a waiting request has a refresh to wait for |
| `ApiClient.EveryWaiterIsServed` | web/src/lib/api.ts:34-53 | When the shared refresh is answered every waiting request goes out with its token, or is over without one; the browser has that token, and the cookie that came with the answer |
| `ApiClient.RefreshRenews` | web/src/lib/api.ts:34-53 | A refresh of a token that can be redeemed: the browser ends with the new access token and a successor that works for thirty days, and the token presented is dead |
| `ApiClient.SignInBegins` | internal/handlers/auth.go:46-99 | Signing in: the browser has the access token, and a refresh token that works for thirty days while its user is active |
| `ApiClient.SignOutEnds` | internal/handlers/auth.go:139-146 | Signing out: the token of the cookie is dead, no later refresh brings the session back, and requests go out without a token |
| `SessionObjects.Session.OnResponse` | web/src/lib/api.ts:77-80 | A first refusal makes the request wait, for the refresh on its way if there is one; any other answer ends it; no other request is touched, and none goes out more than twice |
| `SessionObjects.Session.Resolve` | web/src/lib/api.ts:43-49 | The loop over the waiters leaves none waiting and is the resumption of all of them at once |
| `Upload.ReceiveFiles` | internal/handlers/attachments.go:128-212 | A failed upload leaves storage as it was but for files that the disk will not remove; a successful one leaves one entry per file part, with its key, its name, its whole content hashed and the size of that; it answers the first thing that is wrong |
| `Upload.AcceptedIff` | internal/handlers/attachments.go:136-212 | It goes through exactly when the whole form can be read, it has a file and not too many, and every file arrives whole, has at most maxFile bytes, finds room on a disk that makes and closes it, and is recorded |
| `Upload.FailsIff` | internal/handlers/attachments.go:136-212 | What a failing upload answers: exactly what its first bad item says, told apart by the form, the number of files, the size, the disk and the row, and that there is no file if there is neither a bad item nor a file |
| `Upload.PartVerdictIff` | internal/storage/local.go:29-54 | A file is too large exactly if it has more than maxFile bytes and the disk holds maxFile + 1 of them; one of exactly maxFile bytes never is |
| `Upload.WithFilesAddsEach` | internal/handlers/attachments.go:136-207 | Storage gained exactly one file per part under its own key, each holding the whole part, and lost or changed none |
| `Upload.AsBeforeIsSame` | internal/handlers/attachments.go:130-134 | When every removal works, as it was means equal |
| `Upload.LocalStore.Put` | internal/storage/local.go:29-54 | A stream that fits is stored whole and hashed as stored; every failure is the right one and leaves no file |
| `Upload.LocalStore.Copy` | internal/storage/local.go:41-48 | The copy loop stops one byte over the limit and tells a short disk from a broken stream |
| `Upload.Source.ReadFull` | internal/handlers/attachments.go:157-159 | The head that is read to tell the type, put before what is left, is the whole part |
| `Upload.Cleanup` | internal/handlers/attachments.go:130-134 | Exactly the stored keys are taken away |
| `RequirementList.BuildWhere` | internal/handlers/requirements.go:51-126 | For every combination of filters, every $k of the condition is bound to a value of the kind it is cast to, and the condition is true in three-valued logic of exactly the rows that the filters let through |
| `RequirementQuery.AppendKeepsMeaning` | internal/handlers/requirements.go:58-61 | Appending a value changes no clause that is already there |
| `RequirementQuery.JoinMeansAll` | internal/handlers/requirements.go:126 | Joining the texts with AND, under the precedence of the grammar, means all the clauses, because none has an OR outside parentheses |
| `RequirementList.Clauses.UuidList` | internal/handlers/requirements.go:62-72 | Ids that are no UUIDs are dropped, and the filter with them when none is left |
| `RequirementList.Clauses.Assignee` | internal/handlers/requirements.go:81-88 | me, none, a UUID or anything else |
| `RequirementList.Clauses.Labels` | internal/handlers/requirements.go:78-80 | labels are compared as text, not as UUIDs |
| `RequirementList.Clauses.Reporter` | internal/handlers/requirements.go:89-94 | me, a UUID or anything else |
| `RequirementList.Clauses.OpenOrOverdue` | internal/handlers/requirements.go:95-103 | open, closed, overdue or neither; a missing due date is never overdue |
| `RequirementList.Clauses.Parent` | internal/handlers/requirements.go:104-109 | no parent, a UUID or anything else |
| `RequirementList.Clauses.Search` | internal/handlers/requirements.go:110-113 | The text search, which uses one parameter twice |
| `Paging.Page` | internal/handlers/requirements.go:123-135 | A page has min(limit, max(0, total - offset)) items |
| `Paging.PagesAreTheRowsIff` | internal/handlers/requirements.go:127-135 | The ORDER BY may leave ties: each row is on exactly one page, in whatever order each query sees rows that tie, if and only if no two rows that tie are on either side of the end of a page |
| `Paging.TieAtThePage` | internal/handlers/requirements.go:127-135 | The failing case: two rows that tie, one to a page |
| `RequirementList.QueryInt` | internal/httpx/request.go:90-102 | Without a value the default; else the value within the bounds that is nearest to it |
| `AgentCache.StaleForAMinuteAtMost` | internal/handlers/auth.go:238-258 | Whatever is updated and purged, an answer from the cache is one that the database gave at some moment less than a minute ago, plus the longest time a call takes to store its answer |
| `AgentCache.StoredForAMinute` | internal/handlers/auth.go:238-258 | What a call has stored is answered from the cache for sixty seconds, and then no longer |
| `AgentCache.TruthfulIff` | internal/handlers/auth.go:238-258 | From now on and until the database changes nobody is told from the cache what the database would not say, if and only if every answer that the cache would give now or that a call is about to store is the one of the database |
| `AgentCache.StepIsCurrentIff` | internal/handlers/auth.go:238-258 | Per step: exactly a change of the database that changes such an answer ends that |
| `AgentCache.TimelyUpdatesAreSeen` | internal/handlers/agents.go:70-105 | With any number of updates under way at once, no answer from the cache is wrong while no change of the database is of that kind |
| `AgentCache.PurgeThenUpdateIff` | internal/handlers/agents.go:70-105 | Purging before the update, with calls and other updates in between, leaves the cache right if and only if the update changes no answer that a call has stored since the last purge and less than a minute ago, or is about to store |
| `AgentCache.PurgedTooSoon` | internal/handlers/agents.go:70-105 | The failing case, for every key that an update takes back: a call between the two leaves the withdrawn answer in the cache |

## Left out

- Handlers, JSON codecs, mail, server-sent events, the MCP server, React rendering and styles: plumbing.
- Catalogue, label, role and date helpers: one branch each, they would only add easy members.
- `requirement_transition` is a parameter of the lease model: it raises, or moves the card to the target
  status at some position. Its rules, its journal and its notifications are not modelled, nor are
  `closed_at`, `resolution` and `reopened_count`.
- The journal entries and notifications of the lease functions, and the deletion of agents, statuses and
  requirements while a lease is held.
- Concurrency below the transaction: `now()` as the start of a transaction that waits for a lock.
- ServerRefs.PageReadsSigilIff: code has been removed from the text, and the character classes of the
  database are those of the browser; the server trims blanks off a title and the page all white space.
- ServerRefs.PageReadsServerMentionsIff: after a dash, the server skips a mention that follows one of its
  own, and the page one that follows one of its own; `ServerReadsIff` and `PageReadsMentionIff` say which.
- Text is a sequence of characters: UTF-16 surrogates are not modelled. The Unicode tables of the
  patterns are a parameter, as is `encodeURIComponent`.
- `stripCode` and `extractRefs` of the reference grammar: collecting tokens into sets.
- RemarkRefs.WalkKeepsVisibleTextIff: the tree is a value, so the assignment to `children` in place, and
  trees that share nodes, are not modelled.
- Board.DropSendsIff: says nothing when the board is fetched anew during the drag; the model of the page
  has that event, and then the drop is compared with the newer board.
- BoardPage.BoardPage.OnDragEnd: keeps the invariant of the cached board if every status of it was there
  when the drag started, and so does OnExtras. The dialog is modal: no second drop waits beside the first.
- BoardPage.BoardPage.OnMoveFailed: a refusal that comes while another card is dragged changes the columns
  under it; the invariant of that drag is then not promised.
- Board.DragKeepsThePartition: boards are as the server sends them, with UUIDs for ids; the filter of the
  page, which disables dragging, is not modelled.
- Reorder.ReorderHonoursTheDrop: `numeric` is exact and is rounded once, to ten decimals; a list that is
  out of date, and neighbours moved to other columns meanwhile, are in the model but not in the theorem.
- DocumentWorld.NoLostUpdateIff: navigation from one document to another, front matter, folders and the
  promotion to a requirement are not modelled. The editor of requirements, which sends the live version
  of the cache and not that of the edit, does not have this property.
- EditorPage.EditorPage.Save: the title that is sent, trimmed by the page or the document's own, is a
  parameter; what is owed to the user is said of the text only.
- ApiClient.NeverPresentsRedeemed: one page of one browser; two tabs share a cookie but no promise. A
  refresh that reaches the server after the browser has given up on it, and an answer whose body cannot
  be parsed, are not modelled.
- Cryptography: tokens and keys are told apart by value, access tokens carry nothing.
- Upload.ReceiveFiles: the rows of a failed upload stay in the database, each was committed on its own;
  only storage is modelled. Keys are random and taken to be new and without two dots in a row; names are
  not sanitised and types are not sniffed here.
- RequirementList.BuildWhere: `QueryList` and `strings.TrimSpace` have been applied, the two pattern
  matches of the search and the parsing of UUIDs are parameters, and the sort column is not modelled.
- AgentCache.StaleForAMinuteAtMost: `last_seen_at` is not modelled.
- `leaseInterval`, `sanitizeFilename`, `setRefreshCookie`: one expression each.
