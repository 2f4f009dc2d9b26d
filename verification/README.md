# A verified model of macos-apps-mcp

macos-apps-mcp lets an agent read and change Apple Mail, Calendar and Reminders. This project
models the parts of it where a wrong step loses mail, hides it, or answers with something
untrue, and proves what those parts promise. `dafny verify dfyconfig.toml` checks all of it.

## What is modelled

**The recoverable mail plane** (`AuditLog`, `MailAct`, `MailRecover`, `MailUndo`,
`DedupeBatch`). A destructive write appends a plan record, lets Mail act copy by copy, and
appends a record of what happened; an undo rebuilds from the log what must be moved back.
Mail is the environment: for each stored copy it decides whether the copy leaves, whether one
lands, and what the script reports, all independently. A run may stop after the plan, in the
middle of the act, by a timeout, by another error or by death of the process. The log is two
files cut at newlines, with a size threshold, and an append may stop before anything, or after
any number of bytes. Main results: nothing acts without a planned record
(`NothingActsWithoutAPlan`), undo replays exactly the targets whose recorded answer is not
"stayed" (`UndoReplaysExactly`), it brings back everything that left if and only if no answer
swallowed a departure (`UndoCoversIffNothingSwallowed`), copies are conserved wherever a run
stops (`RunConservesCopies`), and any run followed by its undo puts n + k copies where n were for
exactly the ids taken back (`RunThenUndo`, `MoveThenUndo`); after an interrupted run those include
ids that had no copy to move, whose copies already in the destination go with them
(`InterruptedUndoMovesBystanders`).

**The Envelope Index** (`MailIndex`, `LabelGuard`, `MailSearch`, `LikeEscape`). Tables are
lists of rows and a SELECT is the nested loops of its joins, so a repeated row would show.
The three arms of mailbox membership are proved disjoint and free of repeats, the write guard
is compared with what the arms show, search and thread are proved to cite one best copy of
each message, and an escaped LIKE pattern is proved to be a substring test.

**The Message-ID sidecar** (`Sidecar`): build, bounded top-up, the staleness note, and an
invariant over every run of arrivals, removals, file changes, reads and builds.

**Repeat rules** (`Recurrence`, `RecurrenceParse`, `RecurrenceRoundTrip`,
`RecurrenceSignature`, `RecurrenceCalendar`): the subset of section 3.3.10 of RFC 5545, what
its parser accepts, parser and printer as inverses, the signatures compared after a write, and the weekday and BYSETPOS arithmetic over
a calendar built from scratch.

**Smaller cores**: cross-account dedupe (`CrossAccount`), free/busy (`FreeBusy`), the account
name cache (`AccountCache`), record framing (`Framing`) and the borrowed clipboard
(`Clipboard`). `Prelude`, `Grouping`, `Sorting` and `Strings` hold what they share.

## Where the code and its documentation part ways

Each of these is stated as a lemma about the code as it is, with the exact condition beside it.

- A torn append leaves half a line, and the next append continues it. `audit_write` then
  answers True for a plan no reader will ever see: the batch is acted on and undo has no
  receipt (`TornTailSwallowsTheNextAppend`, `ReceiptIsFoundIffPlanLands`).
- A move that answers `unknown` for one copy and an error for another, with none `moved`, is
  recorded as a plain error and counts as stayed; so does a Trash run whose copies all acted
  without Trash rising (`MixedErrorAndUnknownIsNotReplayed`, `UnseenTrashIsNotReplayed`,
  `UndoCoversIffNothingSwallowed`).
- A dedupe script that raises half way is recorded as stayed although some losers are already
  gone (`HalfDeletedIsNotReplayed`, `DedupeBatch.LostAndNotReplayedExactly`).
- The label guard calls a folded key collision safe. It hides a bare label behind a physical
  folder of the same folded key: readers see the label and writes pass through it
  (`FoldedCollisionHidesALabel`).
- A sidecar build promises that stale mappings cannot survive a rebuilt index. An id whose
  live rows have no readable file keeps its old one (`StaleMappingSurvives`), and deleting the
  newest message already looks like a rebuild (`DeletingTheNewestLooksRebuilt`).
- BYSETPOS raises for the dates whose period reaches past the end of year 9999
  (`LastDayRaises`, `PeriodSpansTheDate`).

## Model

| member | source | states |
|---|---|---|
| AuditLog.RotatingLog.AuditWrite | macos_apps_mcp/audit.py:96-110 | Rotates a live file over the threshold, then appends; answers True exactly when the append completed (a write that fails after its newline leaves a whole line and answers False), and never raises. |
| AuditLog.RotatingLog.ReadBack | macos_apps_mcp/audit.py:122-190 | Returns the records of both files, older file first, skipping what does not parse; an unreadable file contributes no record and one error entry. |
| AuditLog.Extended | macos_apps_mcp/audit.py:96-110 | One append, torn anywhere: closed lines stay, and the record joins them exactly when its whole line went down at the start of a line. |
| AuditLog.RotationExactly | macos_apps_mcp/audit.py:96-110 | An append to a live file over 5 MB, and no other, first makes that whole file the backup and starts a new one; otherwise the backup is untouched, the live file keeps its lines and grows by the bytes written; after a completed append it holds at most the threshold and one line. |
| AuditLog.FilesStayBounded | macos_apps_mcp/audit.py:45-110 | Over every run of appends, torn ones included, neither file outgrows 5 MB by more than the longest line. |
| AuditLog.ReadsBackASuffix | macos_apps_mcp/audit.py:96-142 | Over every run of appends, however each ends, the two files' closed lines are a suffix, in order, of everything that landed. |
| AuditLog.CleanLogReadsEveryAnsweredRecord | macos_apps_mcp/audit.py:96-190 | With no torn write, what is read back is a suffix of exactly the records whose append answered True. |
| AuditLog.AnsweredAppendIsReadIffItLands | macos_apps_mcp/audit.py:96-142 | An append that answered True is read back if and only if the file it went to ended in a newline. |
| AuditLog.TornTailSwallowsTheNextAppend | macos_apps_mcp/audit.py:96-142 | Counterexample: after a torn append the next one answers True and cannot be read. |
| AuditLog.RecordStaysUntilThreshold | macos_apps_mcp/audit.py:45-110 | A closed record survives every later run of appends that adds no more than the rotation threshold. |
| AuditLog.NothingIsInvented | macos_apps_mcp/audit.py:96-142 | Nothing is read that was not read before or written since, torn lines included. |
| AuditLog.LaterRecordOutlivesEarlier | macos_apps_mcp/audit.py:96-142 | If a plan can still be read, so can the done record that landed after it. |
| MailAct.Copies | macos_apps_mcp/adapters/mail.py:403-448 | One pass over the bulk read files every internal id under its own Message-ID and no other. |
| MailAct.RunScript | macos_apps_mcp/adapters/mail.py:495-690 | Acting copy by copy removes exactly the copies Mail takes, adds the ones it lands under new internal ids, and records one report per copy. |
| MailAct.CopiesExactly | macos_apps_mcp/adapters/mail.py:403-448 | An id's copies are the stored copies that carry it, no other and none left out. |
| MailAct.ScriptedExactly | macos_apps_mcp/adapters/mail.py:495-690 | The source keeps exactly the copies that no acted pair took, the destination keeps what it had in front, with one new internal id for each landing, and no other mailbox changes. |
| MailAct.FoldAnswers | macos_apps_mcp/adapters/mail.py:1693-1728 | One answer per requested id, folded from that id's own reports, `unknown` when the script said nothing of some copy and no copy raised; what each answer says is ToldExactly. |
| MailAct.PairsExactly | macos_apps_mcp/adapters/mail.py:1668-1692 | The (id, copy) pairs handed to the script are exactly the stored copies of the requested ids. |
| MailAct.CopiesKept | macos_apps_mcp/adapters/mail.py:434-458 | What the source still holds of an id after an act is what Mail did not take, in order. |
| MailAct.StayedExactly | macos_apps_mcp/adapters/mail.py:1693-1870 | The fold records "stayed" exactly when every copy was absent, when errors came with no copy acting, or, for Trash, when all acted without Trash rising or all being gone. |
| MailAct.OkExactly | macos_apps_mcp/adapters/mail.py:1693-1870 | `ok` is answered if and only if there was a copy, every copy acted, and the destination count rose (or, for Trash, all are gone). |
| MailAct.ToldExactly | macos_apps_mcp/adapters/mail.py:1693-1870 | Every answer exactly, on the reports alone: `not-in-source` iff every report is (no copies included); the text of the first error iff some copy raised, with how many copies acted of how many iff some did; `unknown` iff no error, not all acted and not all absent; `ok` or the did-not-rise text when all acted. |
| MailAct.ReplayRuleExactly | macos_apps_mcp/adapters/mail_recover.py:99-119 | A plain `ok` counts as left and a plain `unknown` as unsure, any other plain status as stayed; an explicit verdict stands. |
| MailRecover.FindReceipt | macos_apps_mcp/adapters/mail_recover.py:607-642 | Returns the newest plan of the receipt and its newest non-empty outcomes. |
| MailRecover.LeftSources | macos_apps_mcp/adapters/mail_recover.py:645-654 | Returns the verdicts of the newest done record, None when it has none. |
| MailRecover.UndoPlanExactly | macos_apps_mcp/adapters/mail_recover.py:607-701 | On any log: no receipt iff no plan names it; not replayable iff its last plan has no destination; else replayed are exactly the planned targets that its last done record does not say stayed or, without such verdicts, that its last answers give as `ok`, `unknown` or not at all. |
| MailRecover.UndoRunExactly | macos_apps_mcp/adapters/mail.py:2016-2095 | On any log: a refusal changes nothing and says why, targets of several folders are refused, and otherwise the undo is one recoverable move from the destination back to their folder. |
| MailRecover.DoneRecordExactly | macos_apps_mcp/adapters/mail_recover.py:545-569 | The done record holds, for every requested id and no other, the status the caller is told; after a timeout, `unknown` and unsure for each. |
| MailRecover.Plane.Recoverable | macos_apps_mcp/adapters/mail_recover.py:433-604 | Changes Mail and the log exactly as the run function says for every environment and stopping point. |
| MailRecover.Plane.Undo | macos_apps_mcp/adapters/mail.py:2016-2095 | Looks the receipt up in the log as it stands and moves its targets back with an ordinary recoverable move. |
| MailRecover.NothingActsWithoutAPlan | macos_apps_mcp/adapters/mail_recover.py:515-530 | Mail changes only if the plan's append answered True, only in the two mailboxes the plan names, and never a copy of another id. |
| MailRecover.WhateverLeftIsPlanned | macos_apps_mcp/adapters/mail_recover.py:515-569 | Whatever left its source is named with that source in the plan record, which can be read however the run ends if it started its own line. |
| MailRecover.ForeignCopiesStay | macos_apps_mcp/adapters/mail.py:1668-1692 | Copies of ids that were not requested stay in the source, in order. |
| MailRecover.PlanIsRead | macos_apps_mcp/adapters/mail_recover.py:515-530 | A plan that started its own line is readable after its done record and any later records up to the threshold. |
| MailRecover.DoneIsRead | macos_apps_mcp/adapters/mail_recover.py:557-569 | So is a done record that was written. |
| MailRecover.OnlyOurRecords | macos_apps_mcp/adapters/mail_recover.py:515-569 | Of the receipt's records a reader finds nothing but this run's plan and, if one was written, its done record. |
| MailRecover.FindsThem | macos_apps_mcp/adapters/mail_recover.py:607-654 | With one plan and at most one done record to find, finding each is a membership test. |
| MailRecover.UndoReplaysExactly | macos_apps_mcp/adapters/mail_recover.py:657-701 | For every run and stopping point, undo replays exactly the targets whose recorded answer is not "stayed", and all of them when no done record can be read. |
| MailRecover.OldReceiptReplaysExactly | macos_apps_mcp/adapters/mail_recover.py:674-696 | A receipt without left-source verdicts replays exactly the targets answered `ok`, `unknown` or nothing. |
| MailRecover.LeftSourceAddsPartialMoves | macos_apps_mcp/adapters/mail_recover.py:107-119 | The verdicts replay everything the old rule did, and beyond it exactly the answers that carry their own, so a partial move is always brought back. |
| MailUndo.ReceiptIsFoundIffPlanLands | macos_apps_mcp/adapters/mail_recover.py:526-642 | A batch that was acted on has a findable receipt if and only if its plan started a line of its own. |
| MailUndo.AnsweredFromOwnCopies | macos_apps_mcp/adapters/mail.py:1690-1728 | Every requested id gets exactly one answer, and it depends on its own copies' reports alone. |
| MailUndo.OkMeansEveryCopyActed | macos_apps_mcp/adapters/mail.py:1693-1870 | Over a whole finished run, `ok` if and only if the id had copies, Mail acted on each, and the destination rose or all are gone. |
| MailUndo.RunReturnsExactly | macos_apps_mcp/adapters/mail_recover.py:433-604 | Which way a run returns: refused for an empty batch, one over 25 or one mailbox for both ends, then for a plan that was not written, and else by how the act ended. |
| MailUndo.CallerIsToldExactly | macos_apps_mcp/adapters/mail_recover.py:545-604 | A finished run answers every requested id and no other, each with the status, error text and numbers that the reports on its own copies and its destination count call for; `ok` exactly when every copy acted and the destination rose. |
| MailUndo.RunCounts | macos_apps_mcp/adapters/mail.py:434-458 | After a run stopped anywhere, the source holds what was kept and the destination what it had plus what landed. |
| MailUndo.KeptPlusLanded | macos_apps_mcp/adapters/mail.py:1668-1692 | Copies of an id kept plus copies landed is always the number there was. |
| MailUndo.RunConservesCopies | macos_apps_mcp/adapters/mail_recover.py:515-569 | Wherever a run stops, source and destination together hold as many copies of every message as before, and every other mailbox is untouched. |
| MailUndo.ScriptKeepsValid | macos_apps_mcp/adapters/mail.py:495-690 | Internal ids stay distinct within each mailbox. |
| MailUndo.LostAndNotReplayedExactly | macos_apps_mcp/adapters/mail.py:1713-1850 | A message that left is kept out of the replay exactly when the fold swallowed its departure. |
| MailUndo.MovedBackExactly | macos_apps_mcp/adapters/mail_recover.py:657-701 | Undo moves an id back to its source if and only if no done record is readable or its recorded answer allows that it left. |
| MailUndo.LostIsMovedBackExactly | macos_apps_mcp/adapters/mail_recover.py:657-701 | After a finished run, a message that left is moved back if and only if its departure was not swallowed. |
| MailUndo.UndoCoversIffNothingSwallowed | macos_apps_mcp/adapters/mail.py:1713-1850 | Undo covers everything that left its source if and only if no departed id's answers swallow the departure. |
| MailUndo.InterruptedRunIsReplayedWhole | macos_apps_mcp/adapters/mail_recover.py:537-569 | A run stopped by a timeout, another error or a crash is replayed in full. |
| MailUndo.MixedErrorAndUnknownIsNotReplayed | macos_apps_mcp/adapters/mail.py:1713-1727 | Counterexample: an `unknown` copy that moved beside an error copy is never moved back. |
| MailUndo.UnseenTrashIsNotReplayed | macos_apps_mcp/adapters/mail.py:1840-1850 | Counterexample for Trash: a copy Mail deletes without Trash ever rising is recorded as stayed and the undo has nothing to restore. |
| MailUndo.PerfectMoveCounts | macos_apps_mcp/adapters/mail.py:1668-1728 | With Mail doing all it is asked, every copy of the requested ids changes mailbox and no other does. |
| MailUndo.PerfectMoveAnswers | macos_apps_mcp/adapters/mail.py:1690-1728 | Such a move answers `ok` for every id that had a copy and `not-in-source` for every other. |
| MailUndo.PerfectMoveIsUndone | macos_apps_mcp/adapters/mail_recover.py:657-701 | Its receipt replays exactly the ids that had a copy, each once, all to the source folder. |
| MailUndo.RunThenUndo | macos_apps_mcp/adapters/mail.py:2016-2095 | A move or trash run with any copies' fates and any ending, then an undo that moves what it is asked: every id taken back has all its copies in the source and none in the destination (the n + k there were, when Mail lands what it takes), every other id is as the run left it, and no other mailbox changes. |
| MailUndo.RunThenUndoConserves | macos_apps_mcp/adapters/mail.py:2016-2095 | However the run and its undo end, source and destination together hold as many copies of every message as before. |
| MailUndo.InterruptedUndoMovesBystanders | macos_apps_mcp/adapters/mail.py:2030-2036 | After an interrupted run, an id that had no copy in the source has the copies it always held in the destination moved out of it by the undo. |
| MailUndo.MoveThenUndo | macos_apps_mcp/adapters/mail.py:2016-2095 | The promised case of the above, a move that answers `ok` throughout: an id with n copies in the source and k in the destination ends with n + k and 0; every other id and mailbox is as before. |
| DedupeBatch.DeleteLosers | macos_apps_mcp/adapters/mail.py:761-782 | Asks for the copies from the last down to the second, stopping at the first error. |
| DedupeBatch.CountSurvivors | macos_apps_mcp/adapters/mail.py:783-817 | Counts at most thirteen times for one survivor, then reports how many remain. |
| DedupeBatch.Dedupe | macos_apps_mcp/adapters/mail.py:740-821 | Never asks the first copy to go; `ok` if and only if there was a duplicate, no delete raised and a count saw one survivor, and then every loser was asked; an error if and only if Mail raised. |
| DedupeBatch.OneOfEachStays | macos_apps_mcp/adapters/mail.py:761-782 | Deleting one id's losers never takes its first copy, nor any copy of another message. |
| DedupeBatch.BatchKeepsOneOfEach | macos_apps_mcp/adapters/mail.py:740-821 | Over a whole batch, whatever Mail does and wherever it raises, each message keeps its first copy and unrequested messages keep all. |
| DedupeBatch.TrimmedExactly | macos_apps_mcp/adapters/mail.py:761-817 | `ok` exactly when there was a duplicate, every loser was asked to go without error, and a count saw one survivor; the number reported is the number of losers. |
| DedupeBatch.ScriptErrorExactly | macos_apps_mcp/adapters/mail.py:761-817 | The script answers an error if and only if Mail raised in listing the copies, in a delete, or in a count no earlier count had settled. |
| DedupeBatch.AnswerExactly | macos_apps_mcp/adapters/mail.py:740-2004 | Each recorded answer: `ok` iff the losers went without an error and one of thirteen counts saw one survivor; `not-duplicated`, as stayed, without duplicates; unsure iff thirteen counts never saw one; else the text of what Mail raised first. |
| DedupeBatch.AskedExactly | macos_apps_mcp/adapters/mail.py:761-782 | The copies asked to go are those from the last down to the second, in that order, up to and with the first that raises. |
| DedupeBatch.LostAndNotReplayedExactly | macos_apps_mcp/adapters/mail.py:1982-2004 | When some loser left, the recorded answer keeps it out of the undo if and only if Mail raised in deleting another loser, or in a count before one survivor was seen. |
| DedupeBatch.HalfDeletedIsNotReplayed | macos_apps_mcp/adapters/mail.py:1982-2004 | Counterexample: a loser deleted before an error is recorded as stayed. |
| MailIndex.Arm1Exactly | macos_apps_mcp/adapters/mail_index.py:193-197 | The first arm lists, once each, the live messages stored in a mailbox that is no view. |
| MailIndex.Arm2Exactly | macos_apps_mcp/adapters/mail_index.py:198-203 | The second lists, once each, the labelled messages of sourced views. |
| MailIndex.Arm3Exactly | macos_apps_mcp/adapters/mail_index.py:184-213 | The third lists, once each, the members of bare labels in the message's own account. |
| MailIndex.ArmsDisjoint | macos_apps_mcp/adapters/mail_index.py:177-214 | No pair is listed by two arms. |
| MailIndex.MembershipExactly | macos_apps_mcp/adapters/mail_index.py:183-214 | UNION ALL over the arms is exactly the set of logical (message, mailbox) pairs, each once. |
| LabelGuard.MembershipSpelledOut | macos_apps_mcp/adapters/mail_index.py:177-214 | The same on the tables alone: a pair is listed iff the message is live and stored in a mailbox that is no view, or labelled with a view of the mailbox storing it, or labelled with a mailbox that is no view, stores nothing live and has the storing mailbox's scheme and account. |
| LabelGuard.ParseExactly | macos_apps_mcp/adapters/mailbox_url.py:144-152 | A stripped url without `://` has no parts; any other is its scheme, its account without slashes and its path, which put together give its text. |
| LabelGuard.CollectLabelState | macos_apps_mcp/adapters/mail_index.py:1228-1264 | The collected state is exactly the sourced keys, the label accounts and the physical keys of the index. |
| LabelGuard.RefusedExactly | macos_apps_mcp/adapters/mail_index.py:1228-1295 | Over all urls, on the tables: a url is refused iff, blanks around it aside, it parses and either a view has its key, or its account has a view or a labels row whose message lives in that account and no mailbox storing a live message has its key. |
| LabelGuard.PlainAccountsAreOpen | macos_apps_mcp/adapters/mail_index.py:1288-1295 | Nothing in an account without labels is refused, and nothing that is no mailbox url. |
| LabelGuard.IsLabelMailbox | macos_apps_mcp/adapters/mail_index.py:1267-1295 | The guard itself, state and decision, answers exactly that. |
| LabelGuard.AuthorityIsSchemeAndAccount | macos_apps_mcp/adapters/mail_index.py:183-214 | The prefix the membership query cuts with substr and instr is the scheme, the account and a slash. |
| LabelGuard.SameAuthoritySameAccount | macos_apps_mcp/adapters/mail_index.py:1213-1225 | Mailboxes the query puts in one account have one account in the guard's keys. |
| LabelGuard.LabelViewsAreRefusedExactly | macos_apps_mcp/adapters/mail_index.py:1267-1295 | A mailbox that gains a member as a label view is refused, unless it has no source, no sourced mailbox shares its key, and a mailbox storing a live message does. |
| LabelGuard.ReadsAndGuardAgree | macos_apps_mcp/adapters/mail_index.py:1228-1295 | With distinct keys every label view is refused and no source-less mailbox that stores a live message is; what is refused of all other urls is RefusedExactly. |
| LabelGuard.FoldedCollisionHidesALabel | macos_apps_mcp/adapters/mail_index.py:1213-1295 | Counterexample: any two urls of one account whose keys fold together give an index whose visible label the guard lets through. |
| MailSearch.WinnersExactly | macos_apps_mcp/adapters/mail_index.py:227-240 | Of each Message-ID that passes the filters exactly one copy survives: the one of lowest rank, then latest arrival, then lowest message ROWID, then lowest mailbox ROWID. |
| MailSearch.SearchIsOneRowPerMessage | macos_apps_mcp/adapters/mail_index.py:351-356 | Every search answer cites each message's best copy, newest first; LIMIT counts distinct messages and drops none newer than one it keeps. |
| MailSearch.ThreadKeepsTheNewEnd | macos_apps_mcp/adapters/mail_index.py:383-407 | A thread runs oldest to newest, one row per message, and keeps the newest. |
| MailSearch.HitsAreDistinctCopies | macos_apps_mcp/adapters/mail_index.py:219-240 | Over a valid index, whatever the filters, the joined rows are distinct logical copies, on which the two results above rest. |
| MailSearch.HitsExactly | macos_apps_mcp/adapters/mail_index.py:227-240 | The joined rows are all the logical copies of citable live messages that pass the filters, and no other row. |
| MailSearch.SearchExactly | macos_apps_mcp/adapters/mail_index.py:279-356 | Over any valid index and any filters: one row per passing message, and no other passing copy of it has a lower rank, nor at the same rank a later arrival, nor then lower ROWIDs; newest arrivals first, and what LIMIT drops is no newer than what it keeps. |
| MailSearch.ThreadExactly | macos_apps_mcp/adapters/mail_index.py:359-407 | Over any valid index: oldest first by date sent (date received when never sent), each row the copy cited by the same rule of a message that shares a conversation with some live copy of the one named, cut only at the old end. |
| MailSearch.ThreadReachesEveryConversation | macos_apps_mcp/adapters/mail_index.py:368-373 | Every citable member of every conversation of every live copy of the named message is in the thread, but for the limit. |
| LikeEscape.ThreePassesAreOneMap | macos_apps_mcp/adapters/mail_index.py:269-276 | The three successive replacements equal one map over characters. |
| LikeEscape.EscapedIsLiteral | macos_apps_mcp/adapters/mail_index.py:269-276 | An escaped value reads as its own characters, whatever follows it in the pattern. |
| LikeEscape.EscapedLikeIsSubstring | macos_apps_mcp/adapters/mail_index.py:306-318 | The filter `%value%` matches exactly the texts holding the value character by character, wildcards and backslashes included, each ASCII letter in either case. |
| LikeEscape.AccountFilterIsASubstring | macos_apps_mcp/adapters/mail_index.py:335-345 | The account filter holds exactly when the value stands between `://` and a slash somewhere in the url. |
| LikeEscape.AccountFilterIsExact | macos_apps_mcp/adapters/mail_index.py:335-345 | For a one-segment value, which is what every caller resolves an account to, and a url with one authority, it holds exactly for the url's own account. |
| LikeEscape.AccountFilterIsExactFor | macos_apps_mcp/adapters/mail_index.py:335-345 | The filter holds for the url's own account and no other, on every url with one authority, if and only if the value is one segment or holds a `://` of its own. |
| Sidecar.Store.Build | macos_apps_mcp/adapters/mail_ids.py:152-254 | The grouped, counting loop leaves exactly the mappings, mark and counts of the row-by-row sweep. |
| Sidecar.Store.MaybeTopUp | macos_apps_mcp/adapters/mail_index.py:1058-1085 | A read absorbs new rows only between the mark and the cap, and leaves the sidecar alone otherwise or when the top-up fails. |
| Sidecar.SweepMailbox | macos_apps_mcp/adapters/mail_ids.py:207-231 | The inner loop over one mailbox's wanted rows, a missing store counting all of them. |
| Sidecar.TopMailbox | macos_apps_mcp/adapters/mail_ids.py:288-301 | The inner loop of a top-up over one mailbox url. |
| Sidecar.SweepExactly | macos_apps_mcp/adapters/mail_ids.py:207-231 | A sweep maps exactly the uncovered ids some row's file can give, from such a file, and leaves every other mapping. |
| Sidecar.HarvestedIsNewlyCovered | macos_apps_mcp/adapters/mail_ids.py:226-231 | The harvested count is the number of ids newly covered: siblings are counted once. |
| Sidecar.SweepCountsExactly | macos_apps_mcp/adapters/mail_ids.py:204-231 | The report counts rows without a store whoever shares their id, and with one row an id counts each row once, as no file, no Message-ID or harvested, by what the disk holds. |
| Sidecar.BuildExactly | macos_apps_mcp/adapters/mail_ids.py:152-254 | One build, id by id: a mapped id is left alone unless the index looks rebuilt; any other is read from a live row's file if one can be read, else keeps what it had. |
| Sidecar.ReadExactly | macos_apps_mcp/adapters/mail_ids.py:257-307 | One read, id by id: exactly the ids a new row's file can give are mapped from such a file. |
| Sidecar.AbsorbsExactly | macos_apps_mcp/adapters/mail_index.py:1058-1085 | A read takes new rows in iff the newest live row lies 1 to 200 past the mark and the harvest does not fail; the mark then is the newest row, and otherwise nothing changes. |
| Sidecar.NoteExactly | macos_apps_mcp/adapters/mail_index.py:933-983 | The note says rebuilt iff no live row reaches the mark, `n` missing iff the newest lies n past it, and is absent iff there is no mark or the newest is at it. |
| Sidecar.MarkExactly | macos_apps_mcp/adapters/mail_ids.py:187-234 | A build leaves the mark at the newest live row with an id, and takes the index for rebuilt iff the old mark lies above every such row. |
| Sidecar.IdOnDiskExactly | macos_apps_mcp/adapters/mail_ids.py:204-222 | A row's id is what the store of its own mailbox url holds under its ROWID. |
| Sidecar.SecondBuildIsIdle | macos_apps_mcp/adapters/mail_ids.py:152-254 | A second build on unchanged data harvests 0 and changes nothing. |
| Sidecar.BuildAccounts | macos_apps_mcp/adapters/mail_ids.py:152-254 | After a build every live row with an id is mapped, or has been offered to a harvest that found no store, file or id for it. |
| Sidecar.MappingWasRead | macos_apps_mcp/adapters/mail_ids.py:222-229 | A mapping a build writes comes from the file of a row live with that id at that moment. |
| Sidecar.TopUpWasRead | macos_apps_mcp/adapters/mail_ids.py:292-300 | So does every mapping a top-up writes. |
| Sidecar.RunKeepsAccount | macos_apps_mcp/adapters/mail_index.py:1058-1085 | Over every run of arrivals, removals, file and mailbox changes, reads and builds, each live row up to the mark is mapped, was offered to a harvest that could not read it, or was left out of a top-up for want of a mailbox row; and every mapping was read from a live row's file. |
| Sidecar.NoNoteMeansAccounted | macos_apps_mcp/adapters/mail_index.py:933-983 | After any run and a read, no staleness note means every live row is accounted for; and there is no note iff the mark was at the newest row already, or 1 to 200 short of it and the harvest did not fail. |
| Sidecar.RemovalLooksRebuiltExactly | macos_apps_mcp/adapters/mail_ids.py:187-189 | With only removals since a build, the index looks rebuilt exactly when no row with an id is left at the highest ROWID. |
| Sidecar.DeletingTheNewestLooksRebuilt | macos_apps_mcp/adapters/mail_ids.py:187-189 | In every index that has a row with an id, deleting the newest after a build makes the index look rebuilt. |
| Sidecar.TopUpLooksRebuiltExactly | macos_apps_mcp/adapters/mail_ids.py:187-189 | After a top-up the unchanged index looks rebuilt to a build exactly when the newest row has no id. |
| Sidecar.StaleMappingSurvives | macos_apps_mcp/adapters/mail_ids.py:159-163 | Counterexample: on the rebuild path an id without a readable file keeps its old mapping. |
| Recurrence.CanonicalIsSorted | macos_apps_mcp/contracts.py:457-469 | The stored lists are sorted and without repeats, and storing a sorted rule changes nothing. |
| Recurrence.ConstructIsIdempotent | macos_apps_mcp/contracts.py:457-517 | A rule that can be constructed constructs again to itself. |
| Recurrence.ParseFields | macos_apps_mcp/contracts.py:520-545 | The token loop: blank tokens skipped, a later key overwrites, the first bad token is the error. |
| Recurrence.ParseInts | macos_apps_mcp/contracts.py:424-435 | The integer list in order, or the error of the first bad item. |
| Recurrence.ParseByDay | macos_apps_mcp/contracts.py:400-417 | The weekday list in order, or the error of the first bad item. |
| RecurrenceRoundTrip.ByIntsBack | macos_apps_mcp/contracts.py:420-421 | A part that holds a printed list gives that list back, and an absent part the empty list. |
| Recurrence.ParseRrule | macos_apps_mcp/contracts.py:520-575 | The whole parser, check by check in the source's order. |
| RecurrenceParse.FieldsExactly | macos_apps_mcp/contracts.py:533-545 | For every list of tokens: accepted iff each is blank or has an `=`; then each key holds the stripped value of the last token that mentions it, cut at its first `=`. |
| RecurrenceParse.RuleOfExactly | macos_apps_mcp/contracts.py:546-575 | For every dictionary: a rule comes out iff all keys are supported parts, the dictionary asks for a rule (INTERVAL 1 when absent, never both COUNT and UNTIL, every list as its items read) and that rule can be constructed; a refused part is an error by its own name, any other part an error too. |
| RecurrenceParse.PrefixExactly | macos_apps_mcp/contracts.py:529-532 | An RRULE: prefix in any case changes nothing, unless the text has one already: then the rule is refused. |
| RecurrenceParse.DayExactly | macos_apps_mcp/contracts.py:396-417 | A weekday item is two letters in any case after nothing, or after a signed number without underscores that is not zero. |
| RecurrenceParse.UntilExactly | macos_apps_mcp/contracts.py:369-393 | A date-only UNTIL is read iff it is the printed form of a real day, and as that day's last second. |
| Strings.ParseIntExactly | macos_apps_mcp/contracts.py:424-435 | An integer is read from exactly the texts that write one: a sign or none, digits, single underscores between them. |
| Recurrence.KeysSortAsPairs | macos_apps_mcp/contracts.py:467-469 | Stored weekdays are ordered by ordinal, then by the text of the code. |
| RecurrenceRoundTrip.IntListRoundTrip | macos_apps_mcp/contracts.py:424-435 | A printed integer list parses back to itself. |
| RecurrenceRoundTrip.DayRoundTrip | macos_apps_mcp/contracts.py:400-417 | A printed weekday with its ordinal parses back to itself. |
| RecurrenceRoundTrip.UntilRoundTrip | macos_apps_mcp/contracts.py:369-397 | A printed end day parses back to the last second of that day. |
| RecurrenceRoundTrip.TextRoundTrip | macos_apps_mcp/contracts.py:520-545 | Text made of plain parts with FREQ first comes apart into exactly those parts. |
| RecurrenceRoundTrip.RuleOfFields | macos_apps_mcp/contracts.py:546-575 | The dictionary a rule prints to parses to that rule, its end kept to the day. |
| RecurrenceRoundTrip.BuiltIsStored | macos_apps_mcp/eventkit.py:226-255 | The native rule built from a request holds the request in every part. |
| RecurrenceRoundTrip.PrintThenParse | macos_apps_mcp/eventkit.py:341-363 | Printing a stored form of any valid rule, its lists in any order, and parsing the text gives the same rule in every part, UNTIL to the day. |
| RecurrenceSignature.PrintRrule | macos_apps_mcp/eventkit.py:341-363 | The printing loop produces the parts in their order, empty ones left out. |
| RecurrenceSignature.SignaturesMatchExactly | macos_apps_mcp/eventkit.py:258-335 | Requested and persisted signatures, with days or without, are equal if and only if the stored rule has the requested frequency, interval, lists in any order, count and, when days are compared, end day. |
| RecurrenceSignature.MatchedRuleReadsBack | macos_apps_mcp/eventkit.py:275-363 | When the signatures match, the stored rule's text parses to the requested rule. |
| RecurrenceCalendar.DatesAreOrdinals | macos_apps_mcp/contracts.py:609-648 | Ordinals 1 to 3652059 and dates correspond one to one. |
| RecurrenceCalendar.FromOrdinalOf | macos_apps_mcp/contracts.py:622-648 | A date is the date of its own ordinal. |
| RecurrenceCalendar.MonthTable | macos_apps_mcp/contracts.py:583-597 | The days before each month, leap years included. |
| RecurrenceCalendar.SameWeekdayAround | macos_apps_mcp/contracts.py:596-606 | The two weekday quotients count the same weekday before and after a date. |
| RecurrenceCalendar.OrdinalNamesTheDate | macos_apps_mcp/contracts.py:596-606 | An ordinal weekday matches a date if and only if it names it, from the start or from the end, among the period's dates on that weekday. |
| RecurrenceCalendar.OrdinalsStayInBounds | macos_apps_mcp/contracts.py:485-507 | A matching ordinal never passes 5 in a month or 53 in a year. |
| RecurrenceCalendar.MonthOrdinalBoundIsExact | macos_apps_mcp/contracts.py:485-507 | An ordinal is in the month bound if and only if some date is that weekday of its month. |
| RecurrenceCalendar.YearOrdinalBoundIsExact | macos_apps_mcp/contracts.py:485-507 | An ordinal is in the year bound if and only if some date is that weekday of its year. |
| RecurrenceCalendar.MonthDayBoundIsExact | macos_apps_mcp/contracts.py:471-484 | A month day is accepted if and only if some date is that day of its month, from either end. |
| RecurrenceCalendar.YearDayBoundIsExact | macos_apps_mcp/contracts.py:471-484 | A year day is accepted if and only if some date is that day of its year, from either end. |
| RecurrenceCalendar.ConstructExactly | macos_apps_mcp/contracts.py:457-517 | A rule is accepted if and only if its end and interval are sound, every listed value names something in the calendar (a weekday ordinal some weekday of a month for MONTHLY and for YEARLY with BYMONTH, else of a year) and no banned combination occurs; it is then stored sorted. |
| RecurrenceCalendar.NthNamesTheDay | macos_apps_mcp/contracts.py:578-580 | A positive or negative day number matches exactly the day it names. |
| RecurrenceCalendar.PassesExactly | macos_apps_mcp/contracts.py:583-606 | All filters together, in terms of the dates each value names: a weekday ordinal counts among the dates of the month for MONTHLY and for YEARLY with BYMONTH, else of the year. |
| RecurrenceCalendar.MonthPlus32 | macos_apps_mcp/contracts.py:615-617 | The first of a month plus 32 days is always in the next month. |
| RecurrenceCalendar.PeriodSpansTheDate | macos_apps_mcp/contracts.py:609-619 | The period exists unless it reaches past year 9999, starts where it should, has the right length and holds the date. |
| RecurrenceCalendar.PlaceOf | macos_apps_mcp/contracts.py:638-648 | A passing date stands at one place among the candidates, and its two positions and no others name it. |
| RecurrenceCalendar.CandidatePosition | macos_apps_mcp/contracts.py:638-648 | The date is always among the candidates, and BYSETPOS accepts it exactly when a listed position names it. |
| RecurrenceCalendar.DtstartExactly | macos_apps_mcp/contracts.py:622-648 | The whole test, total but for the end of the calendar: the filters, stated on dates, and with BYSETPOS some listed position naming the date in the ascending list of the surviving days of its own day, Monday week, month or year. |
| RecurrenceCalendar.LastDayRaises | macos_apps_mcp/contracts.py:609-619 | Counterexample: a valid daily rule with BYSETPOS raises on the last day of the calendar. |
| CrossAccount.CrossAccountPlan | macos_apps_mcp/dedupe.py:138-226 | The loops over sets and targets build exactly the plan of the sets in order of first appearance. |
| CrossAccount.ActedSetsAreProven | macos_apps_mcp/dedupe.py:180-226 | An acted set spans accounts, all its bodies are known and equal, its winner is the first listed account holding a copy, and its targets are the copies elsewhere outside Trash. |
| CrossAccount.PlanExactly | macos_apps_mcp/dedupe.py:171-226 | An id is a loser at a mailbox exactly when its set is acted on and has a target there; keepers are exactly the acted sets with their winners. |
| CrossAccount.SkippedExactly | macos_apps_mcp/dedupe.py:179-226 | The skipped list holds exactly the sets left alone for a reason, each with its reason. |
| CrossAccount.JudgeExactly | macos_apps_mcp/dedupe.py:180-223 | What becomes of a set, each case if and only if: one account, no listed holder, an unread body, differing bodies, every loser in Trash already, or acted on with the first listed holder as winner. |
| CrossAccount.PlanIsSafe | macos_apps_mcp/dedupe.py:171-226 | No loser mailbox lies in the account that won its message. |
| CrossAccount.TakeSmallest | macos_apps_mcp/dedupe.py:447-458 | A limited run takes exactly the smallest ids. |
| CrossAccount.Restrict | macos_apps_mcp/dedupe.py:436-458 | Keeps the plan safe and its winners; the ids left are exactly those with a loser in the mailbox, or the smallest of them up to the limit, and the losers left exactly theirs in that mailbox. |
| CrossAccount.ChunksAreTheList | macos_apps_mcp/dedupe.py:281-290 | The chunks are the list, cut: nothing lost or added, none empty, all of eight but the last. |
| CrossAccount.BatchesExactly | macos_apps_mcp/dedupe.py:501-503 | The batches hold exactly the losers of each mailbox. |
| CrossAccount.TrashLosers | macos_apps_mcp/dedupe.py:499-522 | The batch loop stops at the first failing call, and refuses exactly when one fails. |
| CrossAccount.KeepersSurvive | macos_apps_mcp/dedupe.py:499-522 | After any number of batches, whatever Mail does, every copy in a set's winning account is still there, and every copy of an unplanned message. |
| CrossAccount.ActedIdsAreTheKeepers | macos_apps_mcp/dedupe.py:499-522 | The ids of the batches are exactly the keys of the keepers. |
| CrossAccount.CheckKeepers | macos_apps_mcp/dedupe.py:524-542 | The post-pass reports exactly the keeper rows Mail does not show. |
| CrossAccount.EveryActedSetIsChecked | macos_apps_mcp/dedupe.py:524-542 | Every acted set has a keeper row for that check. |
| CrossAccount.SparedCopiesSurvive | macos_apps_mcp/dedupe.py:499-522 | After any number of batches of any restriction of the plan, whatever Mail does, every copy whose set is not acted on or whose account won it is still there. |
| CrossAccount.RunCrossAccount | macos_apps_mcp/dedupe.py:425-542 | The whole run with any mailbox, limit and batch failures: acts on exactly the sets with a target in the mailbox asked for, or on the smallest ids up to the limit; what goes is a target of an acted set in that mailbox; spared copies stay; without a failing batch, and with Mail taking what it is asked, every such target is gone; and the check reports exactly the winning rows Mail does not show. |
| FreeBusy.Clip | macos_apps_mcp/adapters/calendar.py:180-192 | Clipping keeps exactly the covered seconds of the window. |
| FreeBusy.Merge | macos_apps_mcp/adapters/calendar.py:193-200 | Merging sorted runs keeps coverage and leaves strict gaps. |
| FreeBusy.Gaps | macos_apps_mcp/adapters/calendar.py:200-209 | The gaps are exactly the uncovered seconds, and lengths add up to the window. |
| FreeBusy.MergeBusy | macos_apps_mcp/adapters/calendar.py:180-209 | Busy and free partition the window exactly, both separated, with lengths summing to it. |
| FreeBusy.SeparatedIsUnique | macos_apps_mcp/adapters/calendar.py:180-209 | Covered seconds determine a separated list, so the answer does not depend on input order. |
| AccountCache.Addressing.LookUpNames | macos_apps_mcp/adapters/mail_addressing.py:293-340 | `account_map`: the cache, its failure stamp and whether a lookup began. |
| AccountCache.Addressing.RefreshNames | macos_apps_mcp/adapters/mail_addressing.py:343-367 | `refresh_account_map`: one forced lookup per leash, an empty or failed answer keeping the old map. |
| AccountCache.MapIsNeverLost | macos_apps_mcp/adapters/mail_addressing.py:293-367 | Over every run of calls, failures and empty answers a non-empty map is never lost and never carries a failure stamp. |
| AccountCache.HistoryExactly | macos_apps_mcp/adapters/mail_addressing.py:293-367 | What is remembered after any calls, told from the calls: the names the latest lookup that brought any brought, else an empty map with the time of the latest failure; and when the latest forced lookup began. |
| AccountCache.LookupExactly | macos_apps_mcp/adapters/mail_addressing.py:293-367 | When a call starts osascript: a forced one iff no forced lookup began in the last 60 seconds; any other iff no lookup has brought a name yet and the latest, if any, failed at least 60 seconds ago. |
| AccountCache.LookupsOfOneKindAreApart | macos_apps_mcp/adapters/mail_addressing.py:293-367 | Two lookups of one kind begin at least the TTL apart. |
| AccountCache.AtMostTwoLookupsPerWindow | macos_apps_mcp/adapters/mail_addressing.py:293-367 | Any window shorter than the TTL holds at most two lookups. |
| Framing.FramingRoundTrip | macos_apps_mcp/text.py:38-77 | What comes back is every sent record that has text, unchanged and in order. |
| Framing.StripFramingRemovesSeparators | macos_apps_mcp/text.py:38-54 | The handler removes both separators and changes no text that has neither. |
| Framing.Build | macos_apps_mcp/text.py:108-118 | One item from its fields, None exactly when a required one is missing. |
| Framing.BuildRecordExactly | macos_apps_mcp/text.py:108-118 | A record is dropped iff a required field is past the end, blank or `missing value`; else it has its fields' names and no other, each holding the coerced value of the last field of that name, blank past the end. |
| Framing.ParseItems | macos_apps_mcp/text.py:121-154 | The repeat loop over one record yields its items in order. |
| Framing.ParseFramed | macos_apps_mcp/text.py:121-154 | The whole parser over a payload, with and without repeat, with any minimum. |
| Framing.ItemsAreTheWholeTuples | macos_apps_mcp/text.py:121-154 | With repeat, exactly the whole tuples come back in order, a partial tail and tuples missing a required field dropped. |
| Framing.SentPayloadIsParsed | macos_apps_mcp/text.py:65-154 | A whole payload comes back record by record, in order: of each its head and whole tuples, dropped only when blank, shorter than the minimum or missing a required field. |
| Framing.SentRecordIsParsed | macos_apps_mcp/text.py:121-154 | One sent record with text parses to its head and its whole tuples. |
| Clipboard.Pasteboard.ComposeInsert | macos_apps_mcp/runtime.py:1170-1218 | Nothing is written after a copy the recheck can see, a rollback precedes the restore, and the user's newest copy survives exactly unless the restore runs over one it could not see. |
| Clipboard.Pasteboard.Prepare | macos_apps_mcp/runtime.py:1180-1195 | The call goes on to write exactly when nothing stopped it and no copy was made since the first count, and then the snapshot is the user's. |
| Clipboard.Pasteboard.Borrow | macos_apps_mcp/runtime.py:1196-1212 | From the write on, the restore happens exactly when the count did not move while waiting or the write failed midway. |
| Clipboard.Pasteboard.Paste | macos_apps_mcp/runtime.py:1198-1208 | A paste that did not settle is rolled back, twice when the first rollback raises; a settled one never is. |

## Left out

- MailUndo.UndoCoversIffNothingSwallowed: covers finished runs of move and trash; an interrupted run is covered whole by InterruptedRunIsReplayedWhole, a dedupe by DedupeBatch.LostAndNotReplayedExactly.
- MailUndo.MoveThenUndo: states the case of a move answered `ok` throughout; every other fate and ending is RunThenUndo.
- MailUndo.RunThenUndo: the undo leg is one in which Mail moves every copy asked for; what an undo cut short leaves is RunThenUndoConserves, and RunCounts of the run the undo is.
- MailUndo.RunConservesCopies: assumes every copy Mail takes from the source is one it lands; a copy Mail destroys is outside any promise of the plane.
- MailRecover.UndoReplaysExactly: takes the new receipt's id to be unused in the log, as the minted counter and time stamp intend; two processes minting the same id are not modelled.
- MailRecover.Plane.Recoverable: locating, backing up, the lossy gate on permanent operations and dry runs come before what it models.
- MailRecover.Plane.Undo: refusals for label folders, unified names and a changed Trash mailbox come before what it models, and both log files are readable.
- AuditLog.RotatingLog.ReadBack: counts the error entries of unreadable files and leaves out their place in the answer.
- Sidecar.RunKeepsAccount: ROWIDs only grow; what an index rebuilt with reissued ROWIDs leaves behind is stated build by build in BuildExactly.
- Clipboard.Pasteboard.ComposeInsert: the Accessibility reads, the key events and the final confirmation of the text are outside; a settled paste ends the model.
- Recurrence.ParseRrule: UNTIL is modelled in its YYYYMMDD spelling; date-times, zones and the other spellings read as a bad UNTIL.
- RecurrenceCalendar.ConstructExactly: a rule built directly with a weekday code outside the seven is refused by the source; the model's weekday type cannot hold one.
- LabelGuard.LabelViewsAreRefusedExactly: takes the stored mailbox urls to have no blanks around them, as Mail writes them; the url the guard is asked about may have any.
- LabelGuard.ReadsAndGuardAgree: case folding and percent-decoding are arbitrary functions, so nothing is said about which real names collide.
- LikeEscape.EscapedLikeIsSubstring: case folding is SQLite's, ASCII letters only.
- MailSearch.SearchIsOneRowPerMessage: rows with equal dates may come in any order.
- Previews and dry runs.
- The text of every message.
- The bulk read itself and the AppleScript that performs the acts: Mail's answers per copy stand for them.
- The reader for recent log entries.
- The SQL text itself, SQLite's planner, the full-text index and its body sidecar, and fingerprint and schema-drift handling.
- Finding the stores and message files on disk: a store is a map from ROWID to the id its file carries.
- Time zones, wall-clock formatting of the end date and non-ASCII digits and letters.
- The expansion of a rule into its occurrences: the source only asks whether one date belongs to it.
- Per-mailbox dedupe in the CLI, its preflight of Trash mailboxes, and everything it prints.
- The server, tool registry, installer, doctor, dashboard and the other adapters.
