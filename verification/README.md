# LCQ, verified

LCQ lets a small fleet of vessels endorse a claim over a slow shared radio: each
member casts at most one signed binding vote on a claim, keeps it in a journal
that survives crashes, and counts the votes it hears against two thresholds.
These Dafny files model the code that carries that promise and prove what it
rests on.

    dafny verify dfyconfig.toml

## How it is built

**The journal** (`Journal`, `LogFormat`, `Recovery`, `Compaction`, `LogJournal`,
`MemoryJournal`, `CrashRefinement`, `JournalHistory`, `TornAppends`, `Crc`, `LockKey`,
`Postcard`, `Spellings`). The file is a
`seq<byte>` of `length || payload || checksum` records. Recovery is proved once
for any self-delimiting format, and the journal's own format is shown to be one.
`LogJournal` is the imperative journal: each operation makes its record durable,
then takes it into the live state, then may compact, and its contracts say what
state, answer and file it leaves. `CrashRefinement` runs it with a crash allowed
at any byte and shows that it never differs from the in-memory journal on the
operations that took effect; `JournalHistory` reads every part of that state off the
list of those operations alone. Checksum words are written out as their 32 bits
(`BitStrings`). `Spellings` says which bytes the readers accept, and that the written
ones are the shortest. `TornAppends` says what a failed append costs the record after
it.

**The fleet** (`CaseMachine`, `Quorum`, `CompactFrame`, `Heard`, `Sealing`,
`Member`, `Vessel`, `Fleet`, `FleetSafety`, `Forgery`, `Claims`, `Conduct`, `Recount`,
`FleetRestarts`, `TwoFacedMember`, `FleetLiveness`, `DiskFleet`). A member
is a durable journal and, while it is up, a case, the votes it holds for later
and the frame it last built. Honest members act by the code of the node, but may
choose their verdict where that code always votes support. The network keeps
every byte string ever sent and may deliver any of them any number of times or
never. Faulty members put on the air whatever they like, except that nothing
reads as an honest member's envelope unless that member sent that envelope.
`Forgery` derives that exception for the repository's own wire from signatures that
cannot be forged. `FleetSafety` holds the results over every run, `Claims` that nothing
said about another claim is ever counted, and `Conduct` that frames say what they were
built to say and votes are those that were cast. `Vessel` is the node's building
and admitting in place, over the journal on disk, proved to be the steps the
fleet takes. `DiskFleet` puts every member on its file, lets it die at any byte
of any record an act writes, and shows that each such run is a run of the fleet.
`FleetLiveness` shows that the steps suffice for approval.

**The codecs** (`Kiss`, `SpiBus`, `Bridge`, `Transparency`, `HandKey`,
`HandTyping`, `ManifestText`, `Manifest`, `ManifestMeaning`, `ManifestParts`,
`ManifestOrder`, `ManifestSigning`, `CanonicalForm`). Each imperative encoder and decoder is
proved against a function, and the round trips are lemmas about the functions.
Buffers of an SPI transaction are arrays filled in place.

**The meters** (`ReplayWindow`, `ReplayGuard`, `RadioQueue`, `QueueRuns`,
`Airtime`, `Schedule`). The 64-bit replay bitmap is written out as its bits. The
schedule is in protocol milliseconds at scale one, with airtime over exact
rationals.

Ciphers, signatures, digests, key validity and the chip's `execute` are
parameters; the laws asked of them (what is sealed opens, what is signed verifies,
and where forgery is the point, that nothing else verifies) are preconditions where
they are used. The order in which compaction
walks its maps is left open, so every order is covered.

## What the proofs brought to light

- `src/infrastructure/lock_key.rs:16-48` separates its fields with U+001F and
  takes for granted that none holds one, but `Subject::new` refuses only blank
  names. A subject has its lock to itself exactly when no U+001F stands past the
  first byte of its mission or before the last byte of its event
  (`LockIsItsOwnExactly`).
- A failed append that leaves part of its record behind loses the next record
  that returns successfully, and only then does it (`SafeToAppendExactly`,
  `LostIsForgotten`, `TornAppendLosesTheNext`). Durability is proved for failed
  appends that leave nothing.
- `drop_expired` writes a record a frame. A crash in the middle of it leaves some
  expired frames retired and others not, exactly when two or more have expired
  (`SweepIsAtomicExactly`); which ones is stated by `OneSweep`.
- The device answers `STATUS_OK` to a read whose reply is one byte too long for
  the host's deframer (`GuardIsOffByOne`): its guard counts the status byte but
  not the command byte.
- Transfers with unequal sides are transparent over the bridge exactly when none
  reads longer than it writes and nothing is read after one that writes longer
  (`TransparentExactly`).
- A pause of more than 65.535 ms is cut short on its way to the device
  (`PauseIsLongEnoughExactly`).
- The slot is sized to 152 bytes; the widest frame has 151 (`WidestFrame`).
- A sequence whose record could not be made durable can pass the replay check
  once more after a restart, and only then (`NeverPassesTwice`,
  `LostRecordPassesAgain`).
- A restarted process counts every honest supporter the last one counted, if its
  journal kept them (`NobodyIsForgotten`). A faulty member that says two things may
  be counted for the other one: the journal keeps what was first witnessed under a
  name, and a vote that comes too early replaces it among those held
  (`CountedAlikeExactly`; `FaultyMemberFlips` and `TallyCanShrink` are runs).
- The spelling of a manifest changes nothing: blank lines, comments, spacing, and
  the order and place of its member lines, as long as no header stands after a
  member and nothing after the signature (`SpellingDoesNotMatter`).

## Model

| member | source | states |
|---|---|---|
| `FleetSafety.ApprovalIsBacked` | src/bin/lcq-node.rs:1435-1513 | In every run with any crashes, restarts, loss, repetition and reordering and at most `max_faulty` arbitrary members, an approving tally at any honest member means at least `min_signers - max_faulty` honest members hold the vote lock in their own journals with a vote of support in the outbox |
| `FleetSafety.ApprovalsShareABacker` | src/bin/lcq-node.rs:1743-1830 | Any two approving tallies, at any two members and any two moments of a run, share an honest member whose own journal shows its support at both |
| `FleetSafety.VerdictsAgree` | src/bin/lcq-node.rs:1743-1830 | Two members that record the same honest member's binding vote, at any two moments of a run, record the same verdict |
| `FleetSafety.BackersStay` | src/infrastructure/log.rs:430-456 | A vote once backed stays backed through whatever happens later, restarts included |
| `FleetSafety.NoncesNeverRepeat` | src/wire/crypto.rs:151-156 | In no run do honest members seal two different envelopes under one nonce, below the counter's ceiling |
| `FleetSafety.RestartRecounts` | src/bin/lcq-node.rs:591-607 | Wherever in a run an honest member went down, it comes back unless its journal has run under a later epoch, and then counts exactly the votes its journal had witnessed, and its own, whatever order it drains them in |
| `FleetRestarts.NobodyIsForgotten` | src/bin/lcq-node.rs:591-607 | When every vote admitted since a member was last down was made durable, its next process counts everybody this one has counted, and every honest supporter among them as a supporter |
| `FleetRestarts.CountedAlikeExactly` | src/bin/lcq-node.rs:908-925 | Another member's vote, admitted and made durable as it was heard or as it was drained from those held, is counted by the next process for what it says if and only if the journal had none under that name before, or one that says the same |
| `TwoFacedMember.FaultyMemberFlips` | src/bin/lcq-node.rs:1225-1231 | At any honest member of any fleet with a faulty one there is a run, all of its writes durable, after which the faulty member is counted for one verdict and held for another by the next process: a vote that comes too early replaces the witnessed one among those held, and not in the journal |
| `TwoFacedMember.TallyCanShrink` | src/bin/lcq-node.rs:908-925 | So a tally of one supporter can be followed, after a restart that lost nothing, by a tally of none |
| `FleetRestarts.ActKeeps` | src/bin/lcq-node.rs:1343-1354 | Whatever a process that keeps what it admits does, its journal has the vote of everybody it has counted |
| `DiskFleet.DiskRunIsFleetRun` | src/bin/lcq-node.rs:1435-1513 | Every run of members on files, each of which may die at any byte of any journal record an act writes, is a run of the fleet: at its end the files replay to the journals of its members |
| `DiskFleet.ApprovalIsOnDisk` | src/bin/lcq-node.rs:1743-1830 | In every such run an approving tally means at least `min_signers - max_faulty` honest members have files that replay to the lock with a vote of support beside it |
| `DiskFleet.NoncesNeverRepeatOnDisk` | src/wire/crypto.rs:151-156 | In no such run do honest members seal two different envelopes under one nonce, below the counter's ceiling |
| `DiskFleet.ActReaches` | src/bin/lcq-node.rs:1447-1513 | However many of the records an act writes reached the disk, the journal is left as one act of the fleet model, or none, leaves it |
| `FleetLiveness.ApprovalIsReachable` | src/bin/lcq-node.rs:1380-1400 | In a fleet without faulty members whose journals may start there is, for every member, a run of the same step model at whose end its tally approves |
| `Fleet.StepKeepsInv` | src/bin/lcq-node.rs:1435-1513 | Every step of the fleet keeps: outbox and lock tell the same vote, every frame on the air or held that reads as an honest vote is the committed one, every recorded honest vote is the committed one, nonces distinct |
| `Fleet.CastOk` | src/bin/lcq-node.rs:1447-1513 | Building a vote commits at most once ever, hands back nothing that is not committed, and resends the stored bytes once the lock is held |
| `Fleet.AdmitKeepsCase` | src/bin/lcq-node.rs:1743-1830 | Offering a genuine frame to a case records at most the vote its author committed |
| `Fleet.RestartKeeps` | src/bin/lcq-node.rs:591-607 | What a process starts with, witnessed votes and its own, is genuine |
| `Recount.TallySurvives` | src/bin/lcq-node.rs:908-925 | Restart, freeze, drain: who is counted, and who as a supporter, is exactly what the witnessed votes say; a journal that has run under a later epoch stays down |
| `Recount.ActKeepsWitnesses` | src/bin/lcq-node.rs:1343-1347 | Under a member's name the journal never keeps anything but that member's binding vote |
| `Member.RealWireIsFaithful` | src/wire/crypto.rs:233-289 | Every frame a member of the fleet seals is believed by every receiver for what it says: the honest half of what the fleet model asks of a wire |
| `Forgery.NoForgeryIsInjectable` | src/bin/lcq-node.rs:1743-1790 | The other half, of any bytes: under signatures that verify only over transcripts the author signed, a frame that carries none but signatures sent on the air reads as nobody's, as a faulty member's, or as an envelope its honest author put on the air |
| `Forgery.ApprovalIsBackedUnforged` | src/bin/lcq-node.rs:1743-1830 | So approval is backed as above over the repository's own wire, with faulty senders held to nothing but not forging signatures |
| `Claims.AdmitsOnlyThisClaim` | src/bin/lcq-node.rs:170-176 | A frame changes a case or teaches anything only if it is believed and names the mission's own epoch, event, revision, case and start; and it adds what it says or nothing |
| `Claims.RecordedIsAboutThisClaim` | src/bin/lcq-node.rs:1743-1830 | In every run, every opinion and vote anybody has recorded was framed by somebody about this very claim |
| `Conduct.AdmitsExactly` | src/bin/lcq-node.rs:1743-1830 | A frame that says something about the claim is put to the case as just that, and any other changes nothing |
| `Conduct.LearnsExactly` | src/bin/lcq-node.rs:1792-1830 | What is learned names the author of a vote the case took, or of one it would not take yet |
| `Conduct.FreshVoteSays` | src/bin/lcq-node.rs:1435-1513 | A first vote reads back as the verdict asked for, with the reserved number, map and round, and lies locked in the outbox before it is handed back |
| `Conduct.AskedAgain` | src/bin/lcq-node.rs:1447-1513 | Asked again, for whatever verdict, the member hands back the waiting bytes and uses up nothing |
| `Conduct.NoVoteWhileConsulting` | src/bin/lcq-node.rs:1435-1513 | Before consultation has closed no act commits a vote, takes a lock or seals anything that reads as a vote |
| `Conduct.CastGoesOut` | src/bin/lcq-node.rs:1435-1513 | Once it has closed, the first vote that is cast, reserved and committed goes out as cast |
| `Conduct.RemembersExactly` | src/bin/lcq-node.rs:1343-1347 | An admitted vote is kept under its author's name if it reaches the disk and none was kept before |
| `Conduct.VotesWereCast` | src/bin/lcq-node.rs:1435-1513 | In every run a member's vote is one it was asked to cast: verdict, map and round |
| `Conduct.RecordedWasCast` | src/bin/lcq-node.rs:1743-1830 | In every run, an honest member's vote on record anywhere is a verdict that member was asked to cast |
| `Conduct.CommittedCanBeResent` | src/infrastructure/log.rs:430-456 | In every run a committed vote can be put on the air again in every life, and it is the committed one |
| `Conduct.CarriedVoteCounts` | src/bin/lcq-node.rs:1231-1262 | In every run a vote one member has witnessed counts at any member that collects votes and receives what the first carries, whether or not the author is still up |
| `Conduct.EarlyVoteIsNotLost` | src/bin/lcq-node.rs:908-925 | A vote that arrives before consultation closes is counted, and in the journal, once it has closed and what was held is drained |
| `Vessel.Vessel.BuildVote` | src/bin/lcq-node.rs:1435-1513 | The built frame and the journal on disk are exactly the fleet model's, failures of either journal write included |
| `Vessel.Vessel.BuildOther` | src/bin/lcq-node.rs:1473-1500 | The same for a frame that is no binding vote |
| `Vessel.Vessel.Admit` | src/bin/lcq-node.rs:1743-1830 | The case and what was learned are exactly the fleet model's, for any bytes; what that is, Conduct.AdmitsExactly and Claims.AdmitsOnlyThisClaim say of the frame alone |
| `Vessel.Vessel.Receive` | src/bin/lcq-node.rs:1217-1231 | Admission, holding votes that came early, and, further down, journalling admitted ones, as the fleet model has them |
| `Vessel.Start` | src/bin/lcq-node.rs:488-607 | There is a process if and only if the journal has run under no later epoch and the entry of the epoch is durable; it is then exactly what the fleet model restarts, and otherwise only the repaired file is left |
| `CrashRefinement.RunRefinesMemory` | src/infrastructure/log.rs:195-597 | After any run of operations and sweeps, failures, compactions and crashes at any byte, the file replays to what the in-memory journal reaches on the operations that took effect, a sweep counting as the acknowledgement of every frame whose retirement reached the disk |
| `CrashRefinement.RunFromNothing` | src/infrastructure/log.rs:195-597 | So a node that started on an empty disk has, after any run, a file that is believed to the last byte and replays to what the in-memory journal reaches from nothing |
| `CrashRefinement.OneOperation` | src/infrastructure/log.rs:392-426 | Each operation of one record leaves the state from just before or just after it; one that answered without failure is in the file |
| `CrashRefinement.OneSweep` | src/infrastructure/log.rs:497-514 | Wherever a sweep fails or dies, the file holds the state without exactly the frames whose retirement was whole on the disk, all of them expired; one that went through is the in-memory sweep |
| `CrashRefinement.SweepIsAtomicExactly` | src/infrastructure/log.rs:497-514 | A sweep leaves the state from just before it or from just after it, wherever it fails or dies, if and only if no two pending frames have expired |
| `CrashRefinement.NeverReservedTwice` | src/infrastructure/log.rs:462-472 | No run, sweeps included, hands the same sequence out twice below `u64::MAX` |
| `CrashRefinement.NeverVotedTwice` | src/infrastructure/log.rs:430-456 | No run, sweeps included, accepts two votes under one lock |
| `TornAppends.SafeToAppendExactly` | src/infrastructure/log.rs:417-426 | After a failed append the next record appended, whatever it is and whatever comes after it, is found by recovery if and only if the failure left nothing or the whole record |
| `TornAppends.FoundTakesEffect` | src/infrastructure/log.rs:417-426 | Found, it takes effect on the state the failed append left |
| `TornAppends.LostIsForgotten` | src/infrastructure/log.rs:417-426 | Not found, recovery never stops where it begins: it is forgotten with everything after the old file, or its bytes are read as part of another record |
| `TornAppends.TornAppendLosesTheNext` | src/infrastructure/log.rs:417-426 | One byte left behind is enough for an acknowledged reservation to be forgotten |
| `LogJournal.LogJournal.Open` | src/infrastructure/log.rs:213-252 | Opening cuts the unreadable tail and leaves live state and file in agreement |
| `LogJournal.LogJournal.Store` | src/infrastructure/log.rs:392-426 | A record is durable before it is live; a failure that leaves nothing changes nothing; an automatic compaction keeps the state |
| `LogJournal.LogJournal.Compact` | src/infrastructure/log.rs:318-381 | Either the replacement replays to the live state, or the old file stands |
| `LogJournal.LogJournal.CommitVote` | src/infrastructure/log.rs:430-456 | Lock, outbox and counter change together or not at all; state, answer and file are the specification's |
| `LogJournal.LogJournal.ReserveSequence` | src/infrastructure/log.rs:462-472 | The counter is durable before the number is handed out |
| `LogJournal.LogJournal.Acknowledge` | src/infrastructure/log.rs:482-495 | A frame is retired durably or stays pending |
| `LogJournal.LogJournal.DropExpired` | src/infrastructure/log.rs:497-514 | Exactly the expired frames whose retirement could be made durable go, and the file is their retirements appended in the order of the walk, or the compaction they set off |
| `LogJournal.LogJournal.Witness` | src/infrastructure/log.rs:516-529 | The first frame witnessed under a name is the one kept |
| `LogJournal.LogJournal.EnterEpoch` | src/infrastructure/log.rs:542-556 | State, answer and file are the specification's, which Journal.EnteringForgetsExactly states |
| `Journal.EnteringForgetsExactly` | src/infrastructure/log.rs:542-556 | A later epoch, entered or replayed, forgets whoever was seen and nothing else; any other changes nothing |
| `Journal.ExpiresExactly` | src/infrastructure/log.rs:497-514 | A frame is good up to and including the second it expires at, and for ever without one |
| `JournalHistory.FileTells` | src/infrastructure/log.rs:195-597 | After any run of operations, sweeps, failures, compactions and crashes from an empty disk, the file tells the history of what took effect: a lock if a commitment under it was asked for, a pending frame if it was committed and neither acknowledged nor replaced since, the first frame witnessed under a name, the highest epoch entered, and whoever was marked since |
| `JournalHistory.RefusedExactly` | src/infrastructure/log.rs:430-456 | A commitment is refused if and only if an earlier one took its lock |
| `JournalHistory.OutboxTells` | src/infrastructure/log.rs:430-495 | A frame waits if and only if it was the first commitment under its lock and no acknowledgement or later frame under its number followed |
| `JournalHistory.SeenTells` | src/infrastructure/log.rs:542-575 | A sender was seen as far as a number if and only if it was marked that far since the epoch was last raised |
| `JournalHistory.CounterTells` | src/infrastructure/log.rs:462-472 | When committed frames carry reserved numbers, the counter is the number of reservations, up to its ceiling |
| `JournalHistory.WritesExactly` | src/infrastructure/log.rs:430-575 | An operation writes a record if and only if it changes the state, but for a reservation at the ceiling |
| `JournalHistory.NothingIsUndone` | src/infrastructure/log.rs:138-190 | In any log, first-witnessed frames stay, the epoch never falls and what was seen is forgotten only when it rises |
| `LogJournal.LogJournal.MarkSeen` | src/infrastructure/log.rs:562-575 | The highest sequence seen only grows |
| `LogJournal.EncodeAll` | src/infrastructure/log.rs:318-368 | The replacement file is the records of the live state one after another, unless one is too long to read back |
| `LogJournal.CompactionHolds` | src/infrastructure/log.rs:318-381 | Any file that is a compaction of a state replays to that state |
| `LogFormat.Replay` | src/infrastructure/log.rs:624-659 | The loop stops exactly where belief ends, with the fold of the believed records |
| `LogFormat.EntryRoundTrip` | src/infrastructure/log.rs:600-616 | Every entry short enough to be written decodes to itself |
| `LogFormat.BelievedRecordExactly` | src/infrastructure/log.rs:624-659 | A record is believed if and only if it is at most 64 KiB, its own checksum follows it and it decodes, whatever comes after |
| `Spellings.EncodingIsTheShortest` | src/infrastructure/log.rs:600-616 | Of all payloads that decode to an entry the written one is the one shortest |
| `LogFormat.JournalFormatIsLawful` | src/infrastructure/log.rs:624-659 | A whole record reads back whatever follows, a torn one never does, and reading looks at nothing beyond it |
| `LogFormat.AlteredRecordEndsTheLog` | src/infrastructure/log.rs:641-650 | A record altered inside four consecutive payload bytes is not believed, nor anything after it |
| `LogFormat.RecoveredIsCoherent` | src/infrastructure/log.rs:138-190 | Whatever bytes are on disk, the counter recovered stands past every pending sequence and each frame is filed under its own |
| `Recovery.CutAnywhere` | src/infrastructure/log.rs:213-252 | For every log and every cut, recovery believes exactly the records wholly before the cut and keeps their total length |
| `Recovery.ReopeningChangesNothing` | src/infrastructure/log.rs:213-252 | Recovering what recovery kept changes nothing |
| `Recovery.BelievedAppend` | src/infrastructure/log.rs:392-426 | One more record appended to a wholly believed file is believed, and nothing else changes |
| `Compaction.SnapshotReplays` | src/infrastructure/log.rs:318-358 | The compacted records, in whatever order each collection is walked, replay to the live state |
| `LogJournal.CutFileStaysLocked` | src/infrastructure/log.rs:318-381 | However a compacted journal file that has grown since is cut, at whatever byte, no vote's frame comes back without its lock |
| `Compaction.CutLogStaysLocked` | src/infrastructure/log.rs:318-358 | The same of its records, whatever their format |
| `Journal.RecordMeansOperation` | src/infrastructure/log.rs:138-190 | Replaying an operation's record gives the state the operation left in memory |
| `Journal.ApplyAllCoherent` | src/infrastructure/log.rs:183-190 | In any log the counter passes every pending sequence, and neither it nor a lock is undone |
| `Journal.ReservationsDifferExactly` | src/infrastructure/log.rs:462-472 | Two reservations differ if and only if the counter is below its ceiling |
| `MemoryJournal.RestoredSnapshot` | src/infrastructure/memory.rs:33-46 | A journal restored from its own snapshot is the same journal, in whatever order the collections were written |
| `MemoryJournal.MemoryJournal.CommitVote` | src/infrastructure/memory.rs:50-65 | State and answer are the specification that the journal on disk refines |
| `Crc.TableCrc32` | src/infrastructure/crc.rs:34-41 | The table-driven loop equals bit-serial reflected division on every input |
| `Crc.BuildTable` | src/infrastructure/crc.rs:11-31 | Every table entry is eight steps of the division |
| `Crc.PolynomialIsGenerator` | src/infrastructure/crc.rs:11-31 | The bits divided by are those of the IEEE 802.3 generator, whose exponents are listed |
| `Crc.PresetAndComplement` | src/infrastructure/crc.rs:34-41 | The register starts at ones and is complemented: nothing has checksum nought, four bytes of ones have all ones |
| `Crc.BurstChangesChecksum` | src/infrastructure/crc.rs:34-41 | Any same-length change confined to four consecutive bytes changes the checksum |
| `LockKey.BuildKey` | src/infrastructure/lock_key.rs:16-48 | The loops push mission, event, hash in hexadecimal, revision in decimal and voter, separated |
| `LockKey.HexSpells` | src/infrastructure/lock_key.rs:16-48 | The hash is spelled in lower-case hexadecimal, two digits a byte, the high one first |
| `LockKey.SameLockExactly` | src/infrastructure/lock_key.rs:16-48 | With separator-free mission and event, two votes share a lock if and only if mission, event, hash, revision and voter all agree |
| `LockKey.LockIsItsOwnExactly` | src/infrastructure/lock_key.rs:16-48 | Under one voter a lawful subject shares its lock with no other, start aside, if and only if no separator stands past the first byte of its mission or before the last byte of its event |
| `LockKey.SeparatorInMissionCollides` | src/infrastructure/lock_key.rs:16-48 | A separator inside a mission makes another lawful subject share the lock |
| `LockKey.SeparatorInEventCollides` | src/infrastructure/lock_key.rs:16-48 | So does one inside an event |
| `LockKey.VotersApart` | src/infrastructure/lock_key.rs:16-48 | Voters whose names hold no separator never share a lock, whatever their subjects hold |
| `CaseMachine.RunLawful` | src/domain/state/mod.rs:197-264 | In every run one opinion an author and stage, one vote an author, voters equal `voted`, frozen opinions never change, recorded votes stay |
| `CaseMachine.Case.Accept` | src/domain/state/mod.rs:214-264 | State and answer are the specification's, in the code's order of refusals |
| `CaseMachine.Case.CloseConsultation` | src/domain/state/mod.rs:197-206 | Freezes only when certainly past the cutoff |
| `CaseMachine.AcceptedExactly` | src/domain/state/mod.rs:214-264 | While consulting, first opinions up to the end of the expiry's doubt are added and votes are not; afterwards votes certainly before expiry by authors who have not voted, and nothing else |
| `CaseMachine.TakenOnce` | src/domain/state/mod.rs:214-264 | What was taken is taken once: an opinion again changes nothing, a vote again is refused |
| `CaseMachine.ClosesExactly` | src/domain/state/mod.rs:197-206 | Consultation closes if and only if it is open and the cutoff certainly past, changes nothing else, and closes once |
| `CaseMachine.CloseMeansPastEverywhere` | src/domain/time/mod.rs:92-111 | When one honest node may close, every clock within thirty seconds is past the cutoff |
| `CaseMachine.SkewBudgetIsTight` | src/domain/time/mod.rs:92-111 | One second sooner and that would be false |
| `CaseMachine.AllCloseBeforeBinding` | src/domain/contracts/mod.rs:17-46 | With readings within the budget of the schedule, every node can close when the binding stage opens |
| `CaseMachine.VoteMeansUnexpiredEverywhere` | src/domain/state/mod.rs:214-264 | A vote is admitted only where no honest clock could call the case expired |
| `Quorum.WithSettings` | src/domain/quorum/policy.rs:183-228 | A policy is granted exactly to acceptable lists of members, and is then lawful and says what the list says; otherwise the error is the setting refused, or what is wrong with the first member anything is wrong with, or the ratio |
| `Quorum.Evaluate` | src/domain/quorum/evaluation.rs:97-119 | Approved if and only if the distinct signers are members, reach `min_signers` and carry more than two thirds of the competence |
| `Quorum.FaultBudget` | src/domain/quorum/policy.rs:237-254 | `min_signers` exceeds `max_faulty` and is within the fleet, so a quorum can be had and cannot be faulty |
| `Quorum.MinSignersExactly` | src/domain/quorum/policy.rs:249-254 | `min_signers` is the least number any two sets of which must share more than `max_faulty` members: a number is at least it if and only if twice it exceeds the fleet by more than `max_faulty` |
| `Quorum.MaxFaultyExactly` | src/domain/quorum/policy.rs:237-243 | `max_faulty` is the most whose share of the fleet is within the basis points |
| `Quorum.QuorumsIntersect` | src/domain/quorum/policy.rs:237-254 | Any two approving sets share more than `max_faulty` members |
| `Quorum.QuorumsShareAnHonestMember` | src/domain/quorum/policy.rs:237-254 | So they share an honest one, and each has at least `min_signers - max_faulty` honest members |
| `Quorum.WholeFleetApproves` | src/domain/quorum/evaluation.rs:97-119 | A unanimous fleet is always approved |
| `Quorum.MostCompetentApprove` | src/domain/quorum/policy.rs:125-254 | At 4000 bp the most competent `min_signers` members always approve |
| `Quorum.SmallestApprovingSet` | src/domain/quorum/policy.rs:125-254 | At 4000 bp the smallest approving set has exactly `min_signers` members, whatever the competences; how many that is, Quorum.MinSignersExactly says |
| `ReplayWindow.SeenExactly` | src/application/replay.rs:46-100 | After any marks in any order a sequence reads as seen if and only if it was marked, was covered by resumption, or is 64 or more behind something that was |
| `ReplayWindow.ReplayWindow.Mark` | src/application/replay.rs:77-100 | The bitmap in place is the specified one |
| `ReplayWindow.ReplayWindow.Seen` | src/application/replay.rs:62-74 | Reads the bitmap as specified |
| `ReplayGuard.NeverPassesTwice` | src/bin/lcq-node.rs:1665-1671 | Within an epoch, across any number of restarts, a verified sequence never passes again; if its record was not durable, only after a restart |
| `ReplayGuard.LostRecordPassesAgain` | src/bin/lcq-node.rs:625-645 | After a restart a sequence passes if and only if the journal's record does not cover it |
| `ReplayGuard.NewEpochForgets` | src/bin/lcq-node.rs:625-645 | Under a later epoch no sequence of any sender is a replay after the start; under any other exactly what was a replay still is |
| `ReplayGuard.ForgeriesLeaveNoTrace` | src/bin/lcq-node.rs:1665-1671 | In every run, frames that do not verify change nothing: without them journal and windows are the same |
| `ReplayGuard.StepExactly` | src/bin/lcq-node.rs:1665-1671 | A frame sent is a replay from then on, on record if the journal took it; a frame that does not pass changes nothing, and none touches another member's window |
| `CompactFrame.CompactRoundTrip` | src/wire/compact.rs:397-413 | Every signed envelope decodes to itself, whatever follows it |
| `Spellings.FrameIsTheShortest` | src/wire/compact.rs:397-413 | Of all byte strings that decode to a signed envelope the written one is the one shortest |
| `Spellings.VarintReadsExactly` | src/wire/compact.rs:397-413 | A number is read from a word if and only if the word spells it, seven bits a byte, within the limit and without a bit too many, padded or not |
| `Spellings.Utf8Exactly` | src/infrastructure/log.rs:600-616 | Bytes are read as text if and only if they encode Unicode scalar values |
| `CompactFrame.FrameFitsTheSlot` | src/wire/compact.rs:50-61 | Sealed, with header and tag, every frame is under 152 bytes |
| `CompactFrame.WidestFrame` | src/wire/compact.rs:50-61 | The widest frame has 151 |
| `CompactFrame.TranscriptInjective` | src/wire/compact.rs:333-357 | Two envelopes are signed over the same bytes only if every field and the full content hash agree |
| `Sealing.SealRoundTrip` | src/wire/crypto.rs:233-289 | A sealed frame opens to its author, sequence and contents |
| `Sealing.FrameIsBelieved` | src/wire/crypto.rs:233-289 | What an author seals every receiver in a fleet it belongs to believes |
| `Sealing.BelievedExactly` | src/bin/lcq-node.rs:1743-1790 | Any bytes are believed as an envelope if and only if they open under the group key to a signed envelope that the header names, by an author of the fleet, whose signature verifies over its transcript |
| `Sealing.OpensExactly` | src/wire/crypto.rs:233-289 | A frame opens if and only if it has a whole header and the cipher opens the rest under its author's and sequence's nonce |
| `Sealing.NonceInjective` | src/wire/crypto.rs:151-156 | Two nonces agree if and only if author and sequence do |
| `Postcard.VarintRoundTrip` | src/wire/compact.rs:397-413 | A varint in range reads back, whatever follows it |
| `Heard.HeardFromExactly` | src/wire/compact.rs:95-105 | Recording a member records that member and nobody else; an index past 63 records nothing |
| `Heard.HeardMap.Record` | src/wire/compact.rs:95-99 | The members recorded are those before and this one, if its index is below 64 |
| `Heard.HeardMap.Count` | src/wire/compact.rs:108-118 | The loop over the eight bytes counts exactly the members recorded |
| `Kiss.Encode` | src/infrastructure/rnode.rs:40-53 | One frame, delimited and stuffed |
| `Kiss.Deframer.Push` | src/infrastructure/rnode.rs:79-114 | The loop is the byte-by-byte specification |
| `Kiss.ChunksDoNotMatter` | src/infrastructure/rnode.rs:79-114 | However the stream is cut, the same frames come out |
| `Kiss.FrameComesOut` | src/infrastructure/rnode.rs:40-114 | From any state: at most one leftover, then exactly the frame if it is within the limit and nothing if it is over |
| `Kiss.StreamComesOut` | src/infrastructure/rnode.rs:40-114 | A stream of frames comes out whole and in order after at most one leftover; an oversized one takes nothing else with it |
| `Kiss.SegmentComesOut` | src/infrastructure/rnode.rs:79-114 | Of whatever stands between two delimiters, noise or a frame, what it says comes out, if it says anything and no more than the limit |
| `Kiss.StuffedSaysThePayload` | src/infrastructure/rnode.rs:40-53 | A frame begins and ends with the one byte that stands nowhere else in it, and what stands between says the payload |
| `Transparency.TransparentExactly` | src/infrastructure/sx126x/bridge.rs:785-825 | No chip on any idle cable can tell the bridge from the direct bus if and only if request and reply fit a frame, no transfer reads longer than it writes, and nothing is read after one that writes longer |
| `Transparency.EqualSidesTransparentExactly` | src/infrastructure/sx126x/bridge.rs:785-825 | With equal sides, if and only if request and reply fit a frame |
| `Transparency.BridgeIsTransparent` | src/infrastructure/sx126x/bridge.rs:785-825 | For any chip behaviour and such transfers, every buffer ends as on the direct bus if and only if request and reply fit a frame; and which error otherwise |
| `Transparency.OverTheCable` | src/infrastructure/sx126x/bridge.rs:785-825 | What any transaction comes to over an idle cable, whatever its sides: the reply dealt out, or the error |
| `Transparency.CableCarries` | src/infrastructure/sx126x/bridge.rs:486-577 | A request and its reply get through both framings exactly when each fits a frame |
| `Transparency.FirstDecides` | src/infrastructure/sx126x/bridge.rs:486-577 | The first reply, or error that names no other command, is the answer; with none the request times out |
| `Transparency.EveryRequestIsAnswered` | src/infrastructure/sx126x/bridge.rs:1534-1562 | The device answers every SPI request it reads, in order |
| `Transparency.GuardIsOffByOne` | src/infrastructure/sx126x/bridge.rs:1544-1547 | A reply the device accepts as just fitting never reaches the host |
| `Transparency.SameCommandExactly` | src/infrastructure/sx126x/bridge.rs:213-220 | The device is given the command of the direct bus if and only if no transfer reads longer than it writes |
| `Transparency.LongerReadTells` | src/infrastructure/sx126x/bridge.rs:213-220 | Otherwise a chip that answers the zero-padded command and no other tells the two apart |
| `Transparency.SameBuffers` | src/infrastructure/sx126x/bridge.rs:805-823 | The reply deals out as the direct bus fills its buffers if nothing is read after a transfer that writes longer |
| `Transparency.SkippedTells` | src/infrastructure/sx126x/bridge.rs:805-823 | Otherwise some answer is dealt out differently |
| `Bridge.EncodeOperations` | src/infrastructure/sx126x/bridge.rs:201-232 | The payload is the operations one by one, lengths saturated |
| `Bridge.DecodeOperations` | src/infrastructure/sx126x/bridge.rs:247-266 | The loop is the specified parse, refusals included |
| `Bridge.RequestParses` | src/infrastructure/sx126x/bridge.rs:201-266 | Every request of at most `u16::MAX` bytes an operation is read back as it was meant |
| `Bridge.ParsedExactly` | src/infrastructure/sx126x/bridge.rs:247-266 | A payload is read as these operations if and only if it is made of them, one after the other, each of a known kind and as long as it says |
| `Bridge.FailureLandsNowhere` | src/infrastructure/sx126x/bridge.rs:785-825 | An error on the way, an empty reply or a refusal leaves every buffer alone |
| `Bridge.PauseIsLongEnoughExactly` | src/infrastructure/sx126x/bridge.rs:201-232 | The device pauses at least as long as asked if and only if the pause is at most 65.535 ms |
| `Bridge.Spi` | src/infrastructure/sx126x/bridge.rs:1534-1562 | The device's reply, for any payload |
| `Bridge.BridgeSpi.Transaction` | src/infrastructure/sx126x/bridge.rs:785-825 | Each buffer gets its share of the reply in place, or the error the code returns; those a short reply does not reach, and all of them on any other error, stay as they were |
| `Bridge.TransactedLands` | src/infrastructure/sx126x/bridge.rs:785-825 | A transaction that succeeds has filled every buffer |
| `SpiBus.VirtualSpi.Transaction` | src/infrastructure/sx126x/bus.rs:56-85 | Each buffer gets its share of the chip's answer in place, zeros once it runs out |
| `HandTyping.DecodesExactly` | src/wire/hand.rs:178-221 | A line decodes to a key if and only if its symbols are the 56 the key is written with |
| `HandTyping.CardRoundTrip` | src/wire/hand.rs:160-236 | Every key comes back from its card under any separators, case and confusable letters |
| `HandTyping.Decode` | src/wire/hand.rs:178-221 | The loops, buffer and bit setting are the specified decoding, errors included |
| `HandTyping.Encode` | src/wire/hand.rs:162-169 | The loops write key and check symbols in groups of four |
| `HandTyping.WrittenInGroups` | src/wire/hand.rs:149-158 | A card is the symbols in order, with a dash after every fourth but the last |
| `HandTyping.CheckIs` | src/wire/hand.rs:139-146 | The check symbols are the first twenty bits of the key's digest |
| `HandTyping.TypedIs` | src/wire/hand.rs:178-193 | A line reads exactly as the values of its characters that are not separators |
| `HandTyping.TypedFailsExactly` | src/wire/hand.rs:178-193 | A line that does not read is refused for its first character that is no symbol, told with its place among the symbols |
| `HandTyping.Confusables` | src/wire/hand.rs:225-236 | `I` and `L` read as one, `O` as nought, `U` as nothing |
| `HandKey.KeyRoundTrip` | src/wire/hand.rs:128-221 | The key bits survive going into symbols and out |
| `HandKey.SymbolsRoundTrip` | src/wire/hand.rs:205-216 | Symbols whose padding is clear survive going into a key and out |
| `HandKey.ReadSymbol` | src/wire/hand.rs:128-136 | The loop gathers the five bits |
| `ManifestSigning.SignedTextParses` | src/application/manifest.rs:595-625 | If signing succeeds, the text returned parses to the manifest that was signed, with the same canonical bytes and the signature over them |
| `ManifestSigning.SignedTextVerifies` | src/application/manifest.rs:549-566 | And verifies under the administrator's key exactly within its window |
| `CanonicalForm.VerifiedExactly` | src/application/manifest.rs:549-566 | Any manifest verifies if and only if its signature does over its canonical bytes and the time is in its window; a bad signature is told before an early hour, and that before a late one |
| `CanonicalForm.AcceptedWasSigned` | src/application/manifest.rs:549-566 | When a signature verifies only over what was signed, an accepted manifest was signed in its meaning: a regular one that says anything else needs a signature of its own |
| `CanonicalForm.CanonicalInjective` | src/application/manifest.rs:636-679 | Two regular manifests with the same canonical bytes say the same thing |
| `CanonicalForm.ParsedIsRegular` | src/application/manifest.rs:914-955 | Everything that parses is regular, each member at its own index |
| `CanonicalForm.IdentityIsMeaning` | src/application/manifest.rs:513-536 | Two files with the same canonical bytes are the same fleet under the same terms |
| `ManifestOrder.MemberOrderDoesNotMatter` | src/application/manifest.rs:703-765 | Files whose member lines have changed places among themselves, whatever lines stand between them, are both manifests or neither, and then the same manifest |
| `ManifestOrder.SpellingDoesNotMatter` | src/application/manifest.rs:703-765 | If a file is a manifest, any other that says the same outside blank lines and comments, with the same member lines in any order and place, is one if and only if no header stands after a member and nothing after the signature, and then it is the same manifest |
| `ManifestOrder.ReadingExactly` | src/application/manifest.rs:703-765 | A file is read if and only if its lines are in order, the lines that are no member's can be read by themselves, and the members can be read and share a fleet; and what is read is what the two say |
| `ManifestParts.Parse` | src/application/manifest.rs:441-444 | Reading, settling and finishing in place is the specified parse |
| `ManifestMeaning.ParsesExactly` | src/application/manifest.rs:703-765 | A file is this manifest if and only if the manifest is lawful, the lines say it, each thing once in its one word, and they are in order: version before other headers, no header after a member, nothing after the signature |
| `ManifestMeaning.ParsedIsSaid` | src/application/manifest.rs:441-444 | What a file parses to is lawful and is what its lines say |
| `ManifestParts.SignText` | src/application/manifest.rs:595-625 | The loop over lines is the specified signing |
| `ManifestParts.Parts.ReadFile` | src/application/manifest.rs:703-765 | The loop checks order and applies each line as specified, with the same errors |
| `ManifestParts.Parts.AddMember` | src/application/manifest.rs:860-910 | A member is refused for an index, label or key already taken, in that order |
| `ManifestParts.Parts.Settle` | src/application/manifest.rs:914-955 | Missing directives, window, size, and indices that do not cover the fleet |
| `ManifestText.OneSpelling` | src/application/manifest.rs:1053-1066 | No two words are accepted as the same number |
| `ManifestText.HexOneSpelling` | src/application/manifest.rs:1106-1136 | No two words are accepted as the same bytes |
| `ManifestText.HexRoundTrip` | src/application/manifest.rs:681-685 | Bytes written in hexadecimal read back |
| `ManifestText.ReadHex` | src/application/manifest.rs:1106-1136 | The loop that fills the bytes pair by pair accepts exactly the words of the right length that spell bytes |
| `ManifestText.JoinedReads` | src/application/manifest.rs:601-614 | Lines written out read back, save a carriage return at their end |
| `QueueRuns.RoutineLeavesInTime` | src/application/queue.rs:128-199 | Under any interleaving, a routine frame at position k that does not expire leaves within `(8 - min(streak, 8)) + 1 + 9k` takes |
| `QueueRuns.BoundIsExact` | src/application/queue.rs:165-182 | With enough distress waiting it leaves at exactly the last of them |
| `QueueRuns.FirstInFirstOut` | src/application/queue.rs:128-199 | Each class leaves in the order it was accepted |
| `QueueRuns.FramesConserved` | src/application/queue.rs:128-199 | Every frame accepted was sent, dropped as expired or still waits, and nothing else leaves |
| `QueueRuns.RunSound` | src/application/queue.rs:56-209 | In every run byte count and caps are exact and `seen` is its duplicate-free order of at most 1024 |
| `RadioQueue.RadioQueue.Offer` | src/application/queue.rs:128-145 | Duplicate before full; the state is the specified one |
| `QueueRuns.OfferedExactly` | src/application/queue.rs:128-145 | A frame is taken if and only if its sequence is not remembered and there is room in items and bytes; it then waits last in its class, and is remembered as the latest of 1024 |
| `QueueRuns.RepeatIsRefused` | src/application/queue.rs:128-145 | A sequence that was taken is refused when offered again |
| `QueueRuns.ForgottenExactly` | src/application/queue.rs:153-158 | A sequence that is forgotten may be offered again, every other remembered one may not |
| `QueueRuns.OneIdentityExactly` | src/bin/lcq-node.rs:2283-2292 | Two carried frames have one identity if and only if they have one author and sequences whole multiples of 2^48 apart |
| `RadioQueue.RadioQueue.TakeNext` | src/application/queue.rs:165-182 | The frame and the state are the specified ones |
| `RadioQueue.RadioQueue.Remember` | src/application/queue.rs:201-209 | The loop forgets exactly the oldest when over the limit |
| `QueueRuns.SweepTakesTheExpired` | src/application/queue.rs:188-199 | A sweep takes every copy of exactly the expired frames and leaves the rest in their order |
| `Airtime.EveryRunIsLegal` | src/application/budget.rs:77-99 | Over every run with time never going back, from a budget at or under the cap, every closed window of 3,600,000 ms holds at most 36,000 ms |
| `Airtime.RefusedOnlyWhenOver` | src/application/budget.rs:66-87 | A frame goes out if and only if the naive sum over everything ever sent in the hour ending now leaves room |
| `Airtime.AirtimeBudget.Transmit` | src/application/budget.rs:81-87 | The meter in place is the specified one |
| `Airtime.AirtimeBudget.Evict` | src/application/budget.rs:90-99 | The loop forgets what the hour no longer reaches |
| `Schedule.NoCollisions` | src/bin/lcq-node.rs:1038-1101 | Votes, retries, requests and resends of two members never overlap if anchors agree to within e modulo the window, starts are at most d late and d + e is at most the guard |
| `Schedule.GuardIsTight` | src/bin/lcq-node.rs:956-987 | With d + e over the guard, neighbours can collide |
| `Schedule.TurnIsASlot` | src/bin/lcq-node.rs:2228-2240 | Every attempt, request and resend is the member's own slot of some window |
| `Schedule.OpinionsDoNotCollide` | src/bin/lcq-node.rs:651-667 | Nor do opinions, in either stage or across them |
| `Schedule.OpinionsClearOfBinding` | src/bin/lcq-node.rs:666-680 | With a schedule that fits, opinions are off the air before any binding slot |
| `Schedule.EverythingEndsInTime` | src/bin/lcq-node.rs:666-680 | And every attempt, request and resend is over before endorsement is expected |
| `Schedule.FitsExactly` | src/bin/lcq-node.rs:666-680 | The start-up check passes if and only if the window of the last resend is over five seconds before endorsement is expected |
| `Schedule.WindowIsLeast` | src/bin/lcq-node.rs:956-987 | A window is the least number of whole seconds that leaves two after the last slot |
| `Schedule.ForeignExactly` | src/bin/lcq-node.rs:1308-1339 | A frame is foreign if and only if no anchor that names the same slots is within a slot of the one it implies |
| `Schedule.HonestIsNotForeign` | src/bin/lcq-node.rs:1308-1339 | No honest first attempt or whole-window retry is foreign while d + e is at most a slot |
| `Schedule.AirtimeMonotone` | src/sim/channel.rs:47-72 | A longer frame is never shorter on the air |
| `Schedule.SymbolsExactly` | src/sim/channel.rs:47-72 | A payload takes eight symbols and the least number of blocks of five that carry its bits, header and checksum |
| `Schedule.AirtimeIsNearest` | src/sim/channel.rs:47-72 | Airtime is the nearest millisecond to twelve and a quarter preamble symbols and the payload's, at 2^sf chirps a symbol and 125 a millisecond |
| `Schedule.RoundingNeverTies` | src/sim/channel.rs:47-72 | The exact airtime never lies half-way between milliseconds |
| `Schedule.WidestIs` | src/sim/channel.rs:47-72 | A 152-byte frame at SF10 takes 1436 ms |

## Left out

- CrashRefinement.RunRefinesMemory: failed appends leave nothing behind, and compaction fails only before its rename; what a torn failed append does is stated by TornAppends.SafeToAppendExactly.
- DiskFleet.ApprovalIsOnDisk: the same of its files; a node retires nothing, so no act sweeps or acknowledges.
- Forgery.NoForgeryIsInjectable: a signature that verifies over what its author signed counts as that author's, and a captured one may be sealed again by anybody; how signatures could be computed is not modelled.
- Spellings.FrameIsTheShortest: longer spellings decode to the same envelope, as they do in the code; the signature is over the envelope and not over its spelling.
- FleetRestarts.NobodyIsForgotten: of a faulty member that says two things it promises that it is counted, not for which of them.
- FleetSafety.ApprovalIsBacked: one subject a journal, as the node runs it; resending takes the first pending frame whatever its subject, and witnessed frames are keyed by author alone.
- FleetSafety.NoncesNeverRepeat: below `u64::MAX`, where the counter saturates, and without a lost or rolled-back journal.
- FleetSafety.RestartRecounts: at a time certainly past the cutoff and certainly before expiry, when a node counts at all.
- Transparency.BridgeIsTransparent: the cable is idle between frames and loses nothing; the chip's answer depends on the command alone; other requests than SPI are not part of this model.
- Schedule.NoCollisions: scale one, slotted access and no random jitter; lateness is an assumption, since a node may start up to a whole slot late.
- Schedule.RoundingNeverTies: airtime is exact; rounding of binary floating point is not modelled, and this is why it cannot matter to the nearest millisecond.
- ManifestParts.Parts.Finish: that a policy is refused is modelled, with which of its reasons left to Quorum.WithSettings; errors that quote a field name or a word carry the line only.
- Vessel.Vessel.Receive: the replay check, round openings, repair queueing and split detection that stand between its lines.
- Vessel.Start: provisioning and what a start reports.
- LogJournal.LogJournal.Open: where a fresh counter starts (entropy), file permissions, the last input or output error, and the seek and sync calls themselves.
- The replay check in front of admission is not a guard in the fleet model: there every frame may be offered again and again, and safety does not rest on the check.
- What a node does on reading its own bit in an acknowledgement bitmap: it silences retransmissions and decides no vote.
- Opening and joining a round, split detection beyond the timing test, repair liveness under loss: timing and probability.
- Radio, serial and GPIO input and output, chip timers, threads, the `lora-phy` driver, command-line parsing, JSON logs and `Display` texts.
- Ed25519, ChaCha20-Poly1305 and BLAKE2s internals: ideal predicates or uninterpreted functions.
- Propagation, fading, scenario reports and the adversary modes as code: a faulty member is an arbitrary sender.
