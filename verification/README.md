# A verified model of the browser daemon

The daemon keeps browser sessions for command-line clients. It tracks which
session owns which browser target, survives restarts through a state file,
shares one connection per browser, cleans up idle sessions, reads requests from
a socket, drives the mouse, and measures screenshots. This project models the
parts of it with the most state, branching and arithmetic in Dafny, and proves
what they promise for all inputs, all runs and all interleavings.

Check it with `dafny verify dfyconfig.toml`.

## How the modules fit together

- **Screenshots.** `Jpeg`, `Webp`, `Png` and `Base64` take the parsers and the
  codec of the artifact module. Each parser is proved equal to a grammar that
  says nothing about offsets. `Gf2` is the theory of polynomial
  division that the checksum of `Png` rests on, for any generator of degree 32.
- **Sessions and targets.** `Sessions` is a session and `Lifecycle` the daemon's
  map of them, as classes whose methods are the atomic regions of the source.
  `Ownership` makes runs of those regions, in any order the locks allow, and
  proves what all of them keep. `Races` proves who wins and how many tabs a
  limit lets in, and `Activity` which tab a session acts on and when it was last
  used. `Subscriptions` has the tokens of the background tasks.
- **Persistence.** `Validation` is the check of a loaded file, `Persist` the
  conversions and their round trips, `Restart` what a start makes of the files
  that runs write, and `Writer` the debounced task.
- **Browsers.** `Attach` follows CDP sessions from attach to tracked tab or
  detach; `Connect` and `Disconnect` follow connections; `Cleanup` closes idle
  sessions under arbitrary failures; `Rounds` interleaves the turns of cleanup
  and of a lost browser with the other actors; `LockRegistry` is the weak lock
  table.
- **Small machines.** `ReadRequest` and `Utf8` read lines, `NetworkIdle` and
  `Glob` wait for conditions, and `Mouse` presses and releases.

Where a parser or a step shares a definition with its specification, a further
law tells it in other terms: bytes, literal values, or single fields. The
stronger ones have rows below. The single steps are told by
`Activity.ReleaseDoes`, `Activity.RefusedChangesNothing`,
`Activity.UnknownRemovalDoes`, `Activity.UpdateDoes`, `Activity.CreateDoes`,
`Activity.OthersDo`, `Cleanup.CloseDoes`, `Cleanup.DisposeDoes`,
`Cleanup.FinishesMeans`, `Cleanup.TimeoutIs`, `Connect.LoseCloses`,
`Connect.ClientDoes`, `Subscriptions.SessionEnds`, `Subscriptions.TabEnds`,
`Writer.RequestDoes`, `Writer.SettleDoes`, `Writer.FinishDoes` and
`Rounds.TurnPasses`; the tables by `Strings.WhiteIs`, `Utf8.ScalarIs` and
`Png.DepthsAre`; the remaining bytes by `Jpeg.FillByBytes`, `Jpeg.LoneByBytes`,
`Jpeg.RefusedByBytes`, `Png.TooFewBytes` and `Base64.GroupsFollow`; and the
fields of the file by `Persist.WrittenSession` and `Restart.ReadMeans`.

`Common` and `Strings` hold shared vocabulary: byte fields, `Option`, trimming
and the order of strings.

An operation that updates fields in place is a method of a class here too. Its
contract equates a `View()` of the new state with a function of the old one,
and the theorems are about that function. I/O outcomes (a refused command, a
failed write, a browser that cannot attach a target) are parameters that range
over everything, and so are the current time and the order in which a hash map
yields its entries.

## What the proofs found

- Nothing checks the name of a new session, but the check of the state file
  refuses an empty or padded one. A client that connects under such a name
  (`Restart.PaddedNameRefused`) makes the next start refuse the whole file:
  no session is restored and persistence is disabled. This happens exactly when
  some session present has such a name (`Restart.RunWritesValid`,
  `Restart.RestartKeeps`).
- The URL glob leaves `?` unescaped. In a pattern with a star it drops, alone or
  with the letter before it, or makes the expression throw
  (`Glob.ConditionIsReadings` has the exact meaning). With a star, plain text
  and a letter before it and plain text after it, an address that ends as the
  pattern spells it never ends the wait: for `*/s?q=1` the wait is not over at
  `https://a.test/s?q=1` (`Glob.QueryNeverMet`). Straight after a star it is
  ignored: a wait for `*?q=1` is over wherever it should be, and also at
  `https://a.test/q=1` (`Glob.StarredMarksDrop`, `Glob.QueryMetEarly`). A
  pattern without a star is searched for as it is (`Glob.StarlessIsSearched`), and
  its question marks stand for themselves. No pattern of one line with both a star and a question mark
  means the glob, and every one with a star and without a question mark does
  (`Glob.TranslationExact`). This if-and-only-if ranges over all strings of one
  line; a browser reports only some of them as addresses, and on those alone a
  pattern with a question mark may happen to agree with the glob.
- The request reader decodes each buffer on its own. A character split over two
  buffers is lost (`Utf8.EuroSignCut`); the text is right exactly when none is
  split (`ReadRequest.TextOfLine`).
- `cancel_all_for_session` forgets a pending dialog only if its task is still
  registered (`Subscriptions.PendingForgotten`). A task that is cancelled while
  it answers a dialog, and whose answer fails, records a dialog that stays
  (`Subscriptions.LateDialogStays`, with one tab in
  `Subscriptions.LateDialogOfOneTab`).
- The reservation counter saturates, so an unlimited reservation at the largest
  `usize` is the one step that breaks its count (`Races.StepConserves`).
- The second size check of `decode_bounded` cannot fail
  (`Base64.SecondCheckUnreachable`).
- A partly failed cleanup still counts as a use of the session, because removing
  a tab updates its time of use; the tabs that failed are retried only after
  another full timeout (`Cleanup.CleanupSession`).

## Model

| member | source | states |
|---|---|---|
| `Jpeg.JpegDimensions` | src/runtime/artifact.rs:931-991 | The marker walk answers `Some(d)` exactly when the bytes are a start of image followed by what the grammar of sections B.1.1 and B.2.2 of ITU-T T.81 derives with dimensions `d`; it ends and never reads out of range |
| `Jpeg.WalkIsGrammar` | src/runtime/artifact.rs:937-990 | From any offset, the walk and the grammar agree in both directions |
| `Jpeg.Complete` | src/runtime/artifact.rs:937-990 | Every list of skippable segments followed by a well-formed frame header is walked to that header's dimensions |
| `Jpeg.Sound` | src/runtime/artifact.rs:937-990 | Whatever the walk answers was derived: the segments, the frame header and the rest are produced |
| `Jpeg.DimensionsUnique` | src/runtime/artifact.rs:931-991 | No byte string declares two sizes |
| `Jpeg.FrameByBytes` | src/runtime/artifact.rs:954-992 | At each of the thirteen start-of-frame markers: the size that two bytes each declare, if the length fits the component count and the precision is 8 or 12, and no size otherwise |
| `Jpeg.SegmentByBytes` | src/runtime/artifact.rs:954-982 | Any other segment, those of C4, C8 and CC among them, is stepped over by the number that its length bytes hold, if it is whole |
| `Jpeg.SmallestImage` | src/runtime/artifact.rs:931-992 | For every frame marker and every size, the smallest image of it is answered with that size |
| `Webp.WebpDimensions` | src/runtime/artifact.rs:993-1041 | The chunk walk answers `Some(d)` exactly when the RIFF grammar of sections 2.3 to 2.7 of RFC 9649 derives `d`; no sum leaves the range of `usize`, and no read leaves the bytes |
| `Webp.WalkIsGrammar` | src/runtime/artifact.rs:1009-1040 | From any offset and any declared end, the walk and the grammar agree in both directions, padding and both bounds included |
| `Webp.Complete` | src/runtime/artifact.rs:1009-1040 | Unknown chunks that fit, then an image chunk that fits, are walked to that chunk's dimensions |
| `Webp.Sound` | src/runtime/artifact.rs:1009-1040 | Whatever the walk answers was derived |
| `Webp.HeaderRead` | src/runtime/artifact.rs:1052-1084 | Dimensions written by the specification's encoder of each of the three headers are read back |
| `Webp.HeaderWritten` | src/runtime/artifact.rs:1052-1084 | Whatever is read was written by that encoder |
| `Webp.DimensionsUnique` | src/runtime/artifact.rs:993-1041 | No byte string declares two sizes |
| `Webp.FileByBytes` | src/runtime/artifact.rs:993-1008 | Which first twelve bytes a file must have, and where its declared end is |
| `Webp.ChunkByBytes` | src/runtime/artifact.rs:1010-1040 | A chunk of any type but the three is stepped over by its size and padding, within the declared end and the bytes |
| `Webp.ImageByBytes` | src/runtime/artifact.rs:1022-1036 | One of the three types must be declared whole and hold its header, of ten bytes or of five |
| `Webp.ExtendedByBytes` | src/runtime/artifact.rs:1054-1059 | The size in a VP8X header, one more than its fields, whatever the flags that are not reserved |
| `Webp.LossyByBytes` | src/runtime/artifact.rs:1060-1070 | The size in the low fourteen bits of a VP8 key frame's fields |
| `Webp.LosslessByBytes` | src/runtime/artifact.rs:1071-1080 | The size in a VP8L header of version zero |
| `Png.PngCrc32` | src/runtime/artifact.rs:919-929 | The bit loop computes the checksum defined by polynomial division, for messages of any length |
| `Png.CrcIsRemainder` | src/runtime/artifact.rs:919-929 | The complement of the checksum is the remainder of dividing the message, as section 5.5 of the PNG Specification lays it out, by the CRC-32 generator, and the only one |
| `Png.PolynomialIsGenerator` | src/runtime/artifact.rs:925-925 | The constant of the loop is that generator with its bits reversed |
| `Gf2.RegisterDivides` | src/runtime/artifact.rs:919-929 | Feeding a message bit by bit leaves the remainder of its division, with an explicit quotient, for every generator |
| `Gf2.RemainderUnique` | src/runtime/artifact.rs:919-929 | Quotient and remainder are unique |
| `Gf2.FeedKeepsApart` | src/runtime/artifact.rs:923-926 | Each step of the register is injective, so two different states stay different whatever is fed to both |
| `Gf2.FeedAtOnce` | src/runtime/artifact.rs:921-927 | Feeding up to 32 bits is feeding zeros to the register with those bits added |
| `Png.BurstChangesCrc` | src/runtime/artifact.rs:919-929 | A change confined to four consecutive bytes changes the checksum, wherever it is in the message |
| `Png.DimensionsAreDeclared` | src/runtime/artifact.rs:884-917 | A prefix is accepted with `d` exactly when it is the signature and a valid IHDR chunk declaring `d`, with its checksum |
| `Png.BurstRejected` | src/runtime/artifact.rs:884-917 | Any change within four consecutive bytes of the header data of an accepted image makes it rejected |
| `Png.OneByteRejected` | src/runtime/artifact.rs:884-917 | Changing any one of the first 33 bytes of an accepted image makes it rejected |
| `Png.DimensionsByBytes` | src/runtime/artifact.rs:884-917 | What every one of the first 33 bytes must be, the fifteen pairs of colour type and bit depth included |
| `Png.CheckValues` | src/runtime/artifact.rs:919-929 | The checksum of no bytes is 0, of four bytes FF it is FFFFFFFF, and of those followed by 80 it is 12477CDF |
| `Base64.DecodeEncode` | src/runtime/artifact.rs:822-829 | Decoding the canonical encoding gives the bytes back |
| `Base64.EncodeDecode` | src/runtime/artifact.rs:822-829 | Whatever decodes is the canonical encoding of the result |
| `Base64.DecodeIsInverse` | src/runtime/artifact.rs:822-829 | A string decodes to `b` exactly when it is the encoding of `b` |
| `Base64.EncodeInjective` | src/runtime/artifact.rs:761-804 | No two byte strings have the same encoding, so the length is that of a unique one |
| `Base64.DecodedLenExact` | src/runtime/artifact.rs:761-804 | The length function answers `n` exactly when the string encodes some byte string of length `n` |
| `Base64.LenAgreesWithDecode` | src/runtime/artifact.rs:761-804 | The length function accepts exactly what decodes, with the decoded length |
| `Base64.DecodeBoundedTrichotomy` | src/runtime/artifact.rs:806-840 | Exactly one of: the bytes, when they fit; the exact length, when they do not; invalid data, whatever the limit, when the string encodes nothing |
| `Base64.SecondCheckUnreachable` | src/runtime/artifact.rs:830-838 | The size check after decoding can never fail |
| `Base64.AlphabetIs` | src/runtime/artifact.rs:822-829 | The letters of table 1 of RFC 4648 |
| `Base64.GroupByDigits` | src/runtime/artifact.rs:822-829 | A group of up to three bytes is written as the digits to the base 64 of one number, with a padding character for each missing byte |
| `Lifecycle.DaemonState.FindTargetOwner` | src/daemon/target_lifecycle.rs:55-63 | Whatever order the map yields its sessions in, the answer is the owner |
| `Lifecycle.DaemonState.SessionForCreatedTarget` | src/daemon/target_lifecycle.rs:65-101 | Whatever the order, the opener's session if it is on the host, or else the only isolated session of the browser context; none when there are two |
| `Lifecycle.DaemonState.ReserveSessionTab` | src/daemon/target_lifecycle.rs:114-129 | The error, and the one counter that changes when there is none |
| `Lifecycle.DaemonState.ReleaseSessionTabReservation` | src/daemon/target_lifecycle.rs:131-136 | The session's counter goes down by one, not below zero |
| `Lifecycle.DaemonState.RegisterReservedSessionTab` | src/daemon/target_lifecycle.rs:138-166 | The answer and the whole new state: the reservation is given back even to a loser, but not when the session is gone |
| `Lifecycle.DaemonState.RegisterInitializedSessionTab` | src/daemon/target_lifecycle.rs:168-195 | The answer and the whole new state: a loser changes nothing |
| `Lifecycle.DaemonState.RemoveSessionTab` | src/daemon/target_lifecycle.rs:279-301 | The owner loses the tab and, if it was active, falls back to a remaining one; its console and dialog tasks are cancelled and one event is sent |
| `Lifecycle.DaemonState.UpdateOwnedTab` | src/daemon/target_lifecycle.rs:312-335 | A stale owner changes nothing; otherwise exactly address, title and time of use change, if they differ |
| `Sessions.Session.RemoveTab` | src/daemon/session.rs:143-149 | The tab is gone, and the active target falls back to a remaining one |
| `Sessions.Session.AddTab` | src/daemon/session.rs:133-140 | The tab is there and active |
| `Activity.OpenerDecides` | src/daemon/target_lifecycle.rs:65-83 | A page opened from a tab on the same host belongs to that tab's session |
| `Activity.ContextDecides` | src/daemon/target_lifecycle.rs:83-101 | Any other page belongs to the one isolated session on the host with its browser context, if there is exactly one |
| `Activity.ReserveDoes` | src/daemon/target_lifecycle.rs:114-129 | Which error a reservation gets, on the true sum, and that it counts by one up to the largest counter value |
| `Activity.AnswerIs` | src/daemon/target_lifecycle.rs:138-195 | What each registration is told, by who has the target and whether the session is there |
| `Activity.RegisteredIsActive` | src/daemon/target_lifecycle.rs:159-166 | A registered tab is stored as it is and becomes the active one, and the session counts as used; nothing else changes but a reservation given back |
| `Activity.RemovalDoes` | src/daemon/target_lifecycle.rs:279-301 | The owner loses the tab and counts as used, and if it acted on it, acts on a remaining one |
| `Activity.LatestIsActive` | src/daemon/session.rs:133-149 | In every run a session acts on the tab registered last, until another is registered for it, the tab leaves, or the session is bound again or closed |
| `Activity.LatestUse` | src/daemon/session.rs:167-170 | In every run the recorded time of use is the instant of the latest use |
| `Ownership.NextKeeps` | src/daemon/target_lifecycle.rs:114-336 | Every operation, restore, disconnect and removal keeps unique owners, tabs under their own target, a valid active target and well-formed sessions |
| `Ownership.RunOk` | src/daemon/target_lifecycle.rs:55-336 | So does every run, in any interleaving and whatever session names clients ask for |
| `Races.ExactlyOneWinner` | src/daemon/target_lifecycle.rs:138-195 | While no tab is removed, exactly one registrant of an unowned target is told that it registered it, namely the first, and the tab it stored is never overwritten |
| `Races.StepConserves` | src/daemon/target_lifecycle.rs:114-166 | A step keeps each session's counter equal to the reservations held, if and only if it is not an unlimited reservation at the largest counter value |
| `Races.ReservationsConserved` | src/daemon/handler/open.rs:38-67 | In every run without such a step no reservation is lost or invented, across failed and duplicate registrations |
| `Races.RunWithinLimit` | src/daemon/session.rs:158-165 | With a positive limit, tabs and reservations exceed it by no more than the tabs that came without a reservation |
| `Attach.LookUpCreated` | src/daemon/target_lifecycle.rs:541-560 | Which session a reported page belongs to before the lock is taken; anything but a page belongs to none |
| `Attach.BeginTargetCreated` | src/daemon/target_lifecycle.rs:561-605 | Under the lock, in whatever state the others left the daemon: the page is attached only if its session is still the one found and nobody tracks it, and a CDP session that cannot be initialised is detached, once |
| `Attach.FinishTargetCreated` | src/daemon/target_lifecycle.rs:611-660 | In whatever state the others left the daemon, the CDP session becomes the tracked tab's or is detached, once |
| `Attach.ReattachSessionTabs` | src/daemon/persist.rs:388-463 | The surviving tabs with their new CDP sessions, the active target, what is handed over, and every attach and detach sent |
| `Attach.SessionsConserved` | src/daemon/persist.rs:388-463 | Every CDP session attached is handed over with a prepared tab or asked to detach, exactly once |
| `Attach.PreparedAreSurvivors` | src/daemon/persist.rs:388-463 | The prepared tabs are the surviving tabs, one to one and in order, each with the CDP session the tab holds |
| `Attach.ReconnectExistingSession` | src/daemon/handler/connect.rs:195-240 | A reconnected session keeps its name and mode and exactly the tabs that could be attached again, or none in a new context; a failure changes no session, and success no other one |
| `Attach.KeptIsAttachedAgain` | src/daemon/handler/connect.rs:213-234 | A default session, or an isolated one on the same host whose context is there, keeps its context and exactly the tabs that the browser attaches and initialises, and acts on the same tab or on the least one left |
| `Attach.MovedStartsOver` | src/daemon/handler/connect.rs:221-234 | Any other session moves to the new context without tabs, and stays as it was if there is none |
| `Validation.Validate` | src/daemon/persist.rs:142-277 | Accepts exactly the valid states; an error names a problem of the first invalid session, and the first in the order of the checks |
| `Validation.ValidateTabs` | src/daemon/persist.rs:209-242 | Accepts exactly tabs with clean, distinct targets that no earlier session has, none attached in an isolated session; an error is the first problem of the first tab that has one |
| `Strings.TrimKeeps` | src/daemon/persist.rs:147-156 | The two checks of an identifier pass exactly when it is not empty and has no white space around it |
| `Strings.TrimIs` | src/daemon/persist.rs:147-156 | Trimming takes white space off both ends, all of it and nothing else |
| `Strings.OrderIs` | src/daemon/persist.rs:61-61 | Sorting goes by the first character that differs |
| `Validation.ValidMeans` | src/daemon/persist.rs:142-277 | The valid states, condition by condition, without a name or a target that occurs twice |
| `Persist.BuildValidExactly` | src/daemon/persist.rs:514-526 | For well-formed sessions, what is written is accepted when it is read if and only if no session name is empty or padded and no target is in two sessions |
| `Persist.WrittenTab` | src/daemon/persist.rs:50-62 | Each tab is written with its target, address, title and ownership, in ascending order of target |
| `Restart.RunWritesValid` | src/daemon/persist.rs:514-526 | At any point of any run, whatever names the clients asked for, what is written is accepted if and only if no name present is empty or padded |
| `Restart.CleanRequestsWriteValid` | src/daemon/persist.rs:514-526 | If every session was created under a clean name, every file that a daemon writes after restoring a valid one is valid |
| `Restart.PaddedNameRefused` | src/daemon/handler/connect.rs:293-303 | One connect under the name `a` with a space behind it, in a daemon with no session, is carried out, and the file then written is refused |
| `Restart.ReadOneByOne` | src/daemon/persist.rs:514-519 | Reading each session at a moment of its own writes as good a file as reading all at once, while no target that one session has is registered for another |
| `Restart.LoadState` | src/daemon/persist.rs:279-322 | A parsed file is taken as it is if its version is the current one and it is valid; otherwise nothing is restored, persistence is disabled and the reason kept |
| `Restart.PrepareLoadedState` | src/daemon/persist.rs:465-479 | The sessions of the file take their place, each waiting for its browser, and the flag and the reason of a refused file are set |
| `Persist.LoadOk` | src/daemon/persist.rs:465-479 | A daemon that loads a valid file starts well-formed, with no reservation |
| `Persist.BuildLoad` | src/daemon/persist.rs:514-526 | Writing what was loaded gives the file back, sessions and tabs sorted and all disconnected: nothing lost, added or merged |
| `Restart.RestartKeeps` | src/daemon/persist.rs:49-100 | After a restart every session is back as it was, but for its CDP sessions and reservations, and no other, if no name is empty or padded; with one such name none is back and persistence is disabled |
| `Restart.RestartedIs` | src/daemon/persist.rs:79-100 | Field by field, what a session is after a restart |
| `Writer.PersistState.RequestPersist` | src/daemon/state.rs:161-163 | A signal is queued unless 32 are queued already |
| `Writer.PersistState.BeginPersist` | src/daemon/persist.rs:545-556 | When disabled, nothing is snapshotted or recorded |
| `Writer.PersistState.RecordRuntimePersistResult` | src/daemon/persist.rs:528-543 | Success clears the recorded error and failure records it |
| `Writer.NothingLost` | src/daemon/persist.rs:492-574 | In every run the latest request is on disk, or signalled, or about to be snapshotted, or in the snapshot being written, or its failure is recorded, or persistence is disabled; the disk never gets older |
| `Writer.PersistState.ReceiveSignal` | src/daemon/persist.rs:498-507 | One signal is taken and the settling time starts again |
| `Writer.RestIsFlushed` | src/daemon/persist.rs:492-511 | Whenever in a run the writer waits with no signal queued, enabled and with no error recorded, the latest request is on disk |
| `Writer.DisabledWritesNothing` | src/daemon/persist.rs:545-556 | In no run does a disabled writer begin to write: the file stays as it is and no error is recorded |
| `Writer.TaskFlushes` | src/daemon/persist.rs:497-511 | Left to itself with writes that succeed, the writer comes to rest with the latest request on disk and no error |
| `Writer.NextRequestRetries` | src/daemon/persist.rs:539-541 | After a failure the next request brings everything to disk once writes succeed |
| `LockRegistry.SessionLifecycleLockRegistry.LockFor` | src/daemon/state.rs:28-52 | Prunes every dead entry and hands out the live lock of the name, or a new one |
| `LockRegistry.OneLockPerName` | src/daemon/state.rs:28-52 | Over every interleaving of lookups, clones and drops, two locks handed out for one name and both alive are the same lock |
| `LockRegistry.CountIsHandles` | src/daemon/state.rs:28-52 | Over every interleaving a lock is alive exactly while one of its handles is |
| `LockRegistry.AsManyEntriesAsLiveLocks` | src/daemon/state.rs:31-34 | After an undisturbed call the registry has exactly one entry for each live lock |
| `Subscriptions.DialogState.CancelSubscription` | src/daemon/dialog.rs:139-149 | The tab's task is cancelled and removed and its pending dialog forgotten |
| `Subscriptions.DialogState.CancelAllForSession` | src/daemon/dialog.rs:152-166 | The same for every task of the session, and its policy goes; other sessions keep theirs |
| `Disconnect.DisconnectSessionsForHost` | src/daemon/state.rs:209-242 | With nobody else acting, exactly the sessions of the host are marked and their tasks cancelled |
| `Disconnect.BrowserState.HandleBrowserDisconnect` | src/daemon/state.rs:185-200 | With nobody else acting, everything happens if the connection is still the host's current one, and nothing at all otherwise |
| `Disconnect.DisconnectLeaves` | src/daemon/state.rs:202-242 | Every session of the host is marked and left without registered tasks, all cancelled; other sessions, tasks, dialogs and policies are as they were |
| `Disconnect.DisconnectKeeps` | src/daemon/state.rs:209-242 | A disconnect leaves the daemon well-formed |
| `Rounds.RoundMarks` | src/daemon/state.rs:212-244 | Whatever the others do between the turns, each session on the host when the round began ends it marked, and each console or dialog task it then had is cancelled, unless the session has been bound again or removed |
| `Rounds.NoTaskLeaks` | src/daemon/dialog.rs:231-247 | In every run each task ever registered is still registered in its place or cancelled |
| `Connect.EnsureTargetWatcher` | src/daemon/target_lifecycle.rs:368-391 | A live token stays; a missing or cancelled one is replaced |
| `Connect.ConnectLocked` | src/browser/mod.rs:219-237 | Under the lock: an entry is shared, a failure changes nothing, and only an absent entry is inserted |
| `Connect.RunInv` | src/browser/mod.rs:205-238 | Over every interleaving the lock has one holder, entries have monitors and no connection strays |
| `Connect.NothingReplaced` | src/browser/mod.rs:205-264 | In every run no insertion replaces an entry, the disconnect command closes the connection it took off the list, and a monitor never takes off a connection that replaced its own |
| `Connect.NoConnectionLeaks` | src/browser/mod.rs:205-238 | Whenever nobody is in the middle of connecting or disconnecting, every connection ever created is its key's entry or closed |
| `Connect.ClosedEntryIsNoticed` | src/browser/mod.rs:257-264 | A closed connection that is still an entry can be noticed, and then it is off the list |
| `Cleanup.CleanupSession` | src/daemon/server.rs:126-192 | A session used in the meantime is untouched; exactly the tabs whose command succeeded leave; an isolated session goes only when all is done, with its dialog tasks, and the default one stays and counts as used |
| `Cleanup.CleanupExpiredSessions` | src/daemon/server.rs:102-198 | That, for every session; a zero timeout does nothing |
| `Cleanup.CleanupKeeps` | src/daemon/server.rs:102-198 | Whatever fails, the daemon stays well-formed, the default session stays, and a session that is gone was idle and isolated, had all its tabs closed and its context disposed |
| `Cleanup.UsedIsSpared` | src/daemon/server.rs:204-216 | A session used no longer ago than the timeout is left as it is |
| `Cleanup.IdleIsGone` | src/daemon/server.rs:126-192 | A session is removed if and only if it was not used for longer than the timeout, is isolated, and all its tabs were let go and its context disposed of |
| `Cleanup.IdleIsStripped` | src/daemon/server.rs:137-190 | Any other idle session keeps exactly the tabs that no command let go, and counts as used if one was, or if it is the default one without tabs |
| `Cleanup.OnlyClosedTabsLeave` | src/daemon/target_close.rs:92-154 | A tab leaves its session only if its close action succeeded; an attached target is never closed by it, and without a browser only an attached one that has no CDP session leaves |
| `Rounds.MixedRunOk` | src/daemon/server.rs:118-135 | In every run in which other actors act between the turns of cleanup and of lost browsers, the daemon stays well-formed, and a session used between the list and its turn is left alone |
| `Rounds.UsedIsLeftAlone` | src/daemon/server.rs:126-135 | In every such run a session that some action used at an instant is left alone by each later turn for which the timeout has not passed since, while the clock does not run back |
| `Rounds.GoneWasRemoved` | src/daemon/server.rs:126-192 | In every such run a session that is gone was closed by a client, or by cleanup at a turn at which it was idle and isolated, with all its tabs closed and its context disposed |
| `Rounds.LeftWasTaken` | src/daemon/server.rs:139-153 | In every such run a tab that left its session was destroyed, lost in a rebinding, closed with its session, or taken by a turn of cleanup whose command for it succeeded; such a command never closes an attached target |
| `NetworkIdle.NetworkIdleCounter.RequestStart` | src/page/wait.rs:393-396 | The request is in flight and no instant is recorded |
| `NetworkIdle.NetworkIdleCounter.RequestEnd` | src/page/wait.rs:399-404 | An end of an unknown request changes nothing but may find the set empty; the instant is recorded once |
| `NetworkIdle.NetworkIdleCounter.IsIdleForDuration` | src/page/wait.rs:412-417 | Idle since an instant at least so long ago |
| `NetworkIdle.ReplayTracks` | src/page/wait.rs:393-404 | The set in flight is the set of requests live in the history, and the instant recorded is the end of the last busy spell |
| `NetworkIdle.IdleMeansQuiet` | src/page/wait.rs:412-417 | Idle for a duration if and only if the history shows nothing in flight throughout it |
| `NetworkIdle.IdleSinceIffEmpty` | src/page/wait.rs:371-375 | An instant is recorded if and only if nothing is in flight, duplicates and unknown ends included |
| `Glob.ParseTail` | src/page/wait.rs:463-463 | The translated pattern parses, by the grammar of section 22.2 of ECMA-262, to the terms the pattern spells |
| `Glob.NodesMeanReadings` | src/page/wait.rs:463-464 | Those terms match exactly what the readings of the pattern match as globs, on one line, and nothing else on any string; in a reading each question mark is dropped, and the letter before it may be dropped with it |
| `Glob.ConditionIsReadings` | src/page/wait.rs:458-467 | For every pattern with a star, the condition is met by a string of one line if and only if some reading of the pattern matches it as a glob |
| `Glob.StarredMarksDrop` | src/page/wait.rs:458-467 | When every question mark stands straight after a star, the condition is the glob without them: met wherever the glob matches, and at addresses without a question mark too |
| `Glob.QueryMetEarly` | src/page/wait.rs:458-467 | For a star, a question mark and a plain end, the condition is met at every address without a question mark that only ends so, and the glob matches none of them |
| `Glob.ConditionIsGlob` | src/page/wait.rs:458-467 | For a pattern with a star and no question mark, the condition is the glob on every URL without line terminators |
| `Glob.QuestionMarkDisagrees` | src/page/wait.rs:463-463 | For every pattern with a star and a question mark there is a string that the wait and the glob treat differently, the pattern without its stars if the expression throws |
| `Glob.QueryNeverMet` | src/page/wait.rs:458-467 | For a star, a plain text, a plain letter, one question mark and a plain end, the glob matches every address that ends so, and the condition is met by none of them |
| `Glob.QueryAddressNeverMet` | src/page/wait.rs:458-467 | A wait for `*/s?q=1` is not over at `https://a.test/s?q=1`, which the glob matches |
| `Glob.TranslationExact` | src/page/wait.rs:458-467 | For a pattern with a star, the condition is met by exactly the strings of one line that the glob matches, if and only if the pattern has no question mark, or holds a line terminator and its expression accepts no single line |
| `Glob.StarlessIsSearched` | src/page/wait.rs:462-462 | A pattern without a star is met by exactly the addresses that hold it |
| `Glob.OneStarCondition` | src/page/wait.rs:458-467 | With one star and no question mark, the condition says how an address starts and how it ends |
| `Glob.QueryMeans` | src/page/wait.rs:463-464 | A letter with a question mark after it may be there or not |
| `Glob.NothingToRepeat` | src/page/wait.rs:463-463 | A question mark at the front, the third after a letter and the second after a star make the expression throw |
| `Glob.StarStopsAtLines` | src/page/wait.rs:463-463 | A star takes every character but the four that end a line |
| `ReadRequest.BufReader.Consume` | src/daemon/protocol.rs:107-134 | Exactly the first bytes of the stream go |
| `ReadRequest.ReadRequest` | src/daemon/protocol.rs:81-135 | The answer in terms of the stream alone: a line that fits is consumed exactly through its newline, a longer line or tail is refused, an empty stream holds no request; the text is what the buffers decode to |
| `ReadRequest.BufferingDoesNotMatter` | src/daemon/protocol.rs:81-135 | Two bufferings of the same bytes get the same answer and, unless refused, leave the same bytes |
| `ReadRequest.TooLargeExactly` | src/daemon/protocol.rs:107-134 | Refused if and only if the line with its newline, or the tail that none ends, is over 1 MiB |
| `ReadRequest.AnswersMean` | src/daemon/protocol.rs:91-134 | The other answers by the bytes alone: a line of at most 1048576 bytes through its newline or the end of the stream, no request, or a broken stream |
| `ReadRequest.TextOfLine` | src/daemon/protocol.rs:117-132 | The text is what decoding the line at once gives, if and only if no buffer starts inside a character |
| `ReadRequest.TextOfAsciiLine` | src/daemon/protocol.rs:117-132 | An ASCII line is read as it is |
| `Utf8.AssembledIsWhole` | src/daemon/protocol.rs:117-132 | Decoding piece by piece gives the text of the whole if and only if no piece starts inside a character or an ill-formed unit |
| `Utf8.LossyEncodeAll` | src/daemon/protocol.rs:117-117 | Lossy decoding gives well-formed text back |
| `Utf8.UnitIsMaximal` | src/daemon/protocol.rs:117-132 | Each unit is the longest start of the bytes that begins the form of a scalar value, and reads as that value if it is all of it and as U+FFFD otherwise |
| `Utf8.EncodeIs` | src/daemon/protocol.rs:117-117 | The forms are those of table 3-6 of the Unicode Standard |
| `Utf8.EuroSignCut` | src/daemon/protocol.rs:132-132 | A three-byte character split over two buffers becomes three replacement characters |
| `Mouse.MouseClick` | src/runtime/action.rs:796-818 | For every count and every pattern of refusals: what is sent, up to the click that meets the first refusal, and the error, which is that refusal |
| `Mouse.MouseDrag` | src/runtime/action.rs:858-897 | The same for a drag: the release follows at the source after a refused press and at the target after a refused move |
| `Mouse.ReleaseAfterPrimaryFailure` | src/runtime/action.rs:913-925 | The primary error is kept, with a cleanup failure added when the release is refused too |
| `Mouse.MouseMove` | src/runtime/action.rs:819-844 | A refused move is Unknown once the action has started, and NotStarted before |
| `Mouse.ClickReleases` | src/runtime/action.rs:796-818 | However a click ends, each press was released exactly once and the button is up; success means that nothing was refused |
| `Mouse.DragReleases` | src/runtime/action.rs:858-897 | However a drag ends, its press was released exactly once and the button is up; success means that nothing was refused and that the last held move was to the target point itself |
| `Mouse.ClickSends` | src/runtime/action.rs:796-818 | Event by event: a move without a button, then for each click a press that counts it and a release |
| `Mouse.ClickStopsAt` | src/runtime/action.rs:796-844 | For each place at which a click is refused: how much was sent, and the error with its operation, completion and cleanup failure |
| `Mouse.DragEnds` | src/runtime/action.rs:858-897 | A drag goes to the source, down there, and up at the target, event by event |
| `Mouse.DragMoves` | src/runtime/action.rs:875-891 | Its ten held moves go by tenths of the way |
| `Mouse.DragStopsAt` | src/runtime/action.rs:858-925 | For each place at which a drag is refused: what was sent, with the release where it belongs, and the error |

## Left out

- CDP transport, sockets, files, process launch and JSON: their outcomes are parameters, or the values start after decoding. The request reader stops before the JSON parse.
- `usize` is taken to have 64 bits, and no slice to be longer than `isize::MAX` bytes.
- A `u32` of the checksum is a list of 32 bits, least significant first, because that is what the division theorem is about.
- The base64 crate and `String::from_utf8_lossy` are not part of the repository; they are modelled from sections 3.5 and 4 of RFC 4648 and from table 3-7 of the Unicode Standard with one replacement character for each maximal ill-formed unit.
- URLs and patterns are sequences of code points, where JavaScript has UTF-16 units. They differ only for characters outside the Basic Multilingual Plane, which the translation leaves alone. The strings on which the condition and the glob are compared have no line terminators, as no address in a browser has; which of them a browser can report is not modelled.
- Mouse.MouseDrag: coordinates are real numbers, so rounding and the rejection of non-finite intermediate points are not modelled.
- Mouse.DragReleases: that the last held move is to the target point itself is proved over real numbers; in the source it may be off by rounding.
- Attach.BeginTargetCreated: the handler is three methods, `Attach.LookUpCreated`, this one and `Attach.FinishTargetCreated`, so that other actors may act in between; what they do while the target is being attached is not observed before the registration.
- Attach.ReattachSessionTabs: console and dialog event streams are represented by the prepared tab that carries them; the warnings are not modelled.
- Writer.NothingLost: the background task is the only writer. `persist_now` may write at the same time, and `do_persist` has no ordering lock between its snapshot and its write. A snapshot is one step, although the map is read entry by entry, and stands for the oldest change it may contain.
- Restart.RunWritesValid: a snapshot is one step here too; `Restart.ReadOneByOne` covers one that reads the map entry by entry while no target moves from one session to another.
- Ownership.RunOk: sessions are created, rebound and removed under their lifecycle lock, as the source does, so that no reservation is held then; target and context identifiers come clean from the browser and hosts from the connect code, which builds them from a parsed endpoint, while session names are whatever clients ask for; and an attached tab is only registered in a default-mode session, as the attach command checks.
- Cleanup.CleanupExpiredSessions: in this method no other actor acts between two sessions of one round; `Rounds.MixedRunOk`, `Rounds.GoneWasRemoved` and `Rounds.LeftWasTaken` are about rounds in which they do, turn by turn. During a turn the session's lifecycle lock keeps the others from it, and all times of use recorded in one turn are the same instant.
- Disconnect.DisconnectSessionsForHost: in this method, too, no other actor acts between two sessions; `Rounds.RoundMarks` is about rounds in which they do, and `Rounds.TurnMarks` about one turn of them.
- Disconnect.BrowserState.HandleBrowserDisconnect: the entry is removed and the sessions take their turns in one step; after the removal the source lets others act, and from then on `Rounds.RoundMarks` applies.
- Rounds.NoTaskLeaks: replacing a task is one step, while the source removes the old token and inserts the new one in two; only the registrant that won a target's tab, or whoever rebinds its session, does so. A task registered for a target only after its tab was removed is not excluded.
- Connect.NoConnectionLeaks: the shutdown path, which empties the list of browsers without closing the connections, is not an action of the model.
- Session creation, the session limit and the checks of `bind_session_state` before a reconnect: single branches. Creation is an action of the runs.
- The rest of the open and attach commands, with their own rollback of a created target: the registrations they end in are modelled.
- The Created event, which is sent after the registration lock is released, and with it the order of Created and Destroyed.
- A target watcher that runs whenever its token is not cancelled: the early returns of the watcher task do not cancel it, so this is not true.
- The command line, configuration, log pruning, browser discovery, geometry, injected page scripts and the locator actions beyond the mouse helpers: plumbing, or resting on the browser's document model.
- The console ring buffer, timeout clamps, error codes and response texts: they would only add easy members.
