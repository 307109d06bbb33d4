# Verified model of AxSSH

AxSSH is a terminal and file-transfer client. This project models the parts of it whose logic
can be separated from sockets, processes and toolkits, and proves what they keep in every run and
for every input. `dafny verify dfyconfig.toml` checks the whole project.

| file | component |
|---|---|
| `PacketStream.dfy` | the guard that buffers whole SFTP packets before releasing a byte of them (section 3 of draft-ietf-secsh-filexfer-02) |
| `Upload.dfy`, `UploadPath.dfy` | the upload protocol: exclusive temporary file, pipelined writes, close, rename (sections 6.3 to 6.5 of the same draft) |
| `RemotePath.dfy` | textual resolution of remote paths |
| `Telnet.dfy` | the incremental framer of RFC 854 and RFC 855, the escaping sender, the output batcher |
| `Pcm.dfy` | the block resampler driver and its packetiser |
| `Panes.dfy` | the split tree of terminal panes, its geometry and its saved form |
| `Credentials.dfy` | saving and deleting a password across the keyring, the vault and the unlock key |
| `FilePromise.dfy` | the life of a Finder file promise over two threads |
| `IconCache.dfy` | the capped LRU of file icons and its prewarm batch |
| `LocalPty.dfy` | the caller, worker and reader threads of a local shell |
| `PoText.dfy`, `PoCatalog.dfy`, `PoRoundTrip.dfy` | the PO catalog reader and writer of the translation scripts, and their round trip |
| `Common.dfy` | bytes, options and facts about concatenation |

Code that changes state step by step is a class or a method with loops, proved against a
specification function; code made of expressions is a function with lemmas. Where several threads
or a client and a server interleave, the model is a step relation and the theorems speak of every
run. What the environment does is a parameter: a script of poll results, of faults or of
interruptions, or one action of a run.

## What does not hold

These properties look plausible, but the code does not have them; each has its exact condition or a witness.

- Normalising a relative path keeps where it leads exactly when it never climbs above its start, or
  starts at the root (`RemotePath.RelativeMeaningKeptIff`).
- Joining depends only on the parent's normal form exactly when the parent is not empty
  (`RemotePath.JoinRespectsNormalFormIff`).
- The temporary file of an upload lies in the target's directory exactly when the path names one, or
  the working directory is the root; a bare file name gets a temporary file in the root
  (`UploadPath.TemporaryBesideTargetIff`).
- A packet error can be reported by the same poll that already put whole packets into the caller's
  buffer: its data is empty exactly when every complete packet had been delivered before
  (`PacketStream.PacketLimitedStream.PollRead`, condition on the stream `PacketStream.PollToTheEnd`,
  witness `PacketStream.FailureCarriesData`).
- A failed save or deletion is undone exactly when the restoring steps work and the backed-up secrets
  are legal: a single fault is enough to leave a save half done when the earlier keyring password is
  empty or over 1024 bytes (`Credentials.SavePassword`, `Credentials.OneFaultIsUndone`, witness
  `Credentials.IllegalPasswordIsNotPutBack`).
- A rejected password deletion left everything as it was exactly when the first delete did not fail
  after taking effect, or there was nothing to delete (`Credentials.DeletePasswordInStore`, witness
  `Credentials.TornDeleteIsNotUndone`).
- A pane tree always reopens, but by its first leaf: it keeps its workspace tab exactly when that tab is
  still the first leaf, which a split to the left of it or above it changes (`Panes.Reopen`,
  `Panes.SplitKeepsFirstIff`, witness `Panes.SplitLeftChangesTheWorkspaceTab`).
- `Started` need not be the first event of a local shell: it is exactly when the first turn of a thread
  that delivers anything is the worker's and the launch worked (`LocalPty.StartedIsFirstIff`, witness
  `LocalPty.OutputMayPrecedeStarted`).
- A reader's `Failed` need not be the last event: until the reader raises the flag, the worker can still
  get an event through exactly when it is about to report the start or is in its loop, and afterwards
  exactly when it is in a send that has already passed the flag; in both cases only while the event
  channel is open (`LocalPty.FailedIsLastIff`, witness `LocalPty.FailedNeedNotBeLast`).
- Resolving a path against a directory that is not absolute leads where it was meant to exactly when
  nothing in it climbs above its start or the start is the root; a path joined to an empty directory
  starts at the root instead, which is right exactly when its climbs reach the root (`RemotePath.ResolvedPathLeadsWhereMeantIff`).
- An upload that failed may leave its temporary file behind: it is there exactly when the open was carried
  out and no removal or renaming of it was (`Upload.TemporaryLeftIff`, witness
  `Upload.LateOpenLeavesTemporary`).
- A catalog survives being written and read back exactly when it is renderable
  (`PoRoundTrip.RoundTripIff`).

## Model

| member | source | states |
|---|---|---|
| PacketStream.WholeIsOnlyPackets | src/sftp.rs:530-550 | the complete legal packets at the front of any byte string are themselves nothing but complete legal packets |
| PacketStream.WholeIsLongest | src/sftp.rs:530-550 | no longer prefix of the string is made of complete packets only |
| PacketStream.WholeGrows | src/sftp.rs:553-644 | more consumed bytes never take a packet back: the complete packets of a prefix are a prefix of those of the whole |
| PacketStream.FramedStreamRoundTrips | src/sftp.rs:598-643 | any list of legal payloads, framed and followed by a cut-off packet, is released exactly and decodes to the same payloads |
| PacketStream.PacketLimitedStream.constructor | src/sftp.rs:540-550 | a new guard has an empty header buffer, nothing delivered and no failure |
| PacketStream.PacketLimitedStream.ValidAccounting | src/sftp.rs:530-644 | in every reachable state consumed = delivered + what the buffer holds, delivered is a prefix of the complete packets, and the buffer is at most 4 + 262144 bytes |
| PacketStream.PacketLimitedStream.PollRead | src/sftp.rs:553-644 | one poll under any inner answers and any space: it ends, holds no complete packet back while there is space, nothing follows a failure, each outcome has its own cause in an answer to this very poll, and a failure carries exactly the packets not delivered before |
| PacketStream.PollToTheEnd | src/sftp.rs:564-643 | over a transport that only has data, a poll with room for it fails exactly when a length field at a packet boundary is illegal, and puts every packet before that field in the buffer |
| PacketStream.FailureCarriesData | src/sftp.rs:599-617 | a concrete stream whose failing poll has already put a packet in the buffer |
| PacketStream.PacketLimitedStream.Advance | src/sftp.rs:564-643 | one turn of the read loop either makes progress in the lexicographic measure or leaves with every complete packet delivered |
| PacketStream.PacketLimitedStream.AcceptHeader | src/sftp.rs:599-623 | a length field is accepted exactly when it is 1..262144, and a refusal comes with all earlier packets delivered |
| PacketStream.PacketLimitedStream.Release | src/sftp.rs:632-643 | the next bytes of a fully buffered packet are copied out, as many as fit, and the next header is awaited exactly after its last byte |
| Upload.UploadIsAtomic | src/sftp.rs:273-314 | in every run, with requests executed late, refused or unanswered, the target is as before, or it was absent and holds exactly the data; success implies the latter, that the temporary name was free and that it is gone |
| Upload.TakenTemporaryBlocks | src/sftp.rs:286-296 | when the temporary name already exists no run succeeds, and neither file is touched |
| Upload.UploadCanSucceed | src/sftp.rs:273-314 | some run of the protocol does end in success when the names are free, so the safety theorem is not vacuous |
| Upload.TemporaryLeftIff | src/sftp.rs:285-322 | at every step of every run, also after the client has given up, the temporary file is there exactly when its open was carried out and no removal or renaming of it was |
| Upload.LateOpenLeavesTemporary | src/sftp.rs:286-296 | a concrete run whose client timed out on the open, and whose temporary file then appears and stays |
| Upload.RunKeepsInv | src/sftp.rs:324-372 | every interleaving of client, server and other clients keeps the protocol invariant |
| Upload.SendKeepsInv | src/sftp/transfer/pipeline.rs:23-53 | sending the next request of the window keeps the invariant |
| Upload.WriteKeepsInv | src/sftp.rs:341-372 | a chunk write executed in any order leaves a temporary file that agrees with the data wherever a write has been answered |
| Upload.RenameKeepsInv | src/sftp.rs:296-314 | a rename, even one whose reply is never awaited, publishes complete data or nothing |
| Upload.PartialIsComplete | src/sftp.rs:341-372 | once every chunk write has succeeded the temporary file is the data |
| UploadPath.TemporaryIsNotTheTarget | src/sftp.rs:273-285 | the temporary name always differs from the target's |
| UploadPath.TemporaryBesideTargetIff | src/sftp.rs:273-285 | the temporary file is in the target's directory exactly when the path names a directory or the working directory is the root |
| RemotePath.SplitJoin | src/sftp.rs:981-1010 | splitting at slashes undoes joining |
| RemotePath.NormalizeRemotePath | src/sftp.rs:981-1002 | the pushing and popping loop computes the normal form, or rejects control characters |
| RemotePath.NormalFormIsNormal | src/sftp.rs:981-1002 | the result has no empty, `.` or `..` component |
| RemotePath.WalkNormalForm | src/sftp.rs:981-1002 | walking the normal form from any place adds exactly the components the path itself leads to from an empty start |
| RemotePath.AbsoluteMeaningKept | src/sftp.rs:981-1002 | an absolute path and its normal form lead to the same place from everywhere |
| RemotePath.NormalizingTwice | src/sftp.rs:981-1002 | normalising twice is normalising once, with and without the control-character check |
| RemotePath.RelativeMeaningKeptIff | src/sftp.rs:981-1002 | a relative path keeps its meaning exactly when it never climbs above its start or starts at the root |
| RemotePath.JoinedPathLeadsOn | src/sftp.rs:1004-1010 | a joined path leads first where the parent leads, or to the root for an empty parent, then along the child |
| RemotePath.JoinRespectsNormalFormIff | src/sftp.rs:1004-1010 | the normal form of a joined path depends only on the parent's normal form exactly when the parent is not empty |
| RemotePath.ResolvedPathLeadsWhereMeantIff | src/sftp.rs:965-979 | for any current and home directory and any place the server starts from: resolving fails exactly for a control character in the path or in a name it leads to; otherwise the result is normal, and leads where `~`, relative and absolute paths are meant to lead exactly when it is absolute, starts at the root or never climbs above its start, or, if it was joined to an empty directory, when its climbs reach the root |
| RemotePath.CandidateLeads | src/sftp.rs:965-979 | before normalising, the joined path leads where it was meant to, unless it was joined to an empty directory and so starts at the root |
| Telnet.WireIsKept | src/telnet.rs:62-134 | the elements read from any bytes and the leftover are exactly those bytes, and the leftover is empty or one incomplete sequence |
| Telnet.ElementsResume | src/telnet.rs:62-134 | reading can stop at the leftover and resume with more bytes without changing any element |
| Telnet.MergedFramesAreDetermined | src/telnet.rs:52-56 | proper frame lists with adjacent data merged are equal when they flatten to the same elements |
| Telnet.FragmentationIndependent | src/telnet.rs:62-134 | however the bytes were cut, the merged frames and the leftover are those of a single delivery, and their wire bytes are the input |
| Telnet.EscapeDecodes | src/telnet.rs:333-341 | the escaped form of any data reads back as that data with nothing left over |
| Telnet.EscapedDataSurvivesTheWire | src/telnet.rs:333-341 | escaped data arrives unchanged through the framer wherever it was cut |
| Telnet.SubnegotiationFrameLength | src/telnet.rs:120-134 | the scan over pairs finds the first end whose IAC is not the second of a pair, and finds none only when there is none |
| Telnet.TelnetFrameBuffer.Receive | src/telnet.rs:62-118 | one chunk yields the specified frames and pending bytes; an overflow changes nothing |
| Telnet.SendEscaped | src/telnet.rs:333-341 | escaping chunk by chunk writes the escaping of the whole, or a prefix of it when the writer fails |
| Telnet.OutputBatcher.Append | src/telnet.rs:543-561 | batches hold 1..16384 bytes and, together with the buffer, exactly the output in order; only a closed channel loses bytes, and it is reported |
| Telnet.OutputBatcher.Flush | src/telnet.rs:563-578 | a flush moves the whole buffer into one event, or reports what the closed channel refused |
| Pcm.SampleSurvives | src/audio.rs:466-470 | a clamped, rounded sample fits 16 bits and is read back from its two little-endian bytes |
| Pcm.AudioFormat.PacketBytes | src/audio.rs:24-46 | a packet is a whole number of frames of two bytes a channel and lasts exactly 20 ms |
| Pcm.FramesOfFragments | src/audio.rs:429-440 | cutting interleaved samples at a frame boundary does not change the frames |
| Pcm.FragmentationIndependent | src/audio.rs:429-440 | any whole-frame fragmentation of the input pushes the same frames |
| Pcm.RecordingIsUnique | src/audio.rs:487-504 | resampler output, delay dropped and cut to the target length, is one definite sequence |
| Pcm.NeverAheadOfTarget | src/audio.rs:487-504 | recording never emits more than floor(inputFrames * outRate / inRate) frames, so flushing only adds |
| Pcm.PacketsCarryExactly | src/audio.rs:478-504 | packets are full, carry exactly the bytes, and only the last is padded, with zeros |
| Pcm.PcmConverter.constructor | src/audio.rs:405-427 | a new converter is ready to skip the resampler's delay |
| Pcm.PcmConverter.Push | src/audio.rs:429-440 | whole frames are appended to the recording and complete blocks are resampled; a full receiver is reported and what was sent is a prefix of the recording |
| Pcm.PcmConverter.Process | src/audio.rs:442-476 | one block is resampled and emitted after the delay, up to the limit |
| Pcm.PcmConverter.SendPacket | src/audio.rs:478-485 | a full packet goes to the receiver once, or the receiver was full |
| Pcm.PcmConverter.Finish | src/audio.rs:487-504 | the flush ends, and the packets sent over the converter's life are exactly the recording cut to floor(inputFrames * outRate / inRate) frames |
| Pcm.PushAll | src/audio.rs:171-190 | pushing block after block records the frames of all of them, and a full receiver is reported |
| Pcm.Capture | src/audio.rs:171-193 | a whole capture sends exactly the packets of its samples' recording, however the device cut the samples into whole frames |
| Pcm.SentForIsUnique | src/audio.rs:569-626 | the samples alone decide those packets, so two fragmentations of one input send the same |
| Panes.LayoutBuilder.CollectLayout | src/app/panes.rs:349-425 | the recursive walk with a counter appends exactly the placements and dividers of the tree |
| Panes.PointsAreCoveredOnce | src/app/panes.rs:349-425 | every point of the window is in exactly one pane, points outside in none |
| Panes.PanesFillTheRectangle | src/app/panes.rs:349-425 | the areas of the panes add up to the window's |
| Panes.PanesStayInside | src/app/panes.rs:349-425 | every pane has positive size and lies in the window |
| Panes.PanesAreInTabOrder | src/app/panes.rs:161-192 | panes are laid out in the order of `tab_ids` |
| Panes.DividersAreNumberedInPreorder | src/app/panes.rs:366-382 | there is one divider fewer than panes, numbered 0, 1, 2, ... in preorder with each split's axis and ratio |
| Panes.ResizeSplitNode | src/app/panes.rs:427-452 | the search with a running divider number finds and clamps the split of that preorder number, and reports a change beyond the tolerance |
| Panes.ResizeChangesOneRatio | src/app/panes.rs:198-205 | resizing divider k changes the ratio of the split the layout labels k and nothing else |
| Panes.ResizeStaysInsideItsDivider | src/app/panes.rs:366-382 | it moves no pane outside the rectangle of that divider |
| Panes.SplitInsertsBesideTheSource | src/app/panes.rs:454-483 | a split puts the new pane right before or after its source in the order of panes |
| Panes.RemoveUndoesSplit | src/app/panes.rs:485-508 | removing the pane just split in gives back the same tree |
| Panes.RemoveKeepsTheOthers | src/app/panes.rs:485-508 | a removal takes exactly that identifier out and keeps the order of the rest |
| Panes.RemoveNeverShrinks | src/app/panes.rs:485-508 | no surviving pane gets narrower or shorter |
| Panes.MilliRoundTrip | src/app/panes.rs:283-302 | a ratio saved in thousandths comes back within 0.0005 and saves to the same number |
| Panes.SnapshotRoundTrips | src/app/panes.rs:283-330 | a saved tree restores with the same shape, ratios within 0.0005, and saves to the same snapshot |
| Panes.RestoreRoundTrips | src/app/panes.rs:304-330 | whatever snapshot restores is the snapshot of its tree |
| Panes.RestoresIff | src/app/panes.rs:304-330 | a snapshot restores exactly when its axes are known and its ratios are 100..900, and then with its own identifiers |
| Panes.SavedTreeReopensIff | src/app/panes.rs:265-280 | a valid tree's snapshot is accepted with each of its tabs as the workspace tab and with no other, and gives back its identifiers and shape |
| Panes.Reopen | src/app/window_router.rs:112-119 | every valid tree opens again from its snapshot by the first leaf, with its focus, identifiers and shape; its workspace tab is then the first leaf |
| Panes.SplitKeepsFirstIff | src/app/panes.rs:454-483 | a split leaves the first leaf in place unless it puts the new pane before it |
| Panes.SplitLeftChangesTheWorkspaceTab | src/app/panes.rs:207-217 | a concrete tree that reopens with another workspace tab |
| Panes.FromSnapshot | src/app/panes.rs:265-280 | a snapshot is accepted exactly when its axes and ratios are legal, it has at most 8 tabs and holds both given ones; the tree is valid exactly when the saved identifiers are distinct |
| Panes.Nearest | src/app/panes.rs:219-247 | the minimum search picks the first pane at the least distance in that direction |
| Panes.PaneTree.constructor | src/app/panes.rs:129-135 | a new tree is one focused leaf, its workspace tab |
| Panes.PaneTree.SetFocused | src/app/panes.rs:149-155 | the focus moves only to a pane of the tree |
| Panes.PaneTree.Layout | src/app/panes.rs:171-192 | the layout is that of the unit square with dividers from 0 |
| Panes.PaneTree.ResizeSplit | src/app/panes.rs:198-205 | a valid tree stays valid, an unknown divider or a non-finite ratio changes nothing, and a real change is reported |
| Panes.PaneTree.SplitFocused | src/app/panes.rs:207-217 | it succeeds exactly below 8 panes with a new identifier; identifiers stay distinct, the new pane is focused, and removing it would restore the root |
| Panes.PaneTree.FocusDirection | src/app/panes.rs:219-247 | the focus goes to a nearest pane in that direction, or stays when there is none |
| Panes.PaneTree.Remove | src/app/panes.rs:249-259 | the only pane is never removed; otherwise the others stay in order and the focus stays or goes to the first |
| Panes.PaneTree.Snapshot | src/app/panes.rs:261-263 | the snapshot holds the tree's identifiers in order, and a valid tree's restores to that tree with ratios within 0.0005 |
| Credentials.CredentialStore.LoadOrMigrateVaultUnlockPassword | src/credentials.rs:288-298 | the key is the legacy file's if there is one, else the keyring's; it is read exactly when it is legal and no step fails, it is then in the keyring alone, and whichever step fails every reader still gets the same key |
| Credentials.CredentialStore.LoadVaultUnlockPassword | src/credentials.rs:241-250 | the keyring's key is read exactly when the read succeeds and the key is within the accepted bounds |
| Credentials.CredentialStore.DeleteVaultUnlockPassword | src/credentials.rs:259-264 | both places of the key are cleared, or the failure is reported |
| Credentials.CredentialStore.RestoreBackup | src/credentials.rs:368-389 | a restore succeeds exactly when the backup is legal and the step works, and then puts exactly the backed-up value back |
| Credentials.CredentialStore.RestoreBackups | src/app/credential_tasks.rs:207-216 | every backup is put back exactly when all are legal and no step fails |
| Credentials.CredentialStore.Restore | src/app/credential_tasks.rs:146-158 | a rollback puts back the credentials and the unlock key exactly when its secrets are legal and no step fails |
| Credentials.RollbackUndoes | src/app/credential_tasks.rs:67-76 | the backups taken are enough to undo anything a save may disturb |
| Credentials.SavePassword | src/app/credential_tasks.rs:56-144 | all or nothing under any fault script: done as requested, or rejected with every store as before; it is done, and it cannot be undone, exactly when the script says so, and the returned rollback would restore the earlier values |
| Credentials.OneFaultIsUndone | src/app/credential_tasks.rs:86-134 | a single fault never keeps a save from being undone when its own secrets and the backed-up ones are legal |
| Credentials.IllegalPasswordIsNotPutBack | src/credentials.rs:126-131 | a concrete save where one fault is not undone, because the earlier keyring password is outside the bounds a restore accepts |
| Credentials.SaveThenLoad | src/app/credential_tasks.rs:39-54 | after a save with a generated key, reading the key and opening the vault gives the password back exactly when the three reading steps work: no legacy file shadows the key |
| Credentials.DeletePasswordInStore | src/app/credential_tasks.rs:174-205 | under any fault script a deletion is done as requested, rejected, or cannot be undone, each exactly when the script says so; a rejection left everything as before exactly when the first delete did not fail after taking effect or there was nothing to delete |
| Credentials.OneFaultInADeleteIsUndone | src/app/credential_tasks.rs:188-197 | a single fault after the first delete is always undone when the backed-up secrets are legal |
| Credentials.TornDeleteIsNotUndone | src/app/credential_tasks.rs:185-192 | a concrete fault script whose deletion is rejected although the password is gone |
| FilePromise.HandlersRunExactlyOnce | src/app/macos_file_drag.rs:159-198 | in every interleaving each completion handler runs at most once, exactly once when its drag is gone, and reports success only if that drag's own transfer succeeded |
| FilePromise.CancellationIsIsolated | src/app/macos_file_drag.rs:577-604 | cancelling an attempt leaves every other attempt's drags, registry entries and handlers alone, and its closure leaves none of its own drags |
| FilePromise.CompleteKeepsInv | src/app/macos_file_drag.rs:740-772 | completing a drag keeps the invariant whether or not the drag is still there |
| FilePromise.FulfilKeepsInv | src/app/macos_file_drag.rs:702-728 | accepting or refusing a promise keeps it |
| FilePromise.StartKeepsInv | src/app/macos_file_drag.rs:174-192 | starting a request keeps it |
| FilePromise.MonitorKeepsInv | src/app/macos_file_drag.rs:606-619 | a transfer's end, reported from the other thread, keeps it |
| FilePromise.RunKeepsInv | src/app/macos_file_drag.rs:577-772 | every interleaving of callbacks, transfer ends, cancellations and posted closures keeps it |
| IconCache.WindowAfterTouch | src/app/file_icons.rs:335-341 | touching a cached extension moves it to the recent end; a new one pushes out the least recent when the window is full |
| IconCache.KeptIffFewTouchedSince | src/app/file_icons.rs:319-341 | a touched extension is still in a window of n exactly when fewer than n others were touched since |
| IconCache.IconCache.Retention | src/app/file_icons.rs:281-342 | in every reachable cache the pinned icons are there, at most 128 are held, the LRU is the cached extensions without repetition, and an extension is kept exactly while fewer than 125 others were touched since |
| IconCache.IconCache.constructor | src/app/file_icons.rs:289-301 | a new cache holds the three pinned fallbacks and no attempt |
| IconCache.IconCache.Icon | src/app/file_icons.rs:303-309 | a hit returns the cached icon and touches it |
| IconCache.IconCache.WasAttempted | src/app/file_icons.rs:311-317 | an attempted key is recognised and touched |
| IconCache.IconCache.Store | src/app/file_icons.rs:319-333 | the resolved icon or the fallback is stored, every other kept icon is unchanged, nothing is given up unless the cache is full and the key new, and the give-up branch is unreachable |
| IconCache.BoundedUniqueKeys | src/app/file_icons.rs:385-404 | the batch is the first distinct keys of the input, in the order of their first occurrences, at most 64, truncated exactly when another distinct one was left |
| IconCache.StoreIsFaithful | src/app/file_icons.rs:201-210 | an icon stored while the cache carries the identity it was resolved for keeps every cached icon equal to the latest stored one or the fallback, and every icon in a cache of its own identity |
| IconCache.FileIconProvider.constructor | src/app/file_icons.rs:237-249 | a new provider has revision 0 and an uninitialised cache |
| IconCache.FileIconProvider.CachedIcon | src/app/file_icons.rs:147-155 | a lookup gives the latest icon stored for a cached key, else the fallback, and is recorded as a touch of a cached extension |
| IconCache.FileIconProvider.AskAttempted | src/app/file_icons.rs:187-193 | a key counts as already cached exactly when the record shows it stored since the last reset and, for an extension, not pushed out since |
| IconCache.FileIconProvider.ClearCache | src/app/file_icons.rs:226-235 | clearing resets to the uninitialised identity and counts the released extensions |
| IconCache.FileIconProvider.StoreResolved | src/app/file_icons.rs:201-210 | a store into the cache that carries the identity adds one revision and one history entry and keeps the record right |
| IconCache.FileIconProvider.PrewarmKey | src/app/file_icons.rs:186-220 | one key is asked for once; it is skipped exactly when it was attempted at that moment, else stored and counted as found or not, or it abandons the batch because the cache was cleared meanwhile |
| IconCache.FileIconProvider.Prewarm | src/app/file_icons.rs:158-224 | for every interleaving with clears and lookups: the cache is reset first exactly when it carried another identity; requested is the number of the first distinct keys, truncated exactly when one was left over; a finished batch has asked for each of them once, in order, and stored exactly those not attempted at their turn, each into a cache that carried the identity it was resolved for, so found, fallback and already-cached counts are exact and add up; a batch is abandoned only after a clear, at the one key it then did not store |
| LocalPty.NoLostResize | src/local_shell.rs:204-227 | in every interleaving, when no resize call is in progress and the worker waits on an empty queue, the PTY has the size of the last call |
| LocalPty.NoLostShutdown | src/local_shell.rs:156-159 | a worker waiting on an empty queue with no wake owed has not missed a shutdown |
| LocalPty.NextKeepsWakeInv | src/local_shell.rs:529-602 | a posted size or a raised flag keeps the queue nonempty past the point where the worker looked |
| LocalPty.OneEnding | src/local_shell.rs:446-475 | in every interleaving at most one of `Exited` and `Failed` is delivered, `Exited` is the last event, a start was reported before it, and `Started` comes once |
| LocalPty.WorkerKeepsInv | src/local_shell.rs:510-569 | each worker step keeps what makes that true: a reader's failure raised the flag before it was joined |
| LocalPty.ReaderKeepsInv | src/local_shell.rs:604-653 | each reader step keeps it |
| LocalPty.ShutdownCancelsSends | src/local_shell.rs:655-675 | once the flag is up at most two more events are delivered, however long the run |
| LocalPty.StartedIsFirstIff | src/local_shell.rs:432-436 | in every run that delivers anything the first event is `Started` exactly when the first action that delivers one is a turn of the worker and the launch answer was no fault; else it is output or a failure |
| LocalPty.WhatFollowsFailed | src/local_shell.rs:634-650 | in every run an event that follows a `Failed` is the worker's, the `Failed` is the reader's, and it is `Started` or `Resized` |
| LocalPty.FailedIsLastIff | src/local_shell.rs:655-675 | from every reachable state that has delivered a `Failed`, some continuation delivers another event exactly when the channel is open and, with the flag up, the worker's send has passed it or, with the flag down, the worker is still to report the start or in its loop; once the flag is up at most one more follows |
| LocalPty.OutputMayPrecedeStarted | src/local_shell.rs:432-436 | a concrete run in which output comes before `Started` |
| LocalPty.FailedNeedNotBeLast | src/local_shell.rs:634-650 | a concrete run in which an event follows the reader's `Failed` |
| PoText.LinesKeptJoin | scripts/translation_catalog.py:220-224 | lines split with their ends join to the text |
| PoText.LinesAfterNewline | scripts/translation_catalog.py:137-138 | a line feed separates: the lines of two texts are those of each |
| PoText.DecodeAfterQuote | scripts/translation_catalog.py:50-55 | every string written as JSON (section 7 of RFC 8259) is read back by Python's literal rules |
| PoText.QuotedHasBreak | scripts/translation_catalog.py:205-228 | a written string is broken over lines exactly when it holds U+0085, U+2028 or U+2029 |
| PoText.NumberOfDecimal | scripts/translation_catalog.py:126-130 | a printed index is read back |
| PoCatalog.CatalogReader.Finish | scripts/translation_catalog.py:116-135 | ending an entry fails on a missing `msgid` or a repeated key, else appends it and clears the state |
| PoCatalog.CatalogReader.Accept | scripts/translation_catalog.py:137-157 | one line changes the reader's state as specified, or fails |
| PoCatalog.ReadCatalog | scripts/translation_catalog.py:109-159 | the loop over the lines reads the specified catalog |
| PoCatalog.RenderEntry | scripts/translation_catalog.py:207-227 | the lines of one entry, with sorted indices and a multi-line empty message |
| PoCatalog.RenderCatalog | scripts/translation_catalog.py:205-228 | the loop writes the specified text |
| PoRoundTrip.ReadValue | scripts/translation_catalog.py:217-226 | a translation is read back as one field, however many lines it takes |
| PoRoundTrip.ReadEntry | scripts/translation_catalog.py:116-157 | an entry's lines add what it reads back as, unless two indices share a name or the key is taken |
| PoRoundTrip.ReadBackIsSame | scripts/translation_catalog.py:127-132 | an entry reads back as itself exactly when, without a plural, its only index is 0 |
| PoRoundTrip.CatalogIsSound | scripts/translation_catalog.py:109-159 | whatever text was read, the keys are distinct and the comments are stripped comment lines |
| PoRoundTrip.BrokenTextFails | scripts/translation_catalog.py:205-228 | a catalog with such a break in any of its strings is not read back at all |
| PoRoundTrip.RoundTripIff | scripts/translation_catalog.py:205-228 | writing and reading back gives the same entries in the same order exactly when keys are distinct, only plurals have indices other than 0, comments are trimmed `#` lines that are not `#~`, and no string holds U+0085, U+2028 or U+2029 |

## Left out

- Sockets, PTYs, serial ports, audio devices, AppKit, Slint, the keyring and the file system: their answers are parameters of the model.
- The insides of `russh`, `libmudtelnet_rs`, `rubato`, `alacritty_terminal` and the vault's cryptography: the resampler is a causal block transform with proportional block sizes, and a sealed record opens with its own session and key only.
- Timing: a timeout is a request whose reply is not awaited and that may still take effect; poll intervals, debouncing and the exit recheck counter of the local shell are not modelled.
- Rounding of 32-bit floats in panes and samples: both are reals, and a ratio that is not finite is a case of its own.
- Poisoned locks, except where a file promise is registered.
- The in-place change of boxed pane nodes: `ResizeSplitNode`, `ReplaceLeafWithSplit` and `RemoveLeaf` return the new tree, which the tree object then stores.
- Pcm.Capture: cancellation and a receiver already closed, which skips the flush, are not modelled.
- Credentials of other sessions: the stores hold what belongs to one session.
- Upload.UploadIsAtomic: assumes that no other client touches the target, the temporary name or the files behind them; other names may change at any time.
- Panes.FromSnapshot: the workspace file is validated before a snapshot gets here, which rejects repeated identifiers; that validation is not part of this model.
- FilePromise.HandlersRunExactlyOnce: a promise's drag, transfer and handler identifiers are new ones, as the UUIDs and blocks of the source are.
- IconCache.FileIconProvider.Prewarm: a resolver answers each key at most once in a batch, so it is a function of the key; two batches never overlap because of the prewarm gate.
- LocalPty.OneEnding: a worker thread that cannot be started, and reports that with a single send before the handle exists, is not modelled; a reader may panic only while reading.
- PoCatalog.ReadCatalog: `\N{...}` escapes, surrogate escapes, several literals on one line and digits outside ASCII are errors in the model; every error is one value, without its message.
- The wrap-around of the 64-bit icon revision and of byte and frame counters: they are unbounded here.
- Telnet option negotiation and window-size reports: they depend on hidden parser state.
- Downloads, directory listing, remote editing, host keys, key tables, settings forms, icon decoding and release scripts: they would add only easy members.
