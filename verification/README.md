# Verified model of void-init and void-initfs

void-init configures a Void Linux machine once per boot from cloud-init data; void-initfs builds the
disk images it runs on. This project models the parts of both programs whose correctness is a matter of
whole runs or of every possible input, and proves what they promise.

`dafny verify dfyconfig.toml` checks everything.

## What is modelled

- **Rotating log** (`LogState`, `LogHistory`, `LogRotation`, `LogWriter`). The log directory is a
  sequence of slots, slot 0 the active file and slot k the file with suffix `.k`, each holding bytes or
  missing. Every file operation may fail and writes may be short; a run is any sequence of boots, writes
  and closes. The size limit and the number of backups are parameters; the code has 50 MiB and 5
  (`VLOG_LIMITS`). The "10 segments" in `README.md:68` and in the comment at `internal/vlog/vlog.go:40`
  disagree with the code, and the code is followed.
- **Cleanup stack and build pipeline** (`HostState`, `CleanupStack`, `ImagePipeline`,
  `CleanupProtocol`, `SignalSafety`). The host is its nbd attachment, its mounts in order and its temp directories;
  releases are modelled as what they do whenever they are run, so releasing at a bad moment leaves a
  mount behind or ruins a device. The race between the pipeline thread and the signal goroutine is an
  interleaving machine over stack and host, with one step per acquisition, push and callback.
- **Managed files** (`Strings`, `ManagedFile`), **line rewriting** (`LineFile`, `KeyPattern`,
  `GrubDefaults`, `GrubMeaning`, `BashPrompt`), **resolv.conf** (`ResolvConf`) and the records built from
  **user data** (`UserDataRecords`): what is written, what a reader reads back, and what a rerun changes.
- **Network configuration** (`NetworkConfig`, `AddressPrefix`, `Netmask`, `NetworkMeaning`, `Repeats`,
  `NetworkApply`, `HostsAddress`): the nested
  loops against one fold over the flattened configuration, and their agreement with `/etc/hosts`.
- **Command line** (`Flags`, `FlagOrder`, `FlagMeaning`): the grammar of Go's flag package and the checks after it.

Commands, files and system calls are steps that succeed or fail as a parameter says. Library calls whose
inside does not matter (interface lookup by MAC, IP parsing, path existence) are function parameters.

## Findings

- `attachImage` can leave the device attached: `qemu-nbd -c` succeeds, the wait for the device size times
  out, and nothing has been pushed yet. `ImagePipeline.Run` proves that this is the only way a run without
  signals fails to give the host back.
- The signal handler's exit can lose a callback pushed after its unwind took the mutex, but need not: the
  pipeline's own unwind may still run it (`LatePushCanBeLost`, `LatePushCanBeCaught`). At any moment
  everything pushed has run if and only if nothing was pushed, or the last unwind to take the mutex is over
  and nothing was pushed after it (`AllCompletedExactly`). After the deferred `signal.Stop` a signal meets
  the default disposition and can kill the process in the middle of the deferred unwind
  (`LateSignalCanInterruptCleanup`).
- The comment at `cmd/void-initfs/main.go:39-41` asks that an interrupted run does not leak mounts and
  the device on the host. A signal that arrives between a mount and the push of its unmount breaks that, and
  does worse: the handler finds the root busy, deletes the tree of the root partition while it is mounted,
  and detaches the device under it (`SignalSafety.SignalCanRuinRoot`, for every host and both layouts). For
  what the pipeline acquires, the host is given back if and only if no callback ran with a mount in flight,
  everything acquired was pushed and every callback has run; and something is ruined if and only if a
  callback ran with a mount in flight (`SignalSafety.RestoredExactly`).
- The service link of dhcpcd is global and the last subnet decides, although `README.md:95` describes it
  per interface.
- `staticAddress` looks at the subnets of every entry, `ApplyNetworkConfig` only at those of physical
  ones. For a configuration that can be applied they agree if and only if the first entry that carries a
  static subnet is physical, or its address happens to be what the physical entries alone would have given.
  A nameserver entry with a static subnet can make them differ (`NameserverSubnetMisleads`), and can leave
  them in agreement by accident (`NameserverSubnetCanAgree`).
- A rendering that contains the marker in an earlier place is cut there. The round trips of resolv.conf
  and authorized_keys hold if and only if the rendered part has no marker of its own, and a search list
  can spell the marker out.
- Writing a rendering keeps the user's section if and only if the rendering has the marker or the section is
  blank. Every caller in the repository renders the marker (hosts, dhcpcd.conf, resolv.conf,
  authorized_keys, fstab, rc.local), so a rendering without it could reach the function only from a caller
  that does not exist yet.
- Self-contained flags can be reordered freely if and only if no two of them give one field different values;
  otherwise the last one wins.

## Model

| member | source | states |
|---|---|---|
| LogWriter.LogDir.RotateLogFile | internal/vlog/rotate.go:102-122 | the loop equals one closed form for any pattern of missing slots and any failing step; no rename replaces an existing segment |
| LogWriter.LogDir.MoveUp | internal/vlog/rotate.go:108-119 | one rename moves the gap down by one slot, a missing slot counts as success |
| LogRotation.RotationMovesByOne | internal/vlog/rotate.go:102-122 | slots above the stopping point move up by exactly one, those below stay |
| LogRotation.RotationLosesOnlyTheOldest | internal/vlog/rotate.go:102-122 | whatever fails, existing segments keep contents and order, and only the last slot's can go |
| LogWriter.RotatingWriter.Rotate | internal/vlog/rotate.go:79-97 | close, shift, reopen; the handle is open afterwards only on full success |
| LogWriter.RotatingWriter.Write | internal/vlog/rotate.go:59-70 | result and new state are those of the state machine, rotation before and short write included |
| LogWriter.RotatingWriter.Close | internal/vlog/rotate.go:72-75 | the handle is closed whatever is reported |
| LogWriter.OpenRotatingWriter | internal/vlog/rotate.go:32-55 | opening, with its own threshold and five ways to fail |
| LogWriter.Logger.constructor | internal/vlog/vlog.go:45-60 | a boot is a step of the state machine; failure to open means stderr only |
| LogWriter.Logger.Logf | internal/vlog/vlog.go:73-86 | a line is one Write, its error ignored |
| LogWriter.Logger.Close | internal/vlog/vlog.go:64-68 | close is a step of the state machine |
| LogState.Step | internal/vlog/rotate.go:23-97 | every event keeps the invariant that while the handle is open the in-memory size is the active file's length |
| LogHistory.EveryRunStaysRecent | internal/vlog/rotate.go:32-122 | over every run the slots hold exactly the last chunks ever appended, whole and in order, and a segment over the limit is a single chunk |
| LogHistory.EveryRunFromEmptyDirectory | internal/vlog/rotate.go:32-122 | the same from an empty directory, with nothing but that run's writes |
| LogHistory.RecentTextIsSuffix | internal/vlog/rotate.go:32-122 | the segments read oldest to newest are a suffix of everything appended |
| LogHistory.EveryRunKeepsATail | internal/vlog/rotate.go:32-122 | from any directory and after any run, the log reads as a tail of old contents plus appended bytes |
| LogRotation.ClosedHandleLatches | internal/vlog/rotate.go:59-97 | through a closed handle no segment ever changes and every Write reports an error |
| LogRotation.FailedRotationLatches | internal/vlog/rotate.go:59-97 | exactly when rotation fails, and that it disables the writer for good |
| LogRotation.WriteAppendsTheLine | internal/vlog/rotate.go:59-70 | through an open handle, as many bytes of the line as the file takes are there afterwards: behind the active file's, or at the start of a fresh one with all other segments moved up |
| LogRotation.FailedRotationKeepsSegments | internal/vlog/rotate.go:79-97 | a failed rotation leaves the segments there were, in order, at most the last slot's missing |
| LogRotation.BootOpensTheLog | internal/vlog/rotate.go:32-55 | what an undisturbed boot leaves: a full active file moved up and replaced, any other gone on with, a missing one created |
| LogRotation.BootMovesOnlyFullFiles | internal/vlog/rotate.go:32-55 | whatever fails, a boot that does not see a full active file moves nothing |
| LogRotation.QuietRunLogs | internal/vlog/vlog.go:73-86 | without failures exactly the lines handed over while a handle was open are appended |
| LogRotation.RetainedHistory | internal/vlog/rotate.go:37-122 | without failures the segments are the end of all lines logged: all of them or at least backups * (max - longest + 1) bytes are kept, and never more than (backups + 1) * max |
| LogRotation.RetainedVlogHistory | internal/vlog/rotate.go:9-16 | the same with the limits of the code |
| LogRotation.BootLeavesRoom | internal/vlog/rotate.go:37-54 | the threshold at boot: the writer starts below the limit unless the active file could not be looked at, and exactly which failures leave no writer |
| CleanupStack.Stack.Push | cmd/void-initfs/cleanup.go:16-20 | appends |
| CleanupStack.Stack.Unwind | cmd/void-initfs/cleanup.go:28-36 | runs every callback once in reverse order and leaves an empty stack |
| CleanupProtocol.EveryRunKeepsInvariant | cmd/void-initfs/cleanup.go:16-36 | the protocol's invariant holds after every interleaving |
| CleanupProtocol.NoCallbackTwiceAndLastFirst | cmd/void-initfs/cleanup.go:28-36 | no callback runs twice over both unwinds, and each unwind goes down from the last push |
| CleanupProtocol.FinishedUnwindingRanTheStack | cmd/void-initfs/cleanup.go:28-36 | a finished unwind ran exactly the stack it found, reversed |
| CleanupProtocol.ExitOnlyAfterCleanup | cmd/void-initfs/main.go:35-62 | when a thread ends the process everything pushed before the first unwind, and before its own, has completed; for the pipeline thread, everything |
| CleanupProtocol.CompletedExactly | cmd/void-initfs/cleanup.go:28-36 | at any moment, exactly which callbacks have run |
| CleanupProtocol.AllCompletedExactly | cmd/void-initfs/main.go:35-62 | at any moment and for every ending, everything pushed has run if and only if nothing was pushed or the last unwind is over and nothing was pushed after it |
| CleanupProtocol.LostExactly | cmd/void-initfs/main.go:46-52 | exactly which callbacks an exit loses; each was pushed after the handler's unwind took the mutex, and the handler ended the process |
| CleanupProtocol.KillLosesTheStack | cmd/void-initfs/main.go:42-44 | a kill after signal.Stop loses nothing if and only if the stack is empty or the unwind in progress is through with it |
| CleanupProtocol.LatePushCanBeLost | cmd/void-initfs/main.go:46-52 | a run in which a late push is lost |
| CleanupProtocol.LatePushCanBeCaught | cmd/void-initfs/main.go:35-62 | a run in which a late push is not lost, the pipeline's own unwind running it |
| CleanupProtocol.LateSignalCanInterruptCleanup | cmd/void-initfs/main.go:42-44 | a run in which a signal after signal.Stop interrupts the deferred unwind |
| CleanupProtocol.NoDeadlock | cmd/void-initfs/cleanup.go:22-36 | until the process ends some thread can move without a new signal |
| SignalSafety.RanFromLastToFirst | cmd/void-initfs/cleanup.go:22-36 | when everything acquired was pushed before the first unwind took the mutex, the callbacks of both unwinds together ran from last to first |
| SignalSafety.ExitRestoresHost | cmd/void-initfs/main.go:35-62 | under that condition, whoever ends the process and whatever the interleaving, the host is left as it was found |
| SignalSafety.CallbacksAreSafe | cmd/void-initfs/cleanup.go:28-36 | for acquisitions nested to any depth and every interleaving, a callback runs at a safe moment unless one has run, or is about to run, with a mount in flight |
| SignalSafety.RestoredUnlessRaced | cmd/void-initfs/main.go:35-62 | in the absence of that, for any acquisitions and at any moment, the host is as found if and only if everything acquired was pushed and every callback has run; nothing is ruined |
| SignalSafety.RestoredExactly | cmd/void-initfs/main.go:39-52 | for what the pipeline acquires, the exact condition for the host being as found, at any moment; and at the end something is ruined if and only if a callback ran with a mount in flight |
| SignalSafety.SignalInFlight | cmd/void-initfs/main.go:46-52 | between any acquisition and its push a signal can make the handler unwind everything below and exit |
| SignalSafety.SignalCanRuinRoot | cmd/void-initfs/image.go:289-303 | for every host and either layout, a run in which the handler ruins the root partition and leaves the temp directory behind |
| SignalSafety.WithoutSignal | cmd/void-initfs/main.go:35-37 | without a signal nothing races, and at the end the host is as found if and only if nothing acquired was left unpushed |
| HostState.ReleaseUndoes | cmd/void-initfs/image.go:86-103 | a release right after its acquisition is safe and restores the host exactly |
| HostState.NestedUnwindRestores | cmd/void-initfs/cleanup.go:28-36 | for acquisitions nested to any depth every release runs at a safe moment and the host is restored |
| HostState.WrongOrderRuins | cmd/void-initfs/cleanup.go:5-9 | the same releases in push order ruin a mounted device |
| ImagePipeline.AttachImage | cmd/void-initfs/image.go:65-84 | its four outcomes, the attached failure among them |
| ImagePipeline.MountAt | cmd/void-initfs/image.go:289-303 | a successful mount of that device at that directory is pushed at once, a failed one changes nothing |
| ImagePipeline.MountImage | cmd/void-initfs/image.go:251-285 | temp directory, root, /boot, /boot/efi with their devices in this order; whatever fails, host and stack are those of the acquisitions made so far |
| ImagePipeline.RunBuild | cmd/void-initfs/main.go:107-167 | whatever fails, host and stack are those of a part of the plan, unless attaching timed out |
| ImagePipeline.RunReuse | cmd/void-initfs/main.go:67-103 | the same for a reused image, and success means the requested layout is the detected one |
| ImagePipeline.Run | cmd/void-initfs/main.go:35-62 | the host is restored if and only if attaching did not time out after connecting; releases are safe and in reverse order of acquisition; no command is run after a failing one, success means none failed, and failure has such a cause, a device in use or an image of the wrong layout |
| ImagePipeline.PartitionsByName | cmd/void-initfs/image.go:142-182 | the partitions mounted at the root, /boot and /boot/efi are those of these names in the table, and an image is recognised by the table's length |
| ImagePipeline.CompleteRunMounts | cmd/void-initfs/image.go:251-285 | which partition a complete run has mounted where, in which order |
| ImagePipeline.ReleaseOrder | cmd/void-initfs/image.go:247-285 | children before parents, then the temp directory, then the device |
| ManagedFile.File.WriteManagedFile | cmd/void-init/fsutil.go:18-49 | the content left behind, for every failure of reading, writing and chmod |
| ManagedFile.File.WriteManagedFileInImage | cmd/void-initfs/util.go:21-37 | the second implementation, with the same contract |
| ManagedFile.File.WriteFile | cmd/void-initfs/util.go:47-56 | trims, ends in one newline, chmods |
| ManagedFile.SingleTrailingNewline | cmd/void-init/fsutil.go:51-56 | exactly one newline at the end, no blank before it |
| ManagedFile.LastWriterWins | cmd/void-init/fsutil.go:18-56 | writing a marker-bearing rendering first makes no difference to what is written next |
| ManagedFile.RerunsCollapse | cmd/void-init/fsutil.go:18-56 | any number of runs leaves what the last alone would |
| ManagedFile.UserTextIsKept | cmd/void-init/fsutil.go:9-33 | the text below the file's marker is below the rendering's marker afterwards, right-trimmed, plus one newline |
| ManagedFile.NothingToKeep | cmd/void-init/fsutil.go:18-33 | over a missing file, or one without a marker, only the rendering is written |
| ManagedFile.MarkerlessIsPutInFront | cmd/void-init/fsutil.go:18-33 | a rendering without a marker is put in front of the kept text |
| ManagedFile.MarkerlessAlone | cmd/void-init/fsutil.go:18-33 | with no marker anywhere the rendering is all that is written |
| ManagedFile.UserTextSurvivesRuns | cmd/void-init/fsutil.go:9-33 | the same over any number of runs |
| ManagedFile.UserSectionSurvives | cmd/void-init/fsutil.go:9-12 | after any runs the user's section is the original, right-trimmed, plus one newline |
| ManagedFile.UserSectionKeptExactly | cmd/void-init/fsutil.go:14-33 | the user's section survives a write, up to blanks at its end, if and only if the rendering has the marker or the section is blank |
| ManagedFile.LastWriterWinsExactly | cmd/void-init/fsutil.go:14-33 | the last writer wins over an earlier rendering, whatever is written, under exactly the same condition |
| KeyPattern.ScannerIsPattern | cmd/void-initfs/bootloader.go:72-76 | the hand-written scanner finds a key exactly when the pattern matches with that key |
| GrubDefaults.SetGrubFastboot | cmd/void-initfs/bootloader.go:83-120 | the file after the call, for every failure |
| GrubDefaults.ReplaceLines | cmd/void-initfs/bootloader.go:96-110 | the in-place loop rewrites each matching line where it stands and records the keys found |
| GrubDefaults.AppendMissing | cmd/void-initfs/bootloader.go:112-116 | an assignment is appended for exactly the keys not found |
| GrubMeaning.RewriteOverridesExactly | cmd/void-initfs/bootloader.go:78-120 | for every file the environment read from the result is the input's overridden by exactly the settings |
| GrubMeaning.FastbootMeaning | cmd/void-initfs/bootloader.go:66-70 | the same with the three fastboot settings spelled out |
| GrubMeaning.RewriteIsIdempotent | cmd/void-initfs/bootloader.go:83-120 | a second run changes no byte |
| GrubMeaning.LinesStayInPlace | cmd/void-initfs/bootloader.go:99-110 | every line stays at its place, unmatched ones unchanged up to trimming at the end of the file |
| BashPrompt.PromptIsPattern | cmd/void-initfs/bashprompt.go:21-23 | the hand-written scanner accepts exactly the lines the pattern describes |
| BashPrompt.SetBashPrompt | cmd/void-initfs/bashprompt.go:53-68 | the file after the call, for every failure |
| BashPrompt.SettingThePromptIsIdempotent | cmd/void-initfs/bashprompt.go:50-68 | a second run changes no byte, missing file and template case included |
| BashPrompt.TemplateWhereNoPrompt | cmd/void-initfs/bashprompt.go:53-61 | a missing file, or one in which no line sets the prompt, is replaced by the template |
| BashPrompt.OnlyThePromptRemains | cmd/void-initfs/bashprompt.go:50-52 | afterwards the prompt is set and never to anything else |
| BashPrompt.OtherLinesStay | cmd/void-initfs/bashprompt.go:62-67 | other lines stay at their place, unchanged up to trimming at the end of the file |
| ResolvConf.ApplyResolvConf | cmd/void-init/network.go:221-239 | the file after the call, untouched without nameservers |
| ResolvConf.RenderBody | cmd/void-init/network.go:229-235 | the rendering loop |
| ResolvConf.RenderedLines | cmd/void-init/network.go:229-235 | line by line, what is rendered: the search list, then the nameservers |
| ResolvConf.RoundTrip | cmd/void-init/network.go:221-239 | reading the managed part back gives the same lists if and only if the rendered text contains no marker |
| ResolvConf.MarkerCanBeSpelled | cmd/void-init/network.go:230-232 | the condition is needed: a search list of proper words that spells the marker out |
| UserDataRecords.AcceptedExactly | cmd/void-init/userdata.go:52-88 | exactly which user data are accepted, character by character |
| UserDataRecords.ComplaintsAreTrue | cmd/void-init/userdata.go:59-81 | the complaint names a value that is not as it should be, the first such key |
| UserDataRecords.AcceptedValuesAreSingleLines | cmd/void-init/userdata.go:59-81 | accepted values hold no newline, an accepted user no colon and no leading dash |
| UserDataRecords.RecordRoundTrip | cmd/void-init/apply.go:69-79 | the chpasswd record is one line that splits back, if and only if there is no newline and no colon in the user |
| UserDataRecords.AcceptedRecordRoundTrip | cmd/void-init/userdata.go:66-73 | validation guarantees that |
| UserDataRecords.WriteAuthorizedKeys | cmd/void-init/apply.go:109-115 | the file after the call |
| UserDataRecords.KeysRoundTrip | cmd/void-init/apply.go:111-113 | the lines before the marker are the keys and one blank line if and only if no key contains the marker |
| UserDataRecords.AcceptedKeysRoundTrip | cmd/void-init/userdata.go:74-78 | the same for validated user data |
| Netmask.MaskLength | cmd/void-init/network.go:254-258 | the byte loop behind Size for masks of any length: the prefix length, or none |
| Netmask.OnesThenZerosIsPrefix | cmd/void-init/network.go:241-261 | bits are ones then zeros exactly when the mask is the one rebuilt from the count |
| Netmask.PrefixLengthUnique | cmd/void-init/network.go:241-261 | the count is determined by the mask |
| Netmask.NetmaskToCIDR | cmd/void-init/network.go:243-261 | accepted exactly when ones are followed by zeros, returns their number, from which the mask is rebuilt |
| AddressPrefix.AtoiReadsDecimals | cmd/void-init/network.go:200 | a number in decimal, signed or not, is read as that number if it fits into 64 bits and refused otherwise |
| AddressPrefix.AtoiRefusesOthers | cmd/void-init/network.go:200-203 | anything but a sign and digits is refused |
| AddressPrefix.EmbeddedPrefixWins | cmd/void-init/network.go:199-205 | a prefix in the address is the one used, whatever the netmask says |
| AddressPrefix.EmbeddedNonsenseIsRefused | cmd/void-init/network.go:199-203 | anything else behind the slash makes the subnet unusable |
| AddressPrefix.NetmaskDecides | cmd/void-init/network.go:207-217 | without a slash, the address is usable exactly with an IPv4 netmask of ones then zeros, and their number is the prefix |
| NetworkConfig.CutSlashCuts | cmd/void-init/network.go:199 | cutting at the first slash loses nothing but that slash |
| NetworkApply.SubnetAddressCIDR | cmd/void-init/network.go:198-217 | an embedded prefix wins, otherwise the netmask decides, with the error cases |
| NetworkApply.System.EnableDhcpcd | cmd/void-init/runit.go:18-32 | success means the link is there |
| NetworkApply.System.DisableDhcpcd | cmd/void-init/runit.go:36-48 | success means the link is gone, a missing one is fine |
| NetworkApply.System.ApplyDynamicNetwork | cmd/void-init/network.go:141-154 | one command, the configuration file, the link |
| NetworkApply.System.ApplyStaticNetwork | cmd/void-init/network.go:161-192 | the commands in order up to the first failure, then the link removed |
| NetworkApply.System.ApplySubnets | cmd/void-init/network.go:84-99 | the inner loop is the fold over the entry's subnets |
| NetworkApply.System.ApplyDevices | cmd/void-init/network.go:72-107 | the outer loop is the fold over the flattened configuration |
| NetworkApply.System.ApplyNetworkConfig | cmd/void-init/network.go:71-110 | commands, link, resolv.conf and dhcpcd.conf of the whole call; failures only for a cause, with a prefix of the commands run, each file as it was, rewritten or broken off, and resolv.conf untouched by an unacceptable configuration |
| NetworkApply.WrittenOnceIsEnough | cmd/void-init/network.go:149-151 | however many dynamic subnets write it, dhcpcd.conf ends up as after one write |
| NetworkConfig.AppliedCommands | cmd/void-init/network.go:71-110 | the commands of the fold are the in-order concatenation over the entries |
| NetworkMeaning.CommandsSayWhatIsWanted | cmd/void-init/network.go:161-192 | read back, the commands are exactly what the subnets ask for: interface, address, prefix, broadcast and gateway, one setup per subnet; an address follows its interface's link, a route an address |
| NetworkMeaning.ListsAreThoseConfigured | cmd/void-init/network.go:94-103 | the resolver lists are those of the static subnets of physical entries and of nameserver entries, in order |
| NetworkMeaning.SpellingsDecide | cmd/void-init/network.go:85-99 | which spellings of the subnet type are dynamic, static or refused |
| NetworkConfig.AppliedResolvers | cmd/void-init/network.go:94-103 | nameservers and search are in-order concatenations of static subnets and nameserver entries |
| HostsAddress.LinkFollowsLastSubnet | cmd/void-init/network.go:84-99 | the dhcpcd link is present iff the last subnet of a physical entry is dynamic, unchanged if there is none |
| HostsAddress.StaticAddress | cmd/void-init/hosts.go:55-68 | the nested search is the first static subnet of any entry |
| HostsAddress.AddressOfFirstStatic | cmd/void-init/hosts.go:55-68 | the address is that of the first static subnet, entry by entry, cut at its slash |
| HostsAddress.AliasWithoutStatic | cmd/void-init/hosts.go:53-68 | without a configuration, or a static subnet in it, it is 127.0.1.1 |
| HostsAddress.FirstAddedInConfig | cmd/void-init/network.go:161-192 | the first address added is that of the first static subnet of a physical entry |
| HostsAddress.AddressIsFirstAdded | cmd/void-init/hosts.go:53-68 | the address for /etc/hosts is the first one added, or 127.0.1.1, if and only if the first carrier of a static subnet is physical or its address coincides |
| HostsAddress.OnlyPhysicalCarriers | cmd/void-init/hosts.go:53-68 | they agree when only physical entries carry static subnets |
| HostsAddress.NameserverSubnetMisleads | cmd/void-init/hosts.go:57-64 | a configuration for which the two addresses differ |
| HostsAddress.NameserverSubnetCanAgree | cmd/void-init/hosts.go:57-64 | one that agrees although its first carrier is no physical entry |
| Flags.AcceptedExactly | cmd/void-initfs/flags.go:72-132 | what is accepted is exactly a reuse of an existing image or a build with one layout, a known libc and a usable target, with no value that looks like a flag |
| Flags.ComplaintsAreTrue | cmd/void-initfs/flags.go:72-132 | a complaint is never wrong about what it complains of |
| FlagMeaning.TextFlag | cmd/void-initfs/flags.go:31-39 | which field each flag with a value stores, by name, in both spellings, with nothing else changed |
| FlagMeaning.OutputAlone | cmd/void-initfs/flags.go:34-35 | `-o path` alone asks for a new image at that path |
| FlagMeaning.SwitchFlag | cmd/void-initfs/flags.go:29-44 | the same for the switches |
| FlagMeaning.NoOtherFlags | cmd/void-initfs/flags.go:29-44 | no other name is a flag |
| FlagMeaning.ReadToTheEnd | cmd/void-initfs/flags.go:46-50 | any arguments that are read to the end are self-contained groups |
| FlagMeaning.CommandLineAcceptedExactly | cmd/void-initfs/flags.go:25-132 | from arguments to configuration: accepted exactly when made of groups that store a usable configuration |
| FlagOrder.RegisteredNamesAreRegistrable | cmd/void-initfs/flags.go:29-44 | every registered name can be written as a flag |
| FlagOrder.ParseGroup | cmd/void-initfs/flags.go:26-46 | a self-contained group stores its value and parsing goes on behind it |
| FlagOrder.FlagOrderDoesNotMatter | cmd/void-initfs/flags.go:25-132 | every permutation of consistent self-contained groups gives the same configuration and the same verdict |
| FlagOrder.LaterGroupWins | cmd/void-initfs/flags.go:32-44 | in any list of groups the last one that writes a field decides it |
| FlagOrder.OrderDoesNotMatterExactly | cmd/void-initfs/flags.go:25-46 | every permutation is parsed to the same configuration if and only if no field is given two different values |

## Left out

- External commands, downloads, tar extraction, checksums: I/O plumbing; a command is a step that succeeds or fails.
- YAML decoding, the template engine, MAC and IP parsing, the regexp engine: libraries. The model starts from decoded structs, subnet and entry types being enumerations with a constructor for any other spelling, and the two line patterns are scanners over lines.
- Datasource scanning: mount plumbing with a first match.
- File modes, ownership, timestamps, error and log message text, the stderr sink.
- Other processes touching the log files or the mounts, panics in callbacks, failing release commands: assumed not to happen. A failed unmount is only logged by the code and unwinding continues.
- Directories made inside the mounted image: they are contents of the image, not state of the host; making them is a step that may fail.
- Shell quoting and continuation lines in /etc/default/grub: the file is read one line at a time.
- Range of an embedded address prefix: the code does not check it, and nothing is claimed about it.
- The help flag: the flag package exits by itself; the model counts it as unparsable.
- CleanupProtocol.ExitOnlyAfterCleanup: is about threads ending the process; what a kill after signal.Stop loses is stated by KillLosesTheStack.
- ImagePipeline.Run: is about runs without signals; what a signal changes is the subject of CleanupProtocol and SignalSafety.
- The address lookups of user accounts and the password command itself: only the record and the file content they are given.
