# GSI / DSU installation lifecycle in Dafny

This project models the installation lifecycle of Android's Dynamic System
Updates (DSU) service, gsid.  A Generic System Image (GSI) is streamed into
a pair of backing images (`system_gsi`, `userdata_gsi`) and made bootable
through a handful of marker files.  Later the install is re-enabled,
disabled, wiped or removed.  The model covers four parts of that code:

- **Installer session (`Installer.GsiInstaller`).** This covers:
  - the sanity checks;
  - preallocation of the two images and the userdata wipe flags;
  - the three chunk-commit paths, under the byte budget
    `gsiBytesWritten <= gsiSize`;
  - finalisation, with markers written in a fixed order and the
    install-status file last;
  - re-enable, userdata wipe and the cleanup when the installer is
    destroyed without success.
- **Service (`Service.GsiService`, with `Cleanup` and `Markers`).** This
  covers:
  - caller checks;
  - install-directory validation;
  - open, close and create-partition;
  - enable, re-enable and disable;
  - removal of an installation;
  - the startup tasks that clean a corrupted install and record a
    successful boot;
  - the progress record (`Progress.Channel`).
- **Boot markers (`LibGsi`).** This covers the running and installed
  queries, the first-stage boot decision, uninstalling, and marking the
  system as a GSI.
- **Command-line client (`Tool`, `ProgressView`).** This covers:
  - getopt over install's options and the exit codes;
  - the status, enable, disable and wipe decisions over the service's
    replies;
  - main's dispatch and root rule;
  - the progress bar's layout.

The persistent state lives in `Storage.Disk`:
- `files`, the marker files, mapping path to content;
- `images`, the backing images, each with its partition entry, mapped
  flag, read-only flag and bytes;
- `journal`, the list of file events in order, which is how an order is
  stated ("the install-status file last", "the boot mode before the boot
  indicator").

Every storage primitive takes a fixed set `faults`. An operation fails
exactly when its fault is in that set, so every error path of the source is
a reachable case of the model. Several things become inputs:
- the caller's uid;
- the file-system statistics;
- the input stream's contents and the reply each read gets (an error, the end of the stream or a count);
- realpath and the fstab entry;
- the abort flag;
- the results of the partition installer;
- for the command-line client, the service's replies (`Tool.Replies`).

What the tool asks of the service is recorded in `Tool.Run.calls`.

## Model

| member | source | states |
|---|---|---|
| Paths.Split | gsi_service.cpp:787 | Splitting on a separator yields at least one piece. |
| Paths.SplitJoin | gsi_service.cpp:787 | Joining the pieces with the separator gives the string back. No piece contains the separator. |
| Paths.SplitNoSep | gsi_service.cpp:787 | A string without the separator is one piece. |
| Paths.SplitLast | gsi_service.cpp:787 | The last piece of `p + sep + name` is `name`. |
| Paths.GetCompleteIndication | gsi_service.cpp:785-789 | Every completion marker is a file named `complete` in one directory directly under /metadata/gsi/: the part between `/metadata/gsi/` and `/complete` holds no '/'. |
| Paths.CompleteIndicationOfDir | gsi_service.cpp:785-789 | For `p/name/`, the completion marker is `/metadata/gsi/name/complete`. |
| Paths.CompleteIndicationDistinct | gsi_service.cpp:785-789 | Directories whose last components differ never share a completion marker. |
| Storage.Disk.Read | gsi_service.cpp:707-709 | ReadFileToString yields the content exactly when the file exists. |
| Storage.Disk.WriteFile | gsi_service.cpp:410-414 | Fails exactly under its fault. Otherwise sets the content and journals the write. |
| Storage.Disk.RemoveFileIfExists | libgsi.cpp:61-64 | A missing file counts as removed. A removal fails only under its fault. Only a real removal is journaled. |
| Storage.Disk.CreateBackingImage | gsi_installer.cpp:213 | Creates a zero-filled, unmapped image with its partition entry, unless it exists or its fault is set. |
| Storage.Disk.DeleteBackingImage | gsi_service.cpp:750 | Removes the image, or fails under its fault. A missing image counts as deleted. |
| Storage.Disk.UnmapImageDevice | gsi_service.cpp:748 | Clears the mapped flag, or fails under its fault. |
| Storage.Disk.OpenDevice | gsi_installer.cpp:216-218 | Maps an existing image and opens its node at offset 0, or fails under its fault. |
| Storage.Disk.WriteImage | gsi_installer.cpp:280 | Writes a chunk at an offset inside the image, or fails. |
| Storage.MappedDevice.Write | gsi_installer.cpp:280-283 | WriteFully at the node's offset. On success the offset advances by the chunk length. On failure nothing changes. |
| Storage.MappedDevice.Close | libfiemap/include/libfiemap/image_manager.h:95-112 | Releasing the device handle (~MappedDevice, at every return of its scope) unmaps the image unless the unmap faults. Nothing else changes. |
| Storage.MappedDevice.Fsync | gsi_installer.cpp:362-365 | fsync fails exactly under its fault. |
| Stream.ReadSize | gsi_installer.cpp:236 | read returns -1 exactly when the reply scheduled for it is negative. Otherwise it delivers between 0 and min(max, pending) bytes, and all of that when no reply is scheduled. |
| Stream.InputStream.Read | gsi_installer.cpp:236-243 | One read consumes one scheduled reply. It returns ReadSize's count. On -1 nothing is delivered. Otherwise the buffer holds exactly the next rv bytes of the stream, which are removed from it. The request size is recorded. |
| Progress.Channel.StartAsyncOperation | gsi_service.cpp:207-214 | A new step starts as WORKING with 0 bytes processed and the given total. |
| Progress.Channel.UpdateProgress | gsi_service.cpp:216-225 | COMPLETE pins `bytesProcessed` to the total. Any other status stores the given count. The step and total are kept. |
| Progress.Channel.SetAbort | gsi_service.cpp:339-342 | The abort flag becomes the given value. |
| LibGsi.BootRefusal | libgsi.cpp:36-43 | The error is "not detected" exactly when no install exists. |
| LibGsi.IsGsiRunning | libgsi.cpp:28-30 | A GSI is running exactly when the booted indicator exists, whatever it holds. |
| LibGsi.IsGsiInstalled | libgsi.cpp:32-34 | A GSI is installed exactly when the install marker exists, whatever it holds. |
| LibGsi.CanBootIntoGsi | libgsi.cpp:45-58 | Succeeds exactly when an install existed. On both outcomes the files are the old ones without the booted indicator, or unchanged when that removal faults; the install marker's removal on failure finds nothing to remove. On success the metadata file is the LP metadata path and the install is kept. On failure the error is "not detected" and the metadata argument is left alone. |
| LibGsi.UninstallGsi | libgsi.cpp:60-65 | Removes the install marker. An absent one counts as removed. Afterwards no GSI is installed. |
| LibGsi.MarkSystemAsGsi | libgsi.cpp:67-69 | Writes "1" into the booted indicator. After success a GSI is running. |
| LibGsi.GetInstallStatus | gsi_service.cpp:814-817 | Yields the boot indicator's content exactly when an install exists. |
| LibGsi.DisableGsi | gsi_service.cpp:778-781 | Writes "disabled" into the boot indicator, or changes nothing under its fault. |
| LibGsi.BootAttempts | gsi_service.cpp:825-829 | A boot key is a boot-attempt count exactly when it is a non-empty string of decimal digits. |
| LibGsi.StatusWordsAreNotCounts | gsi_service.cpp:825-834 | "ok", "disabled" and "wipe" are not boot-attempt counts. A freshly created indicator ("0") is one. |
| Markers.SetBootMode | gsi_installer.cpp:315-329 | One-shot writes "1" to the one-shot marker. Persistent mode removes the marker if present. It succeeds exactly when no fault hits the step it needs. The journal records exactly that step. The same function appears at gsi_service.cpp:417-431. |
| Markers.CreateInstallStatusFile | gsi_installer.cpp:331-337 | Writes "0" into the install-status file, or fails under its fault. The write is journaled. |
| Markers.WriteActivation | gsi_installer.cpp:374-384 | Journals a prefix of: install directory, boot mode, install-status file. The prefix is complete exactly on success. On failure the install-status file is unchanged. |
| Markers.CrashBeforeIndicatorKeepsState | gsi_installer.cpp:380-382 | A crash at any point before the last activation event leaves the install-status file as it was. The boot indicator is written last. |
| Markers.ActivationInstalls | gsi_installer.cpp:374-387 | The completed activation leaves the install-status file holding "0". |
| Markers.EnableBootMode | gsi_service.cpp:263-269 | The boot mode is set, then the install-status file is written. The journal is a prefix of those events, complete exactly on success. On failure the status file is unchanged. |
| Cleanup.GetInstalledImageDir | gsi_service.cpp:703-711 | The recorded install directory, or the default folder when none is recorded. |
| Cleanup.IsInstallationComplete | gsi_service.cpp:791-798 | True exactly when the completion marker exists and holds "OK". |
| Cleanup.Targets | gsi_service.cpp:742-746 | The images whose name ends in "_gsi". userdata_gsi is spared unless userdata is to be wiped. |
| Cleanup.AfterImageRemoval | gsi_service.cpp:743-751 | Images not targeted are untouched. A targeted image survives exactly when its delete faults. |
| Cleanup.AfterFileRemoval | gsi_service.cpp:759-765 | Unlisted files are untouched. A listed file survives exactly when it existed and its removal faults. |
| Cleanup.RemovalStep | gsi_service.cpp:743-751 | One more image handled continues the removal of the ones before it. Success is the conjunction of every unmap and delete. |
| Cleanup.RemoveImages | gsi_service.cpp:741-752 | The image loop: each target is unmapped if mapped, then deleted. The result is the conjunction of `ok &=`. |
| Cleanup.RemoveMarkers | gsi_service.cpp:753-765 | Every marker is attempted whatever failed before. The result is false exactly when some existing marker could not be removed. |
| Cleanup.RemoveGsiFiles | gsi_service.cpp:739-767 | Images are removed only when ImageManager::Open succeeds. All four markers are then attempted. The result is the conjunction of every step. |
| Cleanup.RemovalIdempotent | gsi_service.cpp:739-767 | Running the removal a second time under the same faults leaves the images and the files as the first run left them. The second run succeeds exactly when the first left no target image and no marker file behind, and a successful first run leaves none. |
| Installer.WipeBlocksCover | gsi_installer.cpp:429-438 | The zero blocks cover `min(1 MiB, size)` bytes. They overshoot by less than one block. |
| Installer.WipeFits | gsi_installer.cpp:432-438 | The blocks fit in the device exactly when it is at least 1 MiB or a multiple of 4096 bytes. |
| Installer.AshmemCommitAsWritten | gsi_installer.cpp:303-313 | The ashmem commit as written: NotMapped exactly without a mapping; refused exactly when the chunk exceeds the remaining budget or an abort is pending; otherwise the chunk is read from the mapping whatever its size. |
| Installer.AshmemGuardAdmitsOverread | gsi_installer.cpp:303-313 | For every mapping smaller than what the image still lacks, the whole remaining budget is read past the mapping. For every chunk size, the as-written commit reads past the mapping exactly when the chunk is larger than the mapping and within the budget. |
| Installer.AshmemCorrectionRefusesOnlyOverread | gsi_installer.cpp:303-313 | The as-written commit stays within the mapping exactly when the corrected guard (mapping, size within the mapping and the budget, no abort) admits the chunk: the correction refuses the over-reads and nothing else. |
| Installer.DeliversWithinStream | gsi_installer.cpp:233-247 | A chunk the reads deliver is never larger than what was left in the stream. |
| Installer.ClimbsRise | gsi_installer.cpp:250-255 | Climbing reports all lie above the lower bound and at most the upper bound, and each is strictly above every earlier one. |
| Installer.StreamReportsClimb | gsi_installer.cpp:250-255 | For every read schedule, the reports of a chunk climb strictly from what was written before it up to at most the image size. |
| Installer.StreamReportsComplete | gsi_installer.cpp:233-255 | A delivered chunk makes one report per read, and its last report is the whole image. |
| Installer.FullReadsDeliver | gsi_installer.cpp:233-247 | Without short reads or read errors, a chunk is delivered exactly when the stream holds it, in ceil(bytes / 4096) reads. |
| Installer.StreamStateStep | gsi_installer.cpp:235-248 | Writing the rv bytes just read at the current offset extends the stream invariant: the chunk so far sits in the image in stream order. |
| Installer.PassRulesOut | gsi_installer.cpp:237-246 | When the rest of the chunk can still be delivered within the budget, the next read delivers between 1 byte and the budget. |
| Installer.AccountedStep | gsi_installer.cpp:235-255 | A read delivering rv bytes, its request and its WORKING report keep the whole chunk's outcome, requests and reports accounted from the state after it. |
| Installer.GsiInstaller.constructor | gsi_installer.cpp:48-60 | userdata is 2 GiB when requested as 0, else the request as uint64_t. wipe-on-failure holds exactly when a wipe was asked for or no userdata_gsi existed. Nothing is written yet. |
| Installer.GsiInstaller.Existing | gsi_installer.cpp:62-68 | The re-enable installer is marked succeeded. Its destructor never cleans up. |
| Installer.GsiInstaller.SanityChecks | gsi_installer.cpp:123-160 | Generic error without an image manager, for a negative size, inside a live GSI, or without file-system statistics. Otherwise NO_SPACE when `free <= gsi + userdata`. Otherwise CLUTTERED when free space is below 40 % of the file system. Otherwise OK. |
| Installer.GsiInstaller.CreateImage | gsi_installer.cpp:203-214 | Creates the image at the given size and access mode; fails, changing nothing, when an abort is pending, the image exists or its creation faults. |
| Installer.GsiInstaller.PreallocateUserdata | gsi_installer.cpp:180-192 | userdata_gsi is recreated when a wipe was asked for or it is missing. Recreation succeeds exactly when no abort is pending, the image is absent and its creation does not fault. Then `wipeUserdata` is set; on failure nothing changes. Without recreation nothing changes. |
| Installer.GsiInstaller.PreallocateSystem | gsi_installer.cpp:194-201 | system_gsi is created read-only at the gsi size, reported as the "create system" step. |
| Installer.GsiInstaller.PreallocateFiles | gsi_installer.cpp:162-178 | system_gsi is always deleted, and userdata_gsi is deleted when a wipe was asked for, before either is created; deletion failures are ignored. It succeeds exactly when userdata_gsi is kept or created and system_gsi is then created. Either outcome gives each image's new state: created afresh, or kept as before exactly when it was not deleted or its deletion faulted. `wipeUserdata` is set exactly when userdata_gsi was created. Other images are untouched. On success the step ends as COMPLETE. |
| Installer.GsiInstaller.FormatUserdata | gsi_installer.cpp:339-352 | The first 4096 bytes of userdata_gsi are zeroed exactly when it exists, maps, is large enough and the write succeeds. Once mapped, the device is released, so userdata_gsi ends unmapped unless that unmap faults. The other images are unchanged. |
| Installer.GsiInstaller.StartInstall | gsi_installer.cpp:101-121 | A failed sanity check is returned and nothing changes. After a passed check, a failed preallocation leaves the images as PreallocateFiles leaves them. After a successful preallocation, it succeeds exactly when userdata_gsi can be mapped and written (and holds a block) and system_gsi can be mapped. Both images' records are stated for every outcome: system_gsi zero-filled and mapped only on success, userdata_gsi with its first block zeroed exactly when formatted, and unmapped by its handle. Other images are untouched. On success progress is cleared. |
| Installer.GsiInstaller.IsFinishedWriting | gsi_installer.cpp:262-264 | With the device open, writing is finished exactly when the device offset has reached the end of system_gsi. |
| Installer.GsiInstaller.CommitGsiChunk | gsi_installer.cpp:270-286 | Fails, changing nothing, when the chunk exceeds the remaining budget, on abort, or when the write fails. Otherwise the bytes are written at `gsiBytesWritten`, which grows by exactly their length. `Valid()` keeps `gsiBytesWritten <= gsiSize`. |
| Installer.GsiInstaller.CommitNextBlock | gsi_installer.cpp:234-248 | One read of at most 4096 bytes followed by its commit. It succeeds exactly when the read delivers at least one byte within the budget, no abort is pending and the write succeeds. Then the stream invariant advances by the bytes read; on failure the image and the written count are unchanged. |
| Installer.GsiInstaller.CommitGsiChunkFromStream | gsi_installer.cpp:220-260 | For every read schedule: the "write gsi" step starts; a negative size fails before any read; every request is 1..4096 bytes. It succeeds exactly when the reads deliver `bytes`, the chunk fits the budget, and (for a non-empty chunk) no abort is pending and the device writes. Whatever the outcome, the blocks committed (`committed`, all of `bytes` on success and fewer on failure) are the next bytes of the stream, in the image at the old offset and counted as written. On success the requests are those of the schedule, and the history is the start, one WORKING report per read, and COMPLETE. |
| Installer.GsiInstaller.StreamBlocks | gsi_installer.cpp:231-256 | The block loop: succeeds exactly when the reads deliver the chunk within the budget with no abort or device fault. The bytes committed before it stops are the next bytes of the stream, in the image at the old offset. On success that is the whole chunk, with one request and one report per read. |
| Installer.GsiInstaller.BlockLoop | gsi_installer.cpp:233-256 | The `while (remaining)` loop keeps the stream invariant and the account of requests and reports, and its outcome is exactly that of the whole chunk. `done` is what the passes before the failing one committed. |
| Installer.GsiInstaller.StreamPass | gsi_installer.cpp:234-255 | One pass of the loop: on success `remaining` shrinks and both invariants hold; a failure rules out delivering the rest within the budget without abort or fault, and leaves the image and the written count unchanged. |
| Installer.GsiInstaller.ReportBlock | gsi_installer.cpp:250-255 | `progress` stays -1, so every block is reported, and the account of the chunk holds after the report. |
| Installer.GsiInstaller.NewProgressInRange | gsi_installer.cpp:252-253 | The permille value is never -1, so the comparison with the unchanged `progress` always reports. |
| Installer.GsiInstaller.MapAshmem | gsi_installer.cpp:288-292 | Records the size. The region is mapped exactly when mmap succeeds. |
| Installer.GsiInstaller.UnmapAshmem | gsi_installer.cpp:294-301 | When munmap succeeds, the region is unmapped and its size reset to SIZE_MAX. When it fails, both are kept. |
| Installer.GsiInstaller.CommitGsiChunkFromAshmem | gsi_installer.cpp:303-313 | Corrected guard: succeeds exactly with a mapping, `bytes <= ashmem size`, the chunk within the budget, no abort and a successful write. Then the region's first bytes are committed like the buffer path. The mapping is released when the image is then complete and munmap succeeds, and kept otherwise. |
| Installer.GsiInstaller.SetGsiBootable | gsi_installer.cpp:354-388 | An incomplete image fails with no marker touched. After a successful fsync the device is released (`system_device_ = {}`), so system_gsi is unmapped unless that unmap faults; no other image changes. The journal holds a prefix of: install directory, boot mode, install-status file. Success means the prefix is complete, and needs fsync, Validate and every write to succeed. `succeeded` becomes true only then. |
| Installer.GsiInstaller.CheckInstallState | gsi_installer.cpp:390-398 | OK exactly when system_gsi and userdata_gsi each exist as a partition and as a backing image. |
| Installer.GsiInstaller.ReenableGsi | gsi_installer.cpp:400-415 | Inside a live GSI, CheckInstallState is skipped. Otherwise a failed check is returned and nothing changes. After that the journal grows by a prefix of the boot mode's events followed by the status file's "0", and the files are the old files with that prefix replayed. On failure the status file is as it was. Success means the whole sequence was written. |
| Installer.GsiInstaller.WipeUserdata | gsi_installer.cpp:417-440 | Requires CheckInstallState. Then it writes the `WipeBlocks(size)` zero blocks from offset 0. It fails when the blocks overshoot the device or a write faults. On every return after the open, the device is released, so userdata_gsi ends unmapped unless that unmap faults. |
| Installer.GsiInstaller.Destroy | gsi_installer.cpp:70-81 | A succeeded installer only releases ashmem. Otherwise the images are unmapped where mapped, then the installation is removed, sparing userdata_gsi unless wipe-on-failure. The ashmem mapping stays only when it existed and munmap fails. |
| Installer.PostInstallCleanupResult | gsi_installer.cpp:92-99 | Only userdata_gsi and system_gsi are affected. Each is unmapped when it is mapped and the unmap succeeds. |
| Installer.PostInstallCleanupImages | gsi_installer.cpp:92-99 | The images become `PostInstallCleanupResult` of the old images. |
| Installer.PostInstallCleanup | gsi_installer.cpp:83-90 | Changes nothing when the manager for the installed directory does not open. Otherwise it is the cleanup above. |
| Service.CheckUid | gsi_service.cpp:619-632 | System admits exactly root and system. SystemOrShell also admits shell. |
| Service.CheckUidLevels | gsi_service.cpp:619-632 | System admits a subset of SystemOrShell. Shell is the only uid that differs. |
| Service.IsExternalStoragePath | gsi_service.cpp:634-650 | External storage lies under /mnt/media_rw/ and is a vfat file system; a path that is not vfat is never external storage. |
| Service.ValidateInstallParams | gsi_service.cpp:652-692 | "" and "/data/gsi" become the default folder. A failed realpath is an error. The result ends in "/". It is OK only on external storage with an acceptable /system entry, or in the default folder. |
| Service.ValidateIdempotent | gsi_service.cpp:652-692 | Validating a validated directory again gives the same result. |
| Service.DefaultInstallDir | gsi_service.cpp:656-669 | The empty directory validates to /data/gsi/dsu/. |
| Service.DefaultCompleteIndication | gsi_service.cpp:785-789 | The default folder's completion marker is /metadata/gsi/dsu/complete. |
| Service.CloseInstallOutcome | gsi_service.cpp:146-157 | closeInstall as written: always INSTALL_OK. The marker is written unless its write faults. |
| Service.CloseInstallHidesFailedWrite | gsi_service.cpp:150-155 | A failed marker write still returns INSTALL_OK, with no marker. |
| Service.CheckedCloseOutcome | gsi_service.cpp:146-157 | Corrected closeInstall: OK exactly when the marker holds "OK"; otherwise a generic error and no change. |
| Service.PartitionFor | gsi_service.cpp:181-184 | Size 0 for "userdata" becomes 2 GiB. Other sizes are kept, and so is sector alignment. |
| Service.DisableThenEnable | gsi_service.cpp:713-737 | A disabled install can be re-enabled. Once re-enabled it no longer can be. |
| Service.GsiService.constructor | gsi_service.cpp:79-81 | No open session and no partition in progress. |
| Service.GsiService.OpenInstall | gsi_service.cpp:125-144 | Refused for non-system callers and inside a live GSI. Otherwise `install_dir_` becomes the validated directory. Then its completion marker is removed and the directory recorded. The recorded directory is what GetInstalledImageDir reads back. |
| Service.GsiService.CloseInstall | gsi_service.cpp:146-157 | As written: always INSTALL_OK, and `install_dir_` is cleared. |
| Service.GsiService.CloseInstallChecked | gsi_service.cpp:146-157 | Corrected: INSTALL_OK only when the installation is then complete. |
| Service.GsiService.CreatePartition | gsi_service.cpp:159-191 | Fails with no open directory and when the size is not a multiple of 512, in which case no installer is left. Otherwise it returns StartInstall's status and keeps the installer only on success. |
| Service.GsiService.GetActiveInstalledImageDir | gsi_service.cpp:694-701 | The directory of the installer in progress, else the recorded one. |
| Service.GsiService.ReenableGsi | gsi_service.cpp:713-737 | Fails, changing no file and journaling nothing, unless installed with status exactly "disabled". Otherwise the journal holds a prefix of boot mode then status file, the files are the old ones with that prefix applied, and success means the prefix is complete. |
| Service.GsiService.EnableGsi | gsi_service.cpp:257-277 | With an installer: system only, with the boot mode written before the status file. Without one: system or shell, via ReenableGsi. On every completed call the journal holds a prefix of those events (none when nothing was attempted), the files are the old ones with that prefix applied, and success means setting the mode and the status file both succeeded. `installer` is None after every completed call. |
| Service.GsiService.DisableGsiInstall | gsi_service.cpp:769-783 | Succeeds exactly when installed, no partition is in progress and the status write succeeds. Afterwards the install is re-enableable. |
| Service.GsiService.ZeroPartition | gsi_service.cpp:357-370 | Generic error inside a live GSI or with no install. Otherwise the wipe's status. |
| Service.GsiService.RemoveGsi | gsi_service.cpp:291-303 | Inside a live GSI, only the install marker is removed: the images are unchanged and the result is whether that removal succeeded. Otherwise the images, the files and the result are exactly those of removing the active directory's installation. |
| Service.GsiService.CancelGsiInstall | gsi_service.cpp:337-347 | Returns true, drops the partition in progress and leaves the abort flag cleared. |
| Service.CleanCorruptedInstallation | gsi_service.cpp:800-808 | Removes the installation exactly when it is not complete. |
| Service.HandleBootStatus | gsi_service.cpp:813-835 | Outside a GSI, a "wipe" status removes the installation. Inside one, a boot-attempt count is replaced by "ok". |
| Service.RunStartupTasks | gsi_service.cpp:810-836 | An incomplete install is removed. A complete one is removed when its status is "wipe" and no GSI runs, and marked "ok" when booted into with a boot-attempt count. Otherwise a complete install leaves files and images unchanged. |
| Tool.ParseInt | gsi_tool.cpp:205-214 | Parses only an optional sign and decimal digits, within the int64_t range. |
| Tool.Decimal | gsi_tool.cpp:205-214 | Writes n in decimal digits whose value is n. |
| Tool.ParseIntDecimal | gsi_tool.cpp:205-214 | Every int64_t written in decimal parses back to itself. |
| Tool.Lookup | gsi_tool.cpp:188-194 | A name matches the option it names or abbreviates, and only that one. |
| Tool.TokenizeArgument | gsi_tool.cpp:202-214 | "--name=value" is read back as that option with that argument. |
| Tool.TokenizeFlag | gsi_tool.cpp:202-222 | "--name" is read back as the flag. |
| Tool.TokenizeOne | gsi_tool.cpp:202-222 | One rendered option is read back as itself. |
| Tool.Tokenize | gsi_tool.cpp:202-223 | Each argument yields at most one token, so there are never more tokens than arguments. |
| Tool.TokenizeRender | gsi_tool.cpp:202-223 | getopt reads rendered options back unchanged. |
| Tool.ApplyOption | gsi_tool.cpp:204-222 | One pass of the switch fails exactly on a bad size. |
| Tool.ApplyOptionsStops | gsi_tool.cpp:202-223 | The loop stops with EX_USAGE exactly when some size is bad. |
| Tool.ApplyOptionsFlags | gsi_tool.cpp:215-220 | --wipe anywhere sets wipe. --no-reboot anywhere clears reboot. |
| Tool.ApplyOptionsSize | gsi_tool.cpp:205-214 | The last option setting a size wins. Without one the size is kept. |
| Tool.LastSetting | gsi_tool.cpp:205-214 | A size set somewhere has a last setting. |
| Tool.InstallUsageCases | gsi_tool.cpp:205-228 | install is EX_USAGE exactly when a size is bad or no gsi size is given. |
| Tool.InstallArgumentsMeaning | gsi_tool.cpp:196-228 | The accepted gsi size is positive and comes from the last --gsi-size. The userdata size comes from the last --userdata-size, or is 0. The wipe and reboot flags follow their options. |
| Tool.ParseInstallOptions | gsi_tool.cpp:196-228 | The imperative getopt loop over the locals computes exactly InstallArguments. |
| Tool.InstallCommand | gsi_tool.cpp:187-282 | install exits EX_OK, EX_USAGE or EX_SOFTWARE and prints no status word. Its first call is always the running query, and a reboot is requested only after the image was made bootable. |
| Tool.InstallUsage | gsi_tool.cpp:205-228 | EX_USAGE exactly when the options are rejected, and then nothing is asked of the service. |
| Tool.InstallRefusedWhenRunning | gsi_tool.cpp:230-236 | Inside a live GSI, install fails before starting anything and only queries. |
| Tool.InstallSucceeds | gsi_tool.cpp:230-282 | install succeeds exactly when every step succeeds. The calls are then: running query, start with the parsed sizes, stream of exactly the gsi size, set bootable, and a reboot unless --no-reboot. |
| Tool.WipeCommand | gsi_tool.cpp:284-297 | Extra arguments are EX_USAGE. Otherwise removes, succeeding exactly when the removal does. |
| Tool.StatusCommand | gsi_tool.cpp:299-324 | status exits EX_OK, EX_USAGE or EX_SOFTWARE. A word is printed only on success, after the running query. |
| Tool.StatusReports | gsi_tool.cpp:299-324 | status only queries. It prints "running", else "installed", else "normal". Extra arguments are EX_USAGE. |
| Tool.EnableCommand | gsi_tool.cpp:326-354 | enable exits EX_OK, EX_USAGE or EX_SOFTWARE. It asks the installed query first, and sets bootable only after both queries. |
| Tool.DisableCommand | gsi_tool.cpp:356-377 | disable exits EX_OK, EX_USAGE or EX_SOFTWARE. It asks the install-in-progress query first, and disables only after it. |
| Tool.EnableDisableGuards | gsi_tool.cpp:326-377 | enable sets bootable only when installed and not installing. disable disables only when not installing. Each succeeds exactly when that call does. |
| Tool.GsiTool | gsi_tool.cpp:398-428 | main exits with EX_OK, EX_USAGE, EX_SOFTWARE or EX_NOPERM, and prints a status word only for the status command. |
| Tool.GsiToolRules | gsi_tool.cpp:398-428 | No service is EX_NOPERM and no command is EX_USAGE. Every command but status needs root, and a non-root caller only queries. An unknown command is EX_USAGE. |
| ProgressView.FillChars | gsi_tool.cpp:154-162 | `fill` '=' characters, the last one a '>' when dashes follow. |
| ProgressView.DashChars | gsi_tool.cpp:155-165 | `n` '-' characters. |
| ProgressView.DisplayAsWritten | gsi_tool.cpp:142-170 | As written: nothing for a total of 0. Division by zero exactly when `0 < |total| < 80`. |
| ProgressView.DisplayAsWrittenFails | gsi_tool.cpp:152-157 | A total of 1..79 divides by zero. A total of 81..159 at 100 % fills `total` columns and wraps the dash count around 2^32. |
| ProgressView.Display | gsi_tool.cpp:142-170 | Corrected layout: drawn for a positive total. Fill plus dash is 80 columns and the percentage is 0..100. Both are the exact shares of the processed bytes. A full count fills every column with no '>'. |
| ProgressView.DisplayAgrees | gsi_tool.cpp:152-157 | For a total that is a multiple of 80, the corrected layout equals the one as written. |
| ProgressView.DisplayMonotone | gsi_tool.cpp:152-155 | More bytes never draw a shorter bar or a smaller percentage. |
| ProgressView.DisplayComplete | gsi_tool.cpp:131-140 | processed = total draws the full bar at 100 %. |
| ProgressView.ProgressBar.constructor | gsi_tool.cpp:73-77 | Nothing drawn, nothing polled. |
| ProgressView.ProgressBar.Draw | gsi_tool.cpp:142-170 | A record with a positive total is drawn and becomes the last update. |
| ProgressView.ProgressBar.FinishLastBar | gsi_tool.cpp:131-140 | No-op when the last total is 0. Otherwise the last record is redrawn with processed = total and the line is ended. |
| ProgressView.ProgressBar.Poll | gsi_tool.cpp:114-129 | A failed query ends the line. NO_OPERATION is ignored. A new step finishes the previous bar first. Then the record is drawn. |
| ProgressView.ProgressBar.Stop | gsi_tool.cpp:86-93 | The worker is told to stop and is no longer polling. |
| ProgressView.ProgressBar.Finish | gsi_tool.cpp:95-101 | With a worker running, it stops it and finishes its bar. Otherwise nothing changes. |
| ProgressView.ProgressBar.Start | gsi_tool.cpp:79-84 | Finishes a bar in progress and starts polling afresh. |

## Left out

- Binder, AIDL and `IPCThreadState`: a call is a method taking the caller's uid. For gsi_tool the service's replies are an input (`Tool.Replies`), and getService's polling (gsi_tool.cpp:399-403) is one `Option`.
- Concurrency: the progress lock, the service lock, the ProgressBar worker thread, its condition variable and timing. Everything runs sequentially, and abort is a plain flag set through `Channel.SetAbort`.
- Service.GsiService.CancelGsiInstall: `should_abort_` is set and cleared under the lock. An installer running concurrently is never seen aborting. The model states only the final state.
- Floating point: the free-space percentage of gsi_installer.cpp:153 is a double. The model uses the exact integer comparison `free * 100 < 40 * fs_size`.
- Printing, escape codes and log messages are left out. `ProgressBar.screen` records the drawn bars and line ends as values, not characters.
- Tool.ParseInt: android::base::ParseInt's leading-whitespace and base handling are not modelled. The model reads only an optional sign followed by decimal digits.
- Tool.Tokenize: getopt_long_only's argument permutation and POSIXLY_CORRECT are not modelled. Operands are skipped, and single-letter short options are not distinguished from long ones.
- The bodies of the partition installer (PartitionInstaller::StartInstall and WipeWritable) are not part of this model. createPartition and zeroPartition take their status as an input.
- The ImageService pass-throughs (gsi_service.cpp:439-581) and dumpDeviceMapperDevices (gsi_service.cpp:377-407) are left out. They forward to libraries whose bodies are not part of this model.
- The binder entry points that only forward are left out. These are:
  - commitGsiChunkFromStream, commitGsiChunkFromAshmem, setGsiAshmem;
  - getInstallProgress, isGsiEnabled;
  - isGsiRunning, isGsiInstalled, isGsiInstallInProgress;
  - disableGsi, getInstalledGsiImageDir.

  The installer and LibGsi members they call are modelled.
- SaveInstallation (gsi_service.cpp:115-123) is a plain file write inside `OpenInstall`. Its open flags and O_SYNC are not modelled.
- realpath, fstab and verity, statvfs, get_block_device_size, mmap, munmap and ImageManager::Validate are inputs. Respectively they are `Platform`, `FsStats`, the image's length, `mmapOk`, `munmapOk` and `Disk.pinned`.
- IsExternalStoragePath's fstatfs magic test is the input `Platform.vfat`.
- `images_` is null when ImageManager::Open fails. Where the source tests it, the model does too (`imagesOpen` in SanityChecks). Where the source would dereference it — the constructor at gsi_installer.cpp:57, CheckInstallState, ReenableGsi, WipeUserdata and the destructor — the model requires it to be open.
- `system_device_` is null after a failed StartInstall. CommitGsiChunk and SetGsiBootable would dereference it, so they require an open device.
- LibGsi.IsGsiInstalled, LibGsi.CanBootIntoGsi and LibGsi.UninstallGsi: libgsi.cpp:33 tests `kGsiBootableFile` (file_paths.h:29, /metadata/gsi/bootable). No file of the core writes that path, while gsi_installer.cpp:380-382 and gsi_service.cpp:263-265 call the install-status file "the actual boot indicator". The model treats the two as one marker, the install-status file, so the bootable file is not represented separately.
- GetInstallStatus, DisableGsi and GetBootAttempts have no body in the sources modelled here. They are modelled from their use in gsi_service.cpp as follows:
  - a read of the install-status file;
  - a write of "disabled";
  - a test for a decimal count.
- The two-argument RemoveGsiFiles that the destructor calls (gsi_installer.cpp:76) has no body here. `Cleanup.RemoveGsiFiles` takes the flag and spares userdata_gsi unless it is set.
- Service.HandleBootStatus and Service.RunStartupTasks: an install-status read failure (gsi_service.cpp:814-817) is modelled as a missing file. No other read error is modelled.
- Installer.GsiInstaller.CommitGsiChunkFromStream: TEMP_FAILURE_RETRY's retry on EINTR is not modelled. The CHECK at gsi_installer.cpp:247 is proved rather than run.
- Storage.MappedDevice.Write: a failed WriteFully is modelled as writing nothing, so the bytes a partial write leaves on the device and the offset it advances are not represented. This affects Installer.GsiInstaller.CommitGsiChunk, FormatUserdata and WipeUserdata, whose failure paths then leave the image unchanged.
- Installer.GsiInstaller.CreateImage: ImageManager::CreateBackingImage is not part of this model, so neither is how often it calls the progress callback. The model takes the callback to run at least once, so a pending abort always fails creation, and the WORKING reports the callback makes during creation are not recorded in `Channel.history`.
- ProgressView.ProgressBar.Draw, FinishLastBar and Poll draw with the corrected layout `ProgressView.Display`. The source's crash for totals 1..79, its wrapped dash count for totals 81..159 and its bars for totals of -80 or below exist only in `ProgressView.DisplayAsWritten`.
- Progress.Channel: `history` records every progress update in order, so the reports of a streamed chunk can be stated. The source keeps only the latest record.
- libgsid.cpp (service start with sleeps) and utility.cpp (a stat-based device comparison) are not part of this model.

## Findings

| source | as written | input that shows it | evidently intended | confidence | as-written member | corrected member |
|---|---|---|---|---|---|---|
| gsi_service.cpp:150-155 | After a failed write of the completion marker, `*_aidl_return = INSTALL_ERROR_GENERIC` is overwritten by `INSTALL_OK` | no files, default folder, the marker write fails: closeInstall returns INSTALL_OK and no marker exists | the failed write is reported as INSTALL_ERROR_GENERIC | not executed | Service.CloseInstallHidesFailedWrite | Service.CheckedCloseOutcome |
| gsi_tool.cpp:152-157 | `bytes_per_col = total_bytes / 80` is divided by, and `80 - fill_count` is stored in a 32-bit unsigned | total_bytes = 50 divides by zero; total_bytes = 100 at 100 % gives fill 100 and a dash count that wraps around 2^32 | fill = processed * 80 / total, so fill + dash = 80 for every positive total | not executed | ProgressView.DisplayAsWrittenFails | ProgressView.Display |
| gsi_installer.cpp:303-313 | The ashmem commit passes `bytes` to the buffer commit without comparing it with `ashmem_size_` | any mapping smaller than what the image still lacks, e.g. a 4096-byte region with gsi_size = 8192 and a commit of 8192 bytes: 8192 bytes are read from the 4096-byte mapping | refuse a commit larger than the mapped region | not executed | Installer.AshmemGuardAdmitsOverread | Installer.GsiInstaller.CommitGsiChunkFromAshmem |
