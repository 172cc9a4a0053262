/** The service side of the lifecycle (GsiService): caller checks, the
    install directory of an open session, the partition request in
    progress, enabling, re-enabling and disabling an install, and the
    startup tasks that clean up a corrupted one.  The binder transport is
    left out: a call is a method taking the caller's uid, and a refused
    caller gets Denied instead of a status. */
module Service {
  import opened Common
  import opened Storage
  import opened Markers
  import opened Paths
  import opened Cleanup
  import opened Progress
  import LibGsi

  /** The uids the allow-lists mention (AID_ROOT, AID_SYSTEM, AID_SHELL). */
  const AidRoot: int := 0
  const AidSystem: int := 1000
  const AidShell: int := 2000

  datatype AccessLevel = System | SystemOrShell

  /** The reply of a binder call: a security error naming the caller, or the call's value. */
  datatype Reply<T> = Denied(uid: int) | Done(value: T)

  /** The allow-list of CheckUid: root and system, and shell for SystemOrShell. */
  function AllowedUids(level: AccessLevel): seq<int>
  {
    [AidRoot, AidSystem] + (if level == SystemOrShell then [AidShell] else [])
  }

  /** CheckUid: the caller is on the allow-list of the level. */
  function CheckUid(level: AccessLevel, uid: int): (allowed: bool)
    ensures allowed <==> uid == AidRoot || uid == AidSystem || (level == SystemOrShell && uid == AidShell)
  {
    uid in AllowedUids(level)
  }

  /** The system level admits a subset of the system-or-shell level, and shell is the only difference. */
  lemma CheckUidLevels(uid: int)
    ensures CheckUid(System, uid) ==> CheckUid(SystemOrShell, uid)
    ensures CheckUid(SystemOrShell, uid) && !CheckUid(System, uid) <==> uid == AidShell
  {
  }

  /** The /system entry of the default fstab, if it has one. */
  datatype SystemEntry = NoSystemEntry | SystemEntry(verityCheckAtMostOnce: bool)

  /** What ValidateInstallParams asks the platform: Realpath of a path (absent
      when it fails), which paths are on a vfat file system (the fstatfs
      magic check), and the default fstab (None when it cannot be read). */
  datatype Platform = Platform(realpaths: map<string, string>, vfat: set<string>, fstab: Option<SystemEntry>)

  /** IsExternalStoragePath: under /mnt/media_rw/ and on vfat. */
  predicate IsExternalStoragePath(path: string, platform: Platform)
    ensures IsExternalStoragePath(path, platform) ==> |path| >= 14 && path[..14] == "/mnt/media_rw/" && path in platform.vfat
    ensures path !in platform.vfat ==> !IsExternalStoragePath(path, platform)
  {
    StartsWith(path, "/mnt/media_rw/") && path in platform.vfat
  }

  /** The status of ValidateInstallParams and the install directory it leaves behind. */
  datatype Validated = Validated(status: InstallStatus, dir: string)

  /** ValidateInstallParams(install_dir): an empty directory or /data/gsi
      becomes the default folder; the path is resolved and given a trailing
      slash; only the default folder, or external storage whose /system
      entry does not use verity's check_at_most_once, is accepted. */
  function ValidateInstallParams(dir: string, platform: Platform): (v: Validated)
    ensures v.status == InstallOk || v.status == ErrorGeneric
    ensures var d := if dir == "" || dir == "/data/gsi" then DefaultImageFolder else dir;
      && (d !in platform.realpaths ==> v == Validated(ErrorGeneric, d))
      && (d in platform.realpaths ==> EndsWith(v.dir, "/") && (v.dir == platform.realpaths[d] || v.dir == platform.realpaths[d] + "/"))
    ensures v.status == InstallOk <==>
              var d := if dir == "" || dir == "/data/gsi" then DefaultImageFolder else dir;
              && d in platform.realpaths
              && if IsExternalStoragePath(v.dir, platform) then platform.fstab == Some(SystemEntry(false))
                 else v.dir == DefaultImageFolder
  {
    var d := if dir == "" || dir == "/data/gsi" then DefaultImageFolder else dir;
    if d !in platform.realpaths then Validated(ErrorGeneric, d)
    else
      var resolved := platform.realpaths[d];
      var n := if EndsWith(resolved, "/") then resolved else resolved + "/";
      assert EndsWith(n, "/") by {
        if !EndsWith(resolved, "/") {
          assert n[|n| - 1..] == "/";
        }
      }
      if IsExternalStoragePath(n, platform) then
        match platform.fstab
        case None => Validated(ErrorGeneric, n)
        case Some(NoSystemEntry) => Validated(ErrorGeneric, n)
        case Some(SystemEntry(atMostOnce)) => Validated(if atMostOnce then ErrorGeneric else InstallOk, n)
      else if n != DefaultImageFolder then Validated(ErrorGeneric, n)
      else Validated(InstallOk, n)
  }

  /** An accepted directory is accepted again, unchanged, when Realpath
      resolves it to itself without the trailing slash. */
  lemma ValidateIdempotent(dir: string, platform: Platform)
    requires ValidateInstallParams(dir, platform).status == InstallOk
    requires var v := ValidateInstallParams(dir, platform);
      && v.dir in platform.realpaths && platform.realpaths[v.dir] + "/" == v.dir
      && !EndsWith(platform.realpaths[v.dir], "/")
    ensures ValidateInstallParams(ValidateInstallParams(dir, platform).dir, platform) == ValidateInstallParams(dir, platform)
  {
    var v := ValidateInstallParams(dir, platform);
    assert v.dir != "" && v.dir != "/data/gsi" by {
      assert v.dir[|v.dir| - 1] == '/';
      assert "/data/gsi"[8] == 'i';
    }
  }

  /** With no directory given, an install goes to the default folder when
      that resolves to /data/gsi/dsu. */
  lemma DefaultInstallDir(platform: Platform)
    requires DefaultImageFolder in platform.realpaths && platform.realpaths[DefaultImageFolder] == "/data/gsi/dsu"
    ensures ValidateInstallParams("", platform) == Validated(InstallOk, DefaultImageFolder)
  {
    var r := "/data/gsi/dsu";
    assert !StartsWith(DefaultImageFolder, "/mnt/media_rw/") by {
      assert DefaultImageFolder[1] != "/mnt/media_rw/"[1];
    }
    assert !EndsWith(r, "/") by {
      assert r[|r| - 1..] == "u";
    }
    assert r + "/" == DefaultImageFolder;
  }

  /** The default folder and its marker written as their components. */
  lemma DefaultSpellings()
    ensures DefaultImageFolder == "/data/gsi" + "/" + "dsu" + "/"
    ensures "/metadata/gsi/" + "dsu" + "/complete" == "/metadata/gsi/dsu/complete"
  {
  }

  /** The completion marker of the default folder is /metadata/gsi/dsu/complete. */
  lemma DefaultCompleteIndication()
    ensures GetCompleteIndication(DefaultImageFolder) == "/metadata/gsi/dsu/complete"
  {
    DefaultSpellings();
    CompleteIndicationOfDir("/data/gsi", "dsu");
  }

  /** The completion marker of dir holds exactly "OK" among files. */
  predicate MarkedComplete(files: map<string, string>, dir: string)
  {
    var marker := GetCompleteIndication(dir);
    marker in files && files[marker] == "OK"
  }

  /** closeInstall as written: the failed write of the completion marker
      sets INSTALL_ERROR_GENERIC, which the next statement overwrites with
      INSTALL_OK.  The status and the marker files that result. */
  function CloseInstallOutcome(files: map<string, string>, dir: string, faults: set<Fault>): (o: (InstallStatus, map<string, string>))
    ensures o.0 == InstallOk
    ensures FileWrite(GetCompleteIndication(dir)) in faults ==> o.1 == files
    ensures FileWrite(GetCompleteIndication(dir)) !in faults ==> MarkedComplete(o.1, dir)
  {
    var marker := GetCompleteIndication(dir);
    (InstallOk, if FileWrite(marker) !in faults then files[marker := "OK"] else files)
  }

  /** closeInstall reports success for an install whose completion marker
      could not be written: with no marker yet and its write failing, the
      result is INSTALL_OK while the install stays incomplete, so the next
      startup removes it. */
  lemma CloseInstallHidesFailedWrite()
    ensures var o := CloseInstallOutcome(map[], DefaultImageFolder, {FileWrite("/metadata/gsi/dsu/complete")});
      o.0 == InstallOk && !MarkedComplete(o.1, DefaultImageFolder)
  {
    DefaultCompleteIndication();
  }

  /** closeInstall as evidently intended: INSTALL_OK exactly when the
      completion marker was written, and then the install is complete. */
  function CheckedCloseOutcome(files: map<string, string>, dir: string, faults: set<Fault>): (o: (InstallStatus, map<string, string>))
    ensures o.0 == InstallOk || o.0 == ErrorGeneric
    ensures o.0 == InstallOk <==> FileWrite(GetCompleteIndication(dir)) !in faults
    ensures o.0 == InstallOk ==> MarkedComplete(o.1, dir)
    ensures o.0 != InstallOk ==> o.1 == files
  {
    var marker := GetCompleteIndication(dir);
    if FileWrite(marker) !in faults then (InstallOk, files[marker := "OK"]) else (ErrorGeneric, files)
  }

  /** The session the service holds (PartitionInstaller, whose bodies are
      not part of this model): directory, partition name, size and mode. */
  datatype PartitionRequest = PartitionRequest(installDir: string, name: string, size: int, readOnly: bool)

  /** The partition request createPartition makes: the size of "userdata"
      defaults to 2 GiB when 0 is asked for. */
  function PartitionFor(installDir: string, name: string, size: int, readOnly: bool): (p: PartitionRequest)
    ensures p.installDir == installDir && p.name == name && p.readOnly == readOnly
    ensures p.size == if size == 0 && name == "userdata" then DefaultUserdataSize else size
    ensures size % SectorSize == 0 ==> p.size % SectorSize == 0
  {
    PartitionRequest(installDir, name, if size == 0 && name == "userdata" then DefaultUserdataSize else size, readOnly)
  }

  /** The re-enable guard of GsiService::ReenableGsi: an install exists and its status is exactly "disabled". */
  predicate Reenableable(files: map<string, string>)
  {
    InstallStatusFile in files && files[InstallStatusFile] == StatusDisabled
  }

  /** Disabling makes re-enabling possible, and a completed enable makes it
      impossible again: re-enabling twice in a row refuses the second time. */
  lemma {:induction false} DisableThenEnable(files: map<string, string>, oneShot: bool, oneShotPresent: bool)
    ensures Reenableable(files[InstallStatusFile := StatusDisabled])
    ensures !Reenableable(Apply(files, EnableEvents(oneShot, oneShotPresent)))
  {
    var modeEvents := BootModeEvents(oneShot, oneShotPresent);
    ApplyAppend(files, modeEvents, [Wrote(InstallStatusFile, "0")]);
    var f := Apply(files, modeEvents);
    assert Apply(f, [Wrote(InstallStatusFile, "0")]) == Apply(f[InstallStatusFile := "0"], []);
  }

  class GsiService {
    const disk: Disk
    /** progress_ and should_abort_. */
    const channel: Channel
    const platform: Platform
    /** install_dir_: empty when no session is open. */
    var installDir: string
    /** installer_: the partition being installed, if any. */
    var installer: Option<PartitionRequest>

    /** GsiService(parent): no session, no partition, progress_ = {}. */
    constructor (disk0: Disk, channel0: Channel, platform0: Platform)
      ensures disk == disk0 && channel == channel0 && platform == platform0
      ensures installDir == [] && installer.None?
    {
      disk, channel, platform := disk0, channel0, platform0;
      installDir, installer := [], None;
    }

    /** openInstall: refused while a GSI runs; otherwise the directory is
        validated (and kept, normalised, even when refused), its completion
        marker dropped, and the directory recorded. */
    method OpenInstall(uid: int, dir: string) returns (r: Reply<InstallStatus>)
      modifies this`installDir, disk`files, disk`journal
      ensures !CheckUid(System, uid) ==> r == Denied(uid) && installDir == old(installDir) && disk.files == old(disk.files)
      ensures CheckUid(System, uid) && old(LibGsi.IsGsiRunning(disk))
              ==> r == Done(ErrorGeneric) && installDir == old(installDir) && disk.files == old(disk.files)
      ensures CheckUid(System, uid) && !old(LibGsi.IsGsiRunning(disk)) ==>
        var v := ValidateInstallParams(dir, platform);
        var marker := GetCompleteIndication(v.dir);
        var cleared := if marker !in old(disk.files) || FileRemove(marker) !in disk.faults then old(disk.files) - {marker} else old(disk.files);
        && installDir == v.dir
        && (v.status != InstallOk ==> r == Done(v.status) && disk.files == old(disk.files))
        && (v.status == InstallOk ==>
              && r == Done(if FileWrite(InstallDirFile) !in disk.faults then InstallOk else ErrorGeneric)
              && disk.files == if FileWrite(InstallDirFile) !in disk.faults then cleared[InstallDirFile := v.dir] else cleared)
      ensures r == Done(InstallOk) ==> GetInstalledImageDir(disk) == installDir
    {
      if !CheckUid(System, uid) {
        return Denied(uid);
      }
      if LibGsi.IsGsiRunning(disk) {
        return Done(ErrorGeneric);
      }
      installDir := dir;
      var v := ValidateInstallParams(installDir, platform);
      installDir := v.dir;
      if v.status != InstallOk {
        return Done(v.status);
      }
      var _ := disk.RemoveFileIfExists(GetCompleteIndication(installDir));
      var saved := disk.WriteFile(InstallDirFile, installDir);
      r := Done(if saved then InstallOk else ErrorGeneric);
    }

    /** closeInstall, as written: the completion marker is written, the
        session closed, and INSTALL_OK returned whatever the write did. */
    method CloseInstall(uid: int) returns (r: Reply<InstallStatus>)
      modifies this`installDir, disk`files, disk`journal
      ensures !CheckUid(System, uid) ==> r == Denied(uid) && installDir == old(installDir) && disk.files == old(disk.files)
      ensures CheckUid(System, uid) ==>
        var o := CloseInstallOutcome(old(disk.files), old(installDir), disk.faults);
        r == Done(o.0) && disk.files == o.1 && installDir == []
    {
      if !CheckUid(System, uid) {
        return Denied(uid);
      }
      var file := GetCompleteIndication(installDir);
      var status := InstallOk;
      var written := disk.WriteFile(file, "OK");
      if !written {
        status := ErrorGeneric;
      }
      installDir := [];
      status := InstallOk;
      r := Done(status);
    }

    /** closeInstall as evidently intended: the failed write is reported. */
    method CloseInstallChecked(uid: int) returns (r: Reply<InstallStatus>)
      modifies this`installDir, disk`files, disk`journal
      ensures !CheckUid(System, uid) ==> r == Denied(uid) && installDir == old(installDir) && disk.files == old(disk.files)
      ensures CheckUid(System, uid) ==>
        var o := CheckedCloseOutcome(old(disk.files), old(installDir), disk.faults);
        r == Done(o.0) && disk.files == o.1 && installDir == []
      ensures r == Done(InstallOk) ==> IsInstallationComplete(disk, old(installDir))
    {
      if !CheckUid(System, uid) {
        return Denied(uid);
      }
      var file := GetCompleteIndication(installDir);
      var written := disk.WriteFile(file, "OK");
      installDir := [];
      r := Done(if written then InstallOk else ErrorGeneric);
    }

    /** createPartition: needs an open session and a size that is a multiple
        of 512; any earlier partition is dropped once the session check
        passes; the new one is kept only when its StartInstall succeeds
        (startStatus: that result, computed by code outside this model). */
    method CreatePartition(uid: int, name: string, size: int, readOnly: bool, startStatus: InstallStatus)
      returns (r: Reply<InstallStatus>)
      modifies this`installer
      ensures !CheckUid(System, uid) ==> r == Denied(uid) && installer == old(installer)
      ensures CheckUid(System, uid) && installDir == [] ==> r == Done(ErrorGeneric) && installer == old(installer)
      ensures CheckUid(System, uid) && installDir != [] && size % SectorSize != 0 ==> r == Done(ErrorGeneric) && installer.None?
      ensures CheckUid(System, uid) && installDir != [] && size % SectorSize == 0 ==>
                r == Done(startStatus)
                && installer == if startStatus == InstallOk then Some(PartitionFor(installDir, name, size, readOnly)) else None
      ensures r == Done(InstallOk) ==>
                installer.Some? && installer.value.installDir == installDir && installer.value.size % SectorSize == 0
    {
      if !CheckUid(System, uid) {
        return Denied(uid);
      }
      if installDir == [] {
        return Done(ErrorGeneric);
      }
      installer := None;
      if size % SectorSize != 0 {
        return Done(ErrorGeneric);
      }
      var request := PartitionFor(installDir, name, size, readOnly);
      installer := Some(request);
      if startStatus != InstallOk {
        installer := None;
      }
      r := Done(startStatus);
    }

    /** GetActiveInstalledImageDir: the session's directory while a partition
        is in progress, else the recorded one. */
    function GetActiveInstalledImageDir(): (dir: string)
      reads this, disk
      ensures installer.Some? ==> dir == installer.value.installDir
      ensures installer.None? ==> dir == GetInstalledImageDir(disk)
    {
      if installer.Some? then installer.value.installDir else GetInstalledImageDir(disk)
    }

    /** GsiService::ReenableGsi: only a disabled install is re-enabled; a
        running GSI and an installed one take the same path. */
    method ReenableGsi(oneShot: bool) returns (status: InstallStatus)
      modifies disk`files, disk`journal
      ensures status == InstallOk || status == ErrorGeneric
      ensures !Reenableable(old(disk.files)) ==>
                status == ErrorGeneric && disk.files == old(disk.files) && disk.journal == old(disk.journal)
      ensures Reenableable(old(disk.files)) ==>
                var events := EnableEvents(oneShot, OneShotBootFile in old(disk.files));
                && old(disk.journal) <= disk.journal
                && disk.journal[|old(disk.journal)|..] <= events
                && disk.files == Apply(old(disk.files), disk.journal[|old(disk.journal)|..])
                && (status == InstallOk <==> disk.journal == old(disk.journal) + events)
                && (status != InstallOk ==> Reenableable(disk.files))
      ensures status == InstallOk <==>
                Reenableable(old(disk.files))
                && (if oneShot then FileWrite(OneShotBootFile) !in disk.faults
                    else OneShotBootFile !in old(disk.files) || FileRemove(OneShotBootFile) !in disk.faults)
                && FileWrite(InstallStatusFile) !in disk.faults
      ensures status == InstallOk ==> InstallStatusFile in disk.files && disk.files[InstallStatusFile] == "0"
    {
      if !LibGsi.IsGsiInstalled(disk) {
        return ErrorGeneric;
      }
      var bootKey := LibGsi.GetInstallStatus(disk);
      if bootKey.None? || bootKey.value != StatusDisabled {
        return ErrorGeneric;
      }
      var enabled := EnableBootMode(disk, oneShot);
      status := if enabled then InstallOk else ErrorGeneric;
    }

    /** enableGsi: with a partition in progress a system caller finishes it by
        writing the boot mode and then the boot indicator; otherwise a system
        or shell caller re-enables a disabled install.  No partition is left
        in progress afterwards. */
    method EnableGsi(uid: int, oneShot: bool) returns (r: Reply<InstallStatus>)
      modifies this`installer, disk`files, disk`journal
      ensures r.Denied? ==> r.uid == uid && installer == old(installer) && disk.files == old(disk.files)
      ensures r.Denied? <==> !CheckUid(if old(installer).Some? then System else SystemOrShell, uid)
      ensures r.Done? ==> installer.None?
      ensures r.Done? && old(installer).Some? ==>
                && (r.value == InstallOk <==> disk.journal == old(disk.journal) + EnableEvents(oneShot, OneShotBootFile in old(disk.files)))
                && (r.value != InstallOk ==> r.value == ErrorGeneric)
      ensures r.Done? && old(installer).None? ==>
                (r.value == InstallOk <==>
                   Reenableable(old(disk.files))
                   && disk.journal == old(disk.journal) + EnableEvents(oneShot, OneShotBootFile in old(disk.files)))
      ensures r.Done? ==>
                var events := EnableEvents(oneShot, OneShotBootFile in old(disk.files));
                var attempted := old(installer).Some? || Reenableable(old(disk.files));
                && old(disk.journal) <= disk.journal
                && disk.journal[|old(disk.journal)|..] <= (if attempted then events else [])
                && disk.files == Apply(old(disk.files), disk.journal[|old(disk.journal)|..])
                && (r.value == InstallOk || r.value == ErrorGeneric)
                && (r.value == InstallOk <==>
                      attempted
                      && (if oneShot then FileWrite(OneShotBootFile) !in disk.faults
                          else OneShotBootFile !in old(disk.files) || FileRemove(OneShotBootFile) !in disk.faults)
                      && FileWrite(InstallStatusFile) !in disk.faults)
      ensures r == Done(InstallOk) ==> InstallStatusFile in disk.files && disk.files[InstallStatusFile] == "0"
    {
      if installer.Some? {
        if !CheckUid(System, uid) {
          return Denied(uid);
        }
        installer := None;
        var enabled := EnableBootMode(disk, oneShot);
        r := Done(if enabled then InstallOk else ErrorGeneric);
      } else {
        if !CheckUid(SystemOrShell, uid) {
          return Denied(uid);
        }
        var status := ReenableGsi(oneShot);
        r := Done(status);
      }
      installer := None;
    }

    /** DisableGsiInstall: needs an install and no partition in progress, then marks the install disabled. */
    method DisableGsiInstall() returns (ok: bool)
      modifies disk`files, disk`journal
      ensures ok <==> old(LibGsi.IsGsiInstalled(disk)) && installer.None? && FileWrite(InstallStatusFile) !in disk.faults
      ensures disk.files == if ok then old(disk.files)[InstallStatusFile := StatusDisabled] else old(disk.files)
      ensures ok ==> Reenableable(disk.files)
    {
      if !LibGsi.IsGsiInstalled(disk) {
        return false;
      }
      if installer.Some? {
        return false;
      }
      ok := LibGsi.DisableGsi(disk);
    }

    /** zeroPartition: refused while a GSI runs or when none is installed;
        otherwise the result of PartitionInstaller::WipeWritable (wipeStatus,
        computed by code outside this model). */
    method ZeroPartition(uid: int, name: string, wipeStatus: InstallStatus) returns (r: Reply<InstallStatus>)
      ensures !CheckUid(SystemOrShell, uid) ==> r == Denied(uid)
      ensures CheckUid(SystemOrShell, uid) ==>
                r == Done(if LibGsi.IsGsiRunning(disk) || !LibGsi.IsGsiInstalled(disk) then ErrorGeneric else wipeStatus)
    {
      if !CheckUid(SystemOrShell, uid) {
        return Denied(uid);
      }
      if LibGsi.IsGsiRunning(disk) || !LibGsi.IsGsiInstalled(disk) {
        return Done(ErrorGeneric);
      }
      r := Done(wipeStatus);
    }

    /** removeGsi: a running GSI is only uninstalled (its files are in use);
        otherwise every GSI file of the active directory is removed. */
    method RemoveGsi(uid: int) returns (r: Reply<bool>)
      modifies disk`files, disk`journal, disk`images
      ensures !CheckUid(SystemOrShell, uid) ==> r == Denied(uid) && disk.files == old(disk.files) && disk.images == old(disk.images)
      ensures CheckUid(SystemOrShell, uid) && old(LibGsi.IsGsiRunning(disk)) ==>
                && disk.images == old(disk.images)
                && r == Done(!old(LibGsi.IsGsiInstalled(disk)) || FileRemove(InstallStatusFile) !in disk.faults)
                && disk.files == if r.value then old(disk.files) - {InstallStatusFile} else old(disk.files)
      ensures CheckUid(SystemOrShell, uid) && !old(LibGsi.IsGsiRunning(disk)) ==>
                var dir := old(GetActiveInstalledImageDir());
                var targets := Targets(old(disk.images), true);
                && disk.files == AfterFileRemoval(old(disk.files), MarkerFiles(dir), disk.faults)
                && disk.images == (if disk.ManagerOpens(dir) then AfterImageRemoval(old(disk.images), targets, disk.faults)
                                   else old(disk.images))
                && r == Done((disk.ManagerOpens(dir) ==> ImagesRemovable(old(disk.images), targets, disk.faults))
                             && forall i :: 0 <= i < 4 ==>
                                  MarkerFiles(dir)[i] !in old(disk.files) || FileRemove(MarkerFiles(dir)[i]) !in disk.faults)
      ensures r.Done? && FileRemove(InstallStatusFile) !in disk.faults ==> !LibGsi.IsGsiInstalled(disk)
    {
      if !CheckUid(SystemOrShell, uid) {
        return Denied(uid);
      }
      var dir := GetActiveInstalledImageDir();
      var ok;
      if LibGsi.IsGsiRunning(disk) {
        ok := LibGsi.UninstallGsi(disk);
      } else {
        ok := RemoveGsiFiles(disk, dir, true);
      }
      r := Done(ok);
    }

    /** cancelGsiInstall: raises and clears the abort flag and drops the partition in progress. */
    method CancelGsiInstall(uid: int) returns (r: Reply<bool>)
      modifies channel`shouldAbort, this`installer
      ensures !CheckUid(System, uid) ==> r == Denied(uid) && installer == old(installer)
      ensures CheckUid(System, uid) ==> r == Done(true) && installer.None? && !channel.shouldAbort
    {
      if !CheckUid(System, uid) {
        return Denied(uid);
      }
      channel.SetAbort(true);
      channel.SetAbort(false);
      installer := None;
      r := Done(true);
    }
  }

  /** CleanCorruptedInstallation: an install whose completion marker does
      not hold "OK" is removed (every "_gsi" image and the four markers). */
  method CleanCorruptedInstallation(disk: Disk)
    modifies disk`files, disk`journal, disk`images
    ensures var dir := old(GetInstalledImageDir(disk));
      if old(IsInstallationComplete(disk, dir)) then disk.files == old(disk.files) && disk.images == old(disk.images)
      else
        && disk.files == AfterFileRemoval(old(disk.files), MarkerFiles(dir), disk.faults)
        && disk.images == if disk.ManagerOpens(dir) then AfterImageRemoval(old(disk.images), Targets(old(disk.images), true), disk.faults)
                          else old(disk.images)
    ensures !old(IsInstallationComplete(disk, GetInstalledImageDir(disk))) && FileRemove(InstallStatusFile) !in disk.faults
            ==> !LibGsi.IsGsiInstalled(disk)
  {
    var dir := GetInstalledImageDir(disk);
    var complete := IsInstallationComplete(disk, dir);
    if !complete {
      var _ := RemoveGsiFiles(disk, dir, true);
    }
  }

  /** The rest of RunStartupTasks: without a boot indicator nothing happens;
      when no GSI runs, a "wipe" status removes the install; under a running
      GSI, a boot-attempt count becomes "ok" (a status word is left alone). */
  method HandleBootStatus(disk: Disk)
    modifies disk`files, disk`journal, disk`images
    ensures !old(LibGsi.IsGsiInstalled(disk)) ==> disk.files == old(disk.files) && disk.images == old(disk.images)
    ensures old(LibGsi.IsGsiInstalled(disk)) && !old(LibGsi.IsGsiRunning(disk)) ==>
              var dir := old(GetInstalledImageDir(disk));
              if old(disk.files)[InstallStatusFile] == StatusWipe then
                && disk.files == AfterFileRemoval(old(disk.files), MarkerFiles(dir), disk.faults)
                && disk.images == if disk.ManagerOpens(dir) then AfterImageRemoval(old(disk.images), Targets(old(disk.images), true), disk.faults)
                                  else old(disk.images)
              else disk.files == old(disk.files) && disk.images == old(disk.images)
    ensures old(LibGsi.IsGsiInstalled(disk)) && old(LibGsi.IsGsiRunning(disk)) ==>
              && disk.images == old(disk.images)
              && disk.files == if LibGsi.BootAttempts(old(disk.files)[InstallStatusFile]).Some? && FileWrite(InstallStatusFile) !in disk.faults
                               then old(disk.files)[InstallStatusFile := StatusOk] else old(disk.files)
  {
    var bootKey := LibGsi.GetInstallStatus(disk);
    if bootKey.None? {
      return;
    }
    if !LibGsi.IsGsiRunning(disk) {
      if bootKey.value == StatusWipe {
        var _ := RemoveGsiFiles(disk, GetInstalledImageDir(disk), true);
      }
    } else {
      if LibGsi.BootAttempts(bootKey.value).Some? {
        var _ := disk.WriteFile(InstallStatusFile, StatusOk);
      }
    }
  }

  /** RunStartupTasks: the corrupted-install cleanup, then the boot status.
      A corrupted install is removed and never survives as bootable; a
      completed one is removed when its status is "wipe" and no GSI runs,
      marked "ok" when booted with an attempt count, and otherwise left
      alone. */
  method RunStartupTasks(disk: Disk)
    modifies disk`files, disk`journal, disk`images
    ensures !old(IsInstallationComplete(disk, GetInstalledImageDir(disk))) && FileRemove(InstallStatusFile) !in disk.faults
            ==> !LibGsi.IsGsiInstalled(disk)
    ensures var dir := old(GetInstalledImageDir(disk));
            var removal := (!old(IsInstallationComplete(disk, dir)) && FileRemove(InstallStatusFile) !in disk.faults)
                           || (old(IsInstallationComplete(disk, dir)) && old(LibGsi.IsGsiInstalled(disk))
                               && !old(LibGsi.IsGsiRunning(disk)) && old(disk.files)[InstallStatusFile] == StatusWipe);
            removal ==>
              && disk.files == AfterFileRemoval(old(disk.files), MarkerFiles(dir), disk.faults)
              && disk.images == if disk.ManagerOpens(dir) then AfterImageRemoval(old(disk.images), Targets(old(disk.images), true), disk.faults)
                                else old(disk.images)
    ensures old(IsInstallationComplete(disk, GetInstalledImageDir(disk)))
            && (|| !old(LibGsi.IsGsiInstalled(disk))
                || (!old(LibGsi.IsGsiRunning(disk)) && old(disk.files)[InstallStatusFile] != StatusWipe)
                || (old(LibGsi.IsGsiRunning(disk))
                    && (LibGsi.BootAttempts(old(disk.files)[InstallStatusFile]).None? || FileWrite(InstallStatusFile) in disk.faults)))
            ==> disk.files == old(disk.files) && disk.images == old(disk.images)
    ensures old(IsInstallationComplete(disk, GetInstalledImageDir(disk))) && old(LibGsi.IsGsiRunning(disk))
            && old(LibGsi.IsGsiInstalled(disk)) && LibGsi.BootAttempts(old(disk.files)[InstallStatusFile]).Some?
            && FileWrite(InstallStatusFile) !in disk.faults
            ==> disk.files == old(disk.files)[InstallStatusFile := StatusOk] && disk.images == old(disk.images)
  {
    CleanCorruptedInstallation(disk);
    HandleBootStatus(disk);
  }
}
