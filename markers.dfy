/** The marker files through which an installation persists, and the two
    marker writes that both the installer and the service perform.  The
    install-status marker is the boot indicator: its existence is what makes
    an install exist for the rest of the system. */
module Markers {
  import opened Common
  import opened Storage

  /** Written by the booted GSI; its existence means a GSI is running. */
  const BootedIndicatorFile: string := "/metadata/gsi/dsu/booted"
  /** The boot indicator; its content is a boot-attempt count or a status word. */
  const InstallStatusFile: string := "/metadata/gsi/dsu/install_status"
  /** Exists iff only the next boot should use the GSI. */
  const OneShotBootFile: string := "/metadata/gsi/dsu/one_shot_boot"
  /** Records the directory holding the backing images. */
  const InstallDirFile: string := "/metadata/gsi/dsu/install_dir"
  /** The partition-table blob handed to the boot loader (kGsiMetadata). */
  const LpMetadataFile: string := "/metadata/gsi/lp_metadata"
  /** Where installs go when no directory is given (kDefaultDsuImageFolder). */
  const DefaultImageFolder: string := "/data/gsi/dsu/"

  /** Install-status words (kInstallStatusOk, kInstallStatusDisabled, kInstallStatusWipe). */
  const StatusOk: string := "ok"
  const StatusDisabled: string := "disabled"
  const StatusWipe: string := "wipe"

  /** The two backing images of an installation. */
  const SystemGsi: string := "system_gsi"
  const UserdataGsi: string := "userdata_gsi"

  /** True iff none of the events writes or removes path. */
  predicate Untouched(events: seq<FileEvent>, path: string)
  {
    forall i :: 0 <= i < |events| ==> events[i].path != path
  }

  /** Events that never touch a path leave it as it was. */
  lemma {:induction false} UntouchedKept(files: map<string, string>, events: seq<FileEvent>, path: string)
    requires Untouched(events, path)
    ensures (path in Apply(files, events)) == (path in files)
    ensures path in files ==> Apply(files, events)[path] == files[path]
    decreases |events|
  {
    if events != [] {
      var f := match events[0]
        case Wrote(p, c) => files[p := c]
        case Removed(p) => files - {p};
      assert Untouched(events[1..], path) by {
        forall i | 0 <= i < |events[1..]| ensures events[1..][i].path != path {
          assert events[1..][i] == events[i + 1];
        }
      }
      UntouchedKept(f, events[1..], path);
    }
  }

  /** The file-system events of SetBootMode when it succeeds. */
  function BootModeEvents(oneShot: bool, oneShotPresent: bool): seq<FileEvent>
  {
    if oneShot then [Wrote(OneShotBootFile, "1")]
    else if oneShotPresent then [Removed(OneShotBootFile)]
    else []
  }

  /** SetBootMode: one-shot writes the one-shot marker, persistent removes it if present. */
  method SetBootMode(disk: Disk, oneShot: bool) returns (ok: bool)
    modifies disk`files, disk`journal
    ensures ok == if oneShot then FileWrite(OneShotBootFile) !in disk.faults
                  else OneShotBootFile !in old(disk.files) || FileRemove(OneShotBootFile) !in disk.faults
    ensures disk.journal == old(disk.journal) + (if ok then BootModeEvents(oneShot, OneShotBootFile in old(disk.files)) else [])
    ensures disk.files == Apply(old(disk.files), disk.journal[|old(disk.journal)|..])
    ensures ok ==> (oneShot <==> OneShotBootFile in disk.files)
    ensures ok && oneShot ==> disk.files[OneShotBootFile] == "1"
  {
    if oneShot {
      ok := disk.WriteFile(OneShotBootFile, "1");
    } else if disk.Exists(OneShotBootFile) {
      ok := disk.RemoveFileIfExists(OneShotBootFile);
    } else {
      ok := true;
    }
    assert disk.journal[|old(disk.journal)|..] == if ok then BootModeEvents(oneShot, OneShotBootFile in old(disk.files)) else [];
  }

  /** CreateInstallStatusFile: the boot indicator, holding a boot-attempt count of 0. */
  method CreateInstallStatusFile(disk: Disk) returns (ok: bool)
    modifies disk`files, disk`journal
    ensures ok == (FileWrite(InstallStatusFile) !in disk.faults)
    ensures disk.journal == old(disk.journal) + (if ok then [Wrote(InstallStatusFile, "0")] else [])
    ensures disk.files == Apply(old(disk.files), disk.journal[|old(disk.journal)|..])
    ensures ok ==> InstallStatusFile in disk.files && disk.files[InstallStatusFile] == "0"
  {
    ok := disk.WriteFile(InstallStatusFile, "0");
    assert disk.journal[|old(disk.journal)|..] == if ok then [Wrote(InstallStatusFile, "0")] else [];
  }

  /** The events of a successful activation: the recorded directory, the boot
      mode and, last, the boot indicator. */
  function ActivationEvents(installDir: string, oneShot: bool, oneShotPresent: bool): seq<FileEvent>
  {
    [Wrote(InstallDirFile, installDir)] + EnableEvents(oneShot, oneShotPresent)
  }

  /** A crash at any point of an activation before its last write leaves the
      boot indicator exactly as it was: an install that did not exist is still
      reported as not installed. */
  lemma CrashBeforeIndicatorKeepsState(files: map<string, string>, installDir: string, oneShot: bool,
                                       oneShotPresent: bool, k: nat)
    requires k < |ActivationEvents(installDir, oneShot, oneShotPresent)|
    ensures var crashed := Apply(files, ActivationEvents(installDir, oneShot, oneShotPresent)[..k]);
      && (InstallStatusFile in crashed <==> InstallStatusFile in files)
      && (InstallStatusFile in files ==> crashed[InstallStatusFile] == files[InstallStatusFile])
  {
    var evs := ActivationEvents(installDir, oneShot, oneShotPresent);
    assert Untouched(evs[..k], InstallStatusFile) by {
      forall i | 0 <= i < k ensures evs[..k][i].path != InstallStatusFile {
        assert evs[..k][i] == evs[i];
      }
    }
    UntouchedKept(files, evs[..k], InstallStatusFile);
  }

  /** The marker writes of GsiInstaller::SetGsiBootable: the directory, the
      boot mode and, last, the boot indicator, stopping at the first failure.
      What reached the file system is always a prefix of the activation, and
      the boot indicator changes only when the whole activation did. */
  method WriteActivation(disk: Disk, installDir: string, oneShot: bool) returns (ok: bool)
    modifies disk`files, disk`journal
    ensures var events := ActivationEvents(installDir, oneShot, OneShotBootFile in old(disk.files));
      && old(disk.journal) <= disk.journal
      && disk.journal[|old(disk.journal)|..] <= events
      && disk.files == Apply(old(disk.files), disk.journal[|old(disk.journal)|..])
      && (ok <==> disk.journal == old(disk.journal) + events)
    ensures ok ==
              (FileWrite(InstallDirFile) !in disk.faults
               && (if oneShot then FileWrite(OneShotBootFile) !in disk.faults
                   else OneShotBootFile !in old(disk.files) || FileRemove(OneShotBootFile) !in disk.faults)
               && FileWrite(InstallStatusFile) !in disk.faults)
    ensures ok ==> InstallStatusFile in disk.files && disk.files[InstallStatusFile] == "0"
    ensures !ok ==> (InstallStatusFile in disk.files <==> InstallStatusFile in old(disk.files))
    ensures !ok && InstallStatusFile in old(disk.files) ==> disk.files[InstallStatusFile] == old(disk.files)[InstallStatusFile]
  {
    ghost var j0 := disk.journal;
    ghost var f0 := disk.files;
    ghost var record := Wrote(InstallDirFile, installDir);
    ok := disk.WriteFile(InstallDirFile, installDir);
    if ok {
      assert InstallDirFile != InstallStatusFile && InstallDirFile != OneShotBootFile;
      ghost var j1 := disk.journal;
      assert disk.files == Apply(f0, [record]);
      ok := EnableBootMode(disk, oneShot);
      ghost var rest := disk.journal[|j1|..];
      assert disk.journal[|j0|..] == [record] + rest;
      ApplyAppend(f0, [record], rest);
    } else {
      assert disk.journal[|j0|..] == [];
    }
  }

  /** Completing the activation creates the boot indicator. */
  lemma ActivationInstalls(files: map<string, string>, installDir: string, oneShot: bool, oneShotPresent: bool)
    ensures var done := Apply(files, ActivationEvents(installDir, oneShot, oneShotPresent));
      InstallStatusFile in done && done[InstallStatusFile] == "0"
  {
    var evs := ActivationEvents(installDir, oneShot, oneShotPresent);
    var n := |evs| - 1;
    assert evs == evs[..n] + [evs[n]];
    ApplyAppend(files, evs[..n], [evs[n]]);
  }

  /** The events of enabling an existing install: the boot mode, then the boot indicator. */
  function EnableEvents(oneShot: bool, oneShotPresent: bool): seq<FileEvent>
  {
    BootModeEvents(oneShot, oneShotPresent) + [Wrote(InstallStatusFile, "0")]
  }

  /** `SetBootMode(one_shot) && CreateInstallStatusFile()`, as the service's
      enableGsi and ReenableGsi (and the installer's ReenableGsi) write it:
      the boot indicator comes last, so a failure leaves it as it was. */
  method EnableBootMode(disk: Disk, oneShot: bool) returns (ok: bool)
    modifies disk`files, disk`journal
    ensures var events := EnableEvents(oneShot, OneShotBootFile in old(disk.files));
      && old(disk.journal) <= disk.journal
      && disk.journal[|old(disk.journal)|..] <= events
      && disk.files == Apply(old(disk.files), disk.journal[|old(disk.journal)|..])
      && (ok <==> disk.journal == old(disk.journal) + events)
    ensures ok ==
              ((if oneShot then FileWrite(OneShotBootFile) !in disk.faults
                else OneShotBootFile !in old(disk.files) || FileRemove(OneShotBootFile) !in disk.faults)
               && FileWrite(InstallStatusFile) !in disk.faults)
    ensures ok ==> InstallStatusFile in disk.files && disk.files[InstallStatusFile] == "0"
    ensures !ok ==> (InstallStatusFile in disk.files <==> InstallStatusFile in old(disk.files))
    ensures !ok && InstallStatusFile in old(disk.files) ==> disk.files[InstallStatusFile] == old(disk.files)[InstallStatusFile]
  {
    ghost var present := OneShotBootFile in disk.files;
    ghost var events := EnableEvents(oneShot, present);
    ghost var modeEvents := BootModeEvents(oneShot, present);
    ghost var j0 := disk.journal;
    ghost var f0 := disk.files;
    ok := SetBootMode(disk, oneShot);
    if !ok {
      assert disk.journal[|j0|..] == [] == events[..0];
      return;
    }
    assert disk.journal[|j0|..] == modeEvents == events[..|modeEvents|];
    ghost var j1 := disk.journal;
    ghost var f1 := disk.files;
    ok := CreateInstallStatusFile(disk);
    if !ok {
      assert Untouched(modeEvents, InstallStatusFile);
      UntouchedKept(f0, modeEvents, InstallStatusFile);
      return;
    }
    assert disk.journal[|j0|..] == events;
    ApplyAppend(f0, modeEvents, [Wrote(InstallStatusFile, "0")]);
  }
}
