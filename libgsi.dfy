/** The boot-marker queries and updates of libgsi: whether a GSI is running
    or installed, the first-stage boot decision, uninstalling and marking
    the running system as a GSI. */
module LibGsi {
  import opened Common
  import opened Storage
  import opened Markers

  /** IsGsiRunning: the booted indicator exists. */
  predicate IsGsiRunning(disk: Disk)
    reads disk
    ensures IsGsiRunning(disk) <==> BootedIndicatorFile in disk.files
  {
    disk.Exists(BootedIndicatorFile)
  }

  /** IsGsiInstalled: the boot indicator exists. */
  predicate IsGsiInstalled(disk: Disk)
    reads disk
    ensures IsGsiInstalled(disk) <==> InstallStatusFile in disk.files
  {
    disk.Exists(InstallStatusFile)
  }

  /** The static CanBootIntoGsi(error): None when an install exists, else the error text. */
  function BootRefusal(disk: Disk): (error: Option<string>)
    reads disk
    ensures error.None? <==> IsGsiInstalled(disk)
    ensures error.Some? ==> error.value == "not detected"
  {
    if !IsGsiInstalled(disk) then Some("not detected") else None
  }

  /** CanBootIntoGsi(metadata_file, error): always drops the booted indicator;
      without an install it drops the boot indicator too and reports
      "not detected", otherwise it hands out the partition-table path.  The
      out-parameters keep their incoming values where the source leaves them. */
  method CanBootIntoGsi(disk: Disk, metadataIn: string, errorIn: string)
    returns (ok: bool, metadataFile: string, error: string)
    modifies disk`files, disk`journal
    ensures ok == old(IsGsiInstalled(disk))
    ensures FileRemove(BootedIndicatorFile) !in disk.faults ==> !IsGsiRunning(disk)
    ensures ok ==> metadataFile == LpMetadataFile && error == errorIn && IsGsiInstalled(disk)
    ensures !ok ==> metadataFile == metadataIn && error == "not detected" && !IsGsiInstalled(disk)
    ensures disk.files == if FileRemove(BootedIndicatorFile) in disk.faults then old(disk.files)
                          else old(disk.files) - {BootedIndicatorFile}
  {
    var _ := disk.RemoveFileIfExists(BootedIndicatorFile);
    var refusal := BootRefusal(disk);
    if refusal.Some? {
      error := refusal.value;
      var _ := disk.RemoveFileIfExists(InstallStatusFile);
      ok, metadataFile := false, metadataIn;
      return;
    }
    ok, metadataFile, error := true, LpMetadataFile, errorIn;
  }

  /** UninstallGsi: removes the boot indicator; an absent one counts as removed. */
  method UninstallGsi(disk: Disk) returns (ok: bool)
    modifies disk`files, disk`journal
    ensures ok == (!old(IsGsiInstalled(disk)) || FileRemove(InstallStatusFile) !in disk.faults)
    ensures ok ==> !IsGsiInstalled(disk) && disk.files == old(disk.files) - {InstallStatusFile}
    ensures !ok ==> disk.files == old(disk.files)
  {
    ok := disk.RemoveFileIfExists(InstallStatusFile);
  }

  /** MarkSystemAsGsi: writes "1" into the booted indicator. */
  method MarkSystemAsGsi(disk: Disk) returns (ok: bool)
    modifies disk`files, disk`journal
    ensures ok == (FileWrite(BootedIndicatorFile) !in disk.faults)
    ensures ok ==> IsGsiRunning(disk) && disk.files == old(disk.files)[BootedIndicatorFile := "1"]
    ensures !ok ==> disk.files == old(disk.files)
  {
    ok := disk.WriteFile(BootedIndicatorFile, "1");
  }

  /** GetInstallStatus: the content of the boot indicator, if it exists. */
  function GetInstallStatus(disk: Disk): (r: Option<string>)
    reads disk
    ensures r.Some? <==> IsGsiInstalled(disk)
  {
    disk.Read(InstallStatusFile)
  }

  /** DisableGsi: keeps the install but marks it disabled. */
  method DisableGsi(disk: Disk) returns (ok: bool)
    modifies disk`files, disk`journal
    ensures ok == (FileWrite(InstallStatusFile) !in disk.faults)
    ensures disk.files == if ok then old(disk.files)[InstallStatusFile := StatusDisabled] else old(disk.files)
  {
    ok := disk.WriteFile(InstallStatusFile, StatusDisabled);
  }

  /** GetBootAttempts: the boot indicator holds a decimal boot-attempt count. */
  function BootAttempts(key: string): (r: Option<nat>)
    ensures r.Some? <==> key != [] && forall i :: 0 <= i < |key| ==> IsDigit(key[i])
  {
    if key != [] && forall i :: 0 <= i < |key| ==> IsDigit(key[i]) then Some(DigitsValue(key)) else None
  }

  /** The status words are not boot-attempt counts, while a freshly created indicator is one. */
  lemma StatusWordsAreNotCounts()
    ensures BootAttempts(StatusOk).None? && BootAttempts(StatusDisabled).None? && BootAttempts(StatusWipe).None?
    ensures BootAttempts("0") == Some(0)
  {
    assert !IsDigit(StatusOk[0]) && !IsDigit(StatusDisabled[0]) && !IsDigit(StatusWipe[0]);
    assert "0"[..0] == [];
  }
}
