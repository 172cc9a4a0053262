/** Removal of an installation (GsiService::RemoveGsiFiles) and the two
    queries about installed directories it is used with.  Both the service
    and the installer's failure path remove installations, so they share it. */
module Cleanup {
  import opened Common
  import opened Storage
  import opened Markers
  import opened Paths

  /** GsiService::GetInstalledImageDir: the recorded directory, else the default folder. */
  function GetInstalledImageDir(disk: Disk): (dir: string)
    reads disk
    ensures dir == if InstallDirFile in disk.files then disk.files[InstallDirFile] else DefaultImageFolder
  {
    disk.Read(InstallDirFile).GetOr(DefaultImageFolder)
  }

  /** GsiService::IsInstallationComplete: the completion marker holds exactly "OK". */
  function IsInstallationComplete(disk: Disk, installDir: string): (complete: bool)
    reads disk
    ensures complete <==> var marker := GetCompleteIndication(installDir);
                          marker in disk.files && disk.files[marker] == "OK"
  {
    match disk.Read(GetCompleteIndication(installDir))
    case None => false
    case Some(content) => content == "OK"
  }

  /** The images a removal works on: those whose name ends in "_gsi", sparing
      userdata_gsi unless it is to be wiped. */
  function Targets(images: map<string, Image>, wipeUserdata: bool): (t: set<string>)
    ensures t <= images.Keys
    ensures forall n :: n in t <==> n in images && EndsWith(n, "_gsi") && (wipeUserdata || n != UserdataGsi)
  {
    set n | n in images && EndsWith(n, "_gsi") && (wipeUserdata || n != UserdataGsi)
  }

  /** The image map once every name in done has been unmapped (if mapped) and deleted. */
  function AfterImageRemoval(images: map<string, Image>, done: set<string>, faults: set<Fault>): (r: map<string, Image>)
    ensures forall n :: n in images && n !in done ==> n in r && r[n] == images[n]
    ensures forall n :: n in done ==> (n in r <==> n in images && ImageDelete(n) in faults)
    ensures r.Keys <= images.Keys
  {
    map n | n in images && !(n in done && ImageDelete(n) !in faults) ::
      if n in done && images[n].mapped && ImageUnmap(n) !in faults then images[n].(mapped := false) else images[n]
  }

  /** Every unmap and delete of the names in done succeeds. */
  predicate ImagesRemovable(images: map<string, Image>, done: set<string>, faults: set<Fault>)
  {
    forall n :: n in done && n in images ==> (images[n].mapped ==> ImageUnmap(n) !in faults) && ImageDelete(n) !in faults
  }

  /** The marker files a removal deletes, in order. */
  function MarkerFiles(installDir: string): seq<string>
  {
    [InstallStatusFile, OneShotBootFile, InstallDirFile, GetCompleteIndication(installDir)]
  }

  /** The files that remain once each of paths has been removed where no fault prevents it. */
  function AfterFileRemoval(files: map<string, string>, paths: seq<string>, faults: set<Fault>): (r: map<string, string>)
    ensures forall f :: f in files && f !in paths ==> f in r && r[f] == files[f]
    ensures forall f :: f in paths ==> (f in r <==> f in files && FileRemove(f) in faults)
    ensures r.Keys <= files.Keys
  {
    map f | f in files && !(f in paths && FileRemove(f) !in faults) :: files[f]
  }

  /** One image of the loop: unmapped if mapped (where that succeeds), then deleted (where that succeeds). */
  function RemoveOne(images: map<string, Image>, name: string, faults: set<Fault>): map<string, Image>
    requires name in images
  {
    var unmapped := if images[name].mapped && ImageUnmap(name) !in faults then images[name := images[name].(mapped := false)] else images;
    if ImageDelete(name) !in faults then unmapped - {name} else unmapped
  }

  lemma RemovalStep(orig: map<string, Image>, done: set<string>, name: string, faults: set<Fault>)
    requires name in orig && name !in done
    ensures name in AfterImageRemoval(orig, done, faults)
    ensures AfterImageRemoval(orig, done + {name}, faults) == RemoveOne(AfterImageRemoval(orig, done, faults), name, faults)
    ensures ImagesRemovable(orig, done + {name}, faults)
            == (ImagesRemovable(orig, done, faults) && (orig[name].mapped ==> ImageUnmap(name) !in faults) && ImageDelete(name) !in faults)
  {
    var cur := AfterImageRemoval(orig, done, faults);
    var a := AfterImageRemoval(orig, done + {name}, faults);
    var b := RemoveOne(cur, name, faults);
    assert cur[name] == orig[name];
    assert a.Keys == b.Keys;
    forall n | n in a ensures a[n] == b[n] {
      if n != name {
        assert a[n] == cur[n];
      }
    }
  }

  /** The image loop of RemoveGsiFiles: unmap (if mapped) and delete each target. */
  method RemoveImages(disk: Disk, targets: set<string>) returns (ok: bool)
    requires targets <= disk.images.Keys
    modifies disk`images
    ensures disk.images == AfterImageRemoval(old(disk.images), targets, disk.faults)
    ensures ok == ImagesRemovable(old(disk.images), targets, disk.faults)
  {
    ok := true;
    var todo := targets;
    assert AfterImageRemoval(disk.images, {}, disk.faults) == disk.images;
    while todo != {}
      invariant todo <= targets
      invariant disk.images == AfterImageRemoval(old(disk.images), targets - todo, disk.faults)
      invariant ok == ImagesRemovable(old(disk.images), targets - todo, disk.faults)
      decreases |todo|
    {
      var name :| name in todo;
      var done := targets - todo;
      RemovalStep(old(disk.images), done, name, disk.faults);
      ghost var before := disk.images;
      if disk.IsImageMapped(name) {
        var unmapped := disk.UnmapImageDevice(name);
        ok := ok && unmapped;
      }
      var deleted := disk.DeleteBackingImage(name);
      ok := ok && deleted;
      assert disk.images == RemoveOne(before, name, disk.faults);
      todo := todo - {name};
      assert targets - todo == done + {name};
    }
    assert targets - todo == targets;
  }

  /** Removing one more path continues the removal of those before it; the
      path is missing from the files so far exactly when it was missing at
      the start or was already removed. */
  lemma FileRemovalStep(files: map<string, string>, paths: seq<string>, i: nat, faults: set<Fault>)
    requires i < |paths|
    ensures var cur := AfterFileRemoval(files, paths[..i], faults);
      && AfterFileRemoval(files, paths[..i + 1], faults) == (if FileRemove(paths[i]) !in faults then cur - {paths[i]} else cur)
      && ((paths[i] !in cur || FileRemove(paths[i]) !in faults) == (paths[i] !in files || FileRemove(paths[i]) !in faults))
  {
    assert paths[..i + 1] == paths[..i] + [paths[i]];
  }

  /** The marker loop of RemoveGsiFiles: every path is attempted, whatever failed before. */
  method RemoveMarkers(disk: Disk, paths: seq<string>) returns (ok: bool)
    modifies disk`files, disk`journal
    ensures disk.files == AfterFileRemoval(old(disk.files), paths, disk.faults)
    ensures ok == forall j :: 0 <= j < |paths| ==> paths[j] !in old(disk.files) || FileRemove(paths[j]) !in disk.faults
  {
    ok := true;
    assert disk.files == AfterFileRemoval(old(disk.files), paths[..0], disk.faults);
    for i := 0 to |paths|
      invariant disk.files == AfterFileRemoval(old(disk.files), paths[..i], disk.faults)
      invariant ok == forall j :: 0 <= j < i ==> paths[j] !in old(disk.files) || FileRemove(paths[j]) !in disk.faults
    {
      FileRemovalStep(old(disk.files), paths, i, disk.faults);
      var removed := disk.RemoveFileIfExists(paths[i]);
      if !removed {
        ok := false;
      }
    }
    assert paths[..|paths|] == paths;
  }

  /** GsiService::RemoveGsiFiles(install_dir), with the flag of the installer's
      failure path: only when the image manager opens, every "_gsi" image is
      unmapped if mapped and deleted; then all four markers are removed,
      whatever failed before; the result is the conjunction of every step. */
  method RemoveGsiFiles(disk: Disk, installDir: string, wipeUserdata: bool) returns (ok: bool)
    modifies disk`images, disk`files, disk`journal
    ensures disk.images == if disk.ManagerOpens(installDir)
                           then AfterImageRemoval(old(disk.images), Targets(old(disk.images), wipeUserdata), disk.faults)
                           else old(disk.images)
    ensures disk.files == AfterFileRemoval(old(disk.files), MarkerFiles(installDir), disk.faults)
    ensures ok == ((disk.ManagerOpens(installDir) ==> ImagesRemovable(old(disk.images), Targets(old(disk.images), wipeUserdata), disk.faults))
                   && forall i :: 0 <= i < 4 ==> MarkerFiles(installDir)[i] !in old(disk.files) || FileRemove(MarkerFiles(installDir)[i]) !in disk.faults)
  {
    ok := true;
    if disk.ManagerOpens(installDir) {
      ok := RemoveImages(disk, Targets(disk.images, wipeUserdata));
    }
    var filesOk := RemoveMarkers(disk, MarkerFiles(installDir));
    ok := ok && filesOk;
  }

  /** Running the removal again under the same faults changes nothing
      further, and it succeeds exactly when the first run left no target
      image and no marker file behind, which a successful first run does. */
  lemma {:induction false} RemovalIdempotent(images: map<string, Image>, files: map<string, string>, installDir: string,
                                             wipeUserdata: bool, faults: set<Fault>)
    ensures var once := AfterImageRemoval(images, Targets(images, wipeUserdata), faults);
      && AfterImageRemoval(once, Targets(once, wipeUserdata), faults) == once
      && (ImagesRemovable(once, Targets(once, wipeUserdata), faults) <==> Targets(once, wipeUserdata) == {})
      && (ImagesRemovable(images, Targets(images, wipeUserdata), faults) ==> Targets(once, wipeUserdata) == {})
    ensures var once := AfterFileRemoval(files, MarkerFiles(installDir), faults);
      && AfterFileRemoval(once, MarkerFiles(installDir), faults) == once
      && ((forall i :: 0 <= i < 4 ==> MarkerFiles(installDir)[i] !in once || FileRemove(MarkerFiles(installDir)[i]) !in faults)
          <==> (forall i :: 0 <= i < 4 ==> MarkerFiles(installDir)[i] !in once))
      && ((forall i :: 0 <= i < 4 ==> MarkerFiles(installDir)[i] !in files || FileRemove(MarkerFiles(installDir)[i]) !in faults)
          ==> (forall i :: 0 <= i < 4 ==> MarkerFiles(installDir)[i] !in once))
  {
    var t := Targets(images, wipeUserdata);
    var once := AfterImageRemoval(images, t, faults);
    var t2 := Targets(once, wipeUserdata);
    var twice := AfterImageRemoval(once, t2, faults);
    assert t2 <= t;
    forall n | n in once
      ensures n in twice && twice[n] == once[n]
    {
      if n in t2 {
        assert n in t && ImageDelete(n) in faults;
        if once[n].mapped {
          assert images[n].mapped && ImageUnmap(n) in faults;
        }
      }
    }
    assert twice == once;
    var fonce := AfterFileRemoval(files, MarkerFiles(installDir), faults);
    assert AfterFileRemoval(fonce, MarkerFiles(installDir), faults) == fonce;
  }
}
