/** The persistent state the install lifecycle works on: marker files, the
    backing images kept by the image manager (libfiemap's ImageManager, a
    collaborator whose bodies are outside this model) and block devices
    mapped from those images.  Every primitive can fail; whether it does is
    decided by the disk's fixed set of injected faults. */
module Storage {
  import opened Common

  /** One failing primitive: the operation and the path, image or directory it is applied to. */
  datatype Fault =
    | FileWrite(path: string)
    | FileRemove(path: string)
    | ManagerOpen(dir: string)
    | ImageCreate(name: string)
    | ImageDelete(name: string)
    | ImageMap(name: string)
    | ImageUnmap(name: string)
    | DeviceWrite(name: string)
    | DeviceSync(name: string)

  /** A backing image: whether its partition entry exists in the image
      manager's partition table, whether it is mapped to a block device,
      whether it was created read-only, and its bytes. */
  datatype Image = Image(partition: bool, mapped: bool, readOnly: bool, data: seq<byte>)

  /** A marker-file operation that reached the file system. */
  datatype FileEvent = Wrote(path: string, content: string) | Removed(path: string)

  /** The marker files that result from applying events in order. */
  function Apply(files: map<string, string>, events: seq<FileEvent>): map<string, string>
    decreases |events|
  {
    if events == [] then files
    else
      var f := match events[0]
        case Wrote(p, c) => files[p := c]
        case Removed(p) => files - {p};
      Apply(f, events[1..])
  }

  lemma {:induction false} ApplyAppend(files: map<string, string>, a: seq<FileEvent>, b: seq<FileEvent>)
    ensures Apply(files, a + b) == Apply(Apply(files, a), b)
    decreases |a|
  {
    if a == [] {
      assert a + b == b;
    } else {
      assert (a + b)[1..] == a[1..] + b;
      var f := match a[0]
        case Wrote(p, c) => files[p := c]
        case Removed(p) => files - {p};
      ApplyAppend(f, a[1..], b);
    }
  }

  /** Overwrites data at offset pos with chunk. */
  function Splice(data: seq<byte>, pos: nat, chunk: seq<byte>): (r: seq<byte>)
    requires pos + |chunk| <= |data|
    ensures |r| == |data|
    ensures r[..pos] == data[..pos]
    ensures r[pos..pos + |chunk|] == chunk
    ensures r[pos + |chunk|..] == data[pos + |chunk|..]
  {
    data[..pos] + chunk + data[pos + |chunk|..]
  }

  /** Two consecutive writes are one write of the concatenated chunks. */
  lemma SpliceTwice(data: seq<byte>, pos: nat, a: seq<byte>, b: seq<byte>)
    requires pos + |a| + |b| <= |data|
    ensures Splice(Splice(data, pos, a), pos + |a|, b) == Splice(data, pos, a + b)
  {
    var s1 := Splice(data, pos, a);
    var s2 := Splice(s1, pos + |a|, b);
    var t := Splice(data, pos, a + b);
    assert s2[..pos] == s1[..pos][..pos];
    forall i | 0 <= i < |data|
      ensures s2[i] == t[i]
    {
      if i < pos {
        assert s2[i] == s2[..pos][i] && s1[i] == s1[..pos][i] && t[i] == t[..pos][i];
      } else if i < pos + |a| {
        assert s2[i] == s2[..pos + |a|][i] == s1[..pos + |a|][i];
        assert s1[i] == s1[pos..pos + |a|][i - pos] == a[i - pos];
        assert t[i] == t[pos..pos + |a| + |b|][i - pos] == (a + b)[i - pos];
      } else if i < pos + |a| + |b| {
        assert s2[i] == s2[pos + |a|..pos + |a| + |b|][i - pos - |a|] == b[i - pos - |a|];
        assert t[i] == t[pos..pos + |a| + |b|][i - pos] == (a + b)[i - pos];
      } else {
        assert s2[i] == s2[pos + |a| + |b|..][i - pos - |a| - |b|];
        assert s1[i] == s1[pos + |a| + |b|..][i - pos - |a| - |b|];
        assert s1[i] == s1[pos + |a|..][i - pos - |a|];
        assert data[i] == data[pos + |a|..][i - pos - |a|];
        assert t[i] == t[pos + |a| + |b|..][i - pos - |a| - |b|];
      }
    }
  }

  class Disk {
    /** Marker files and their contents. */
    var files: map<string, string>
    /** Every marker-file operation that reached the file system, in order. */
    var journal: seq<FileEvent>
    /** Backing images by name; a name is present iff its backing image exists. */
    var images: map<string, Image>
    /** The primitives that fail. */
    const faults: set<Fault>
    /** Whether every backing image still has pinned extents (ImageManager::Validate). */
    const pinned: bool

    constructor (files0: map<string, string>, images0: map<string, Image>, faults0: set<Fault>, pinned0: bool)
      ensures files == files0 && images == images0 && journal == []
      ensures faults == faults0 && pinned == pinned0
    {
      files, images, journal := files0, images0, [];
      faults, pinned := faults0, pinned0;
    }

    predicate Exists(path: string)
      reads this
    {
      path in files
    }

    /** ReadFileToString: the content, or None when the file is absent. */
    function Read(path: string): (r: Option<string>)
      reads this
      ensures r.Some? <==> path in files
      ensures r.Some? ==> r.value == files[path]
    {
      if path in files then Some(files[path]) else None
    }

    /** WriteStringToFile. */
    method WriteFile(path: string, content: string) returns (ok: bool)
      modifies this`files, this`journal
      ensures ok == (FileWrite(path) !in faults)
      ensures files == if ok then old(files)[path := content] else old(files)
      ensures journal == if ok then old(journal) + [Wrote(path, content)] else old(journal)
    {
      ok := FileWrite(path) !in faults;
      if ok {
        files := files[path := content];
        journal := journal + [Wrote(path, content)];
      }
    }

    /** RemoveFileIfExists: an absent file counts as removed. */
    method RemoveFileIfExists(path: string) returns (ok: bool)
      modifies this`files, this`journal
      ensures ok == (path !in old(files) || FileRemove(path) !in faults)
      ensures files == if ok then old(files) - {path} else old(files)
      ensures path !in old(files) ==> files == old(files)
      ensures journal == if ok && path in old(files) then old(journal) + [Removed(path)] else old(journal)
    {
      if path !in files {
        ok := true;
        assert files - {path} == files;
      } else {
        ok := FileRemove(path) !in faults;
        if ok {
          files := files - {path};
          journal := journal + [Removed(path)];
        }
      }
    }

    /** ImageManager::Open for a data directory succeeds. */
    predicate ManagerOpens(dir: string)
    {
      ManagerOpen(dir) !in faults
    }

    predicate BackingImageExists(name: string)
      reads this
    {
      name in images
    }

    predicate PartitionExists(name: string)
      reads this
    {
      name in images && images[name].partition
    }

    predicate IsImageMapped(name: string)
      reads this
    {
      name in images && images[name].mapped
    }

    /** ImageManager::CreateBackingImage: allocates a zero-filled image and its partition entry. */
    method CreateBackingImage(name: string, size: nat, readOnly: bool) returns (ok: bool)
      modifies this`images
      ensures ok == (name !in old(images) && ImageCreate(name) !in faults)
      ensures images == if ok then old(images)[name := Image(true, false, readOnly, Zeros(size))] else old(images)
    {
      ok := name !in images && ImageCreate(name) !in faults;
      if ok {
        images := images[name := Image(true, false, readOnly, Zeros(size))];
      }
    }

    /** ImageManager::DeleteBackingImage: removes the image and its partition entry. */
    method DeleteBackingImage(name: string) returns (ok: bool)
      modifies this`images
      ensures ok == (name !in old(images) || ImageDelete(name) !in faults)
      ensures images == if ok then old(images) - {name} else old(images)
    {
      if name !in images {
        ok := true;
        assert images - {name} == images;
      } else {
        ok := ImageDelete(name) !in faults;
        if ok {
          images := images - {name};
        }
      }
    }

    /** ImageManager::UnmapImageDevice. */
    method UnmapImageDevice(name: string) returns (ok: bool)
      modifies this`images
      ensures ok == (ImageUnmap(name) !in faults)
      ensures images == if ok && name in old(images) then old(images)[name := old(images)[name].(mapped := false)] else old(images)
    {
      ok := ImageUnmap(name) !in faults;
      if ok && name in images {
        images := images[name := images[name].(mapped := false)];
      }
    }

    /** MappedDevice::Open: maps the image (10 s timeout) and opens the node at offset 0. */
    method OpenDevice(name: string) returns (dev: MappedDevice?)
      modifies this`images
      ensures (dev != null) == (name in old(images) && ImageMap(name) !in faults)
      ensures dev != null ==> fresh(dev) && dev.disk == this && dev.name == name && dev.pos == 0
      ensures images == if dev != null then old(images)[name := old(images)[name].(mapped := true)] else old(images)
    {
      if name in images && ImageMap(name) !in faults {
        images := images[name := images[name].(mapped := true)];
        dev := new MappedDevice(this, name);
      } else {
        dev := null;
      }
    }

    /** A write of chunk at offset pos of the mapped image (WriteFully on its node). */
    method WriteImage(name: string, pos: nat, chunk: seq<byte>) returns (ok: bool)
      modifies this`images
      ensures ok == (name in old(images) && DeviceWrite(name) !in faults && pos + |chunk| <= |old(images)[name].data|)
      ensures images == if ok then old(images)[name := old(images)[name].(data := Splice(old(images)[name].data, pos, chunk))] else old(images)
    {
      ok := name in images && DeviceWrite(name) !in faults && pos + |chunk| <= |images[name].data|;
      if ok {
        images := images[name := images[name].(data := Splice(images[name].data, pos, chunk))];
      }
    }
  }

  /** An open block device node of a mapped image, with its current file offset. */
  class MappedDevice {
    const disk: Disk
    const name: string
    var pos: nat

    constructor (disk0: Disk, name0: string)
      ensures disk == disk0 && name == name0 && pos == 0
    {
      disk, name, pos := disk0, name0, 0;
    }

    /** get_block_device_size: the size of the image behind the node. */
    function Size(): nat
      reads disk
    {
      if name in disk.images then |disk.images[name].data| else 0
    }

    /** WriteFully at the current offset: nothing to write succeeds at once; a
        failed write is modelled as writing nothing. */
    method Write(chunk: seq<byte>) returns (ok: bool)
      modifies this`pos, disk`images
      ensures ok == (|chunk| == 0 || (name in old(disk.images) && DeviceWrite(name) !in disk.faults
                                      && old(pos) + |chunk| <= |old(disk.images)[name].data|))
      ensures pos == if ok then old(pos) + |chunk| else old(pos)
      ensures disk.images == if ok && |chunk| > 0 then old(disk.images)[name := old(disk.images)[name].(data := Splice(old(disk.images)[name].data, old(pos), chunk))] else old(disk.images)
    {
      if |chunk| == 0 {
        return true;
      }
      ok := disk.WriteImage(name, pos, chunk);
      if ok {
        pos := pos + |chunk|;
      }
    }

    /** ~MappedDevice: releasing the handle closes the node and unmaps the
        image (ImageManager::UnmapImageDevice); a failed unmap leaves it mapped. */
    method Close()
      modifies disk`images
      ensures disk.images == if ImageUnmap(name) !in disk.faults && name in old(disk.images)
                             then old(disk.images)[name := old(disk.images)[name].(mapped := false)]
                             else old(disk.images)
    {
      var _ := disk.UnmapImageDevice(name);
    }

    /** fsync on the node. */
    method Fsync() returns (ok: bool)
      ensures ok == (DeviceSync(name) !in disk.faults)
    {
      ok := DeviceSync(name) !in disk.faults;
    }
  }
}
