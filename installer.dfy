/** One install session (GsiInstaller): space checks, preallocation of the
    system and userdata images, streaming of the system image under a byte
    budget, activation through the marker files, re-enabling, wiping, and
    the clean-up a session that did not succeed performs when it ends. */
module Installer {
  import opened Common
  import opened Storage
  import opened Stream
  import opened Progress
  import opened Markers
  import LibGsi
  import Cleanup

  /** The share of the file system that must stay free, in percent (kMinimumFreeSpaceThreshold). */
  const MinimumFreeSpaceThreshold: nat := 40

  /** How much of userdata_gsi a wipe overwrites (kEraseSize). */
  const EraseSize: nat := 1024 * 1024

  /** GsiInstallParams as the caller hands them over. */
  datatype GsiInstallParams = GsiInstallParams(installDir: string, gsiSize: int, userdataSize: int, wipeUserdata: bool)

  /** The statvfs fields the space check reads. */
  datatype FsStats = FsStats(bavail: nat, frsize: nat, blocks: nat)

  /** Free bytes (f_bavail * f_frsize) as a uint64_t. */
  function FreeSpace(sb: FsStats): nat
  {
    U64(sb.bavail * sb.frsize)
  }

  /** File-system size (f_blocks * f_frsize) as a uint64_t. */
  function FsSize(sb: FsStats): nat
  {
    U64(sb.blocks * sb.frsize)
  }

  /** Number of 4096-byte zero blocks WipeUserdata writes to a device of the given size. */
  function WipeBlocks(size: nat): nat
  {
    (Min(EraseSize, size) + BlockSize - 1) / BlockSize
  }

  /** The zero blocks cover the first min(1 MiB, size) bytes and overshoot them by less than a block. */
  lemma WipeBlocksCover(size: nat)
    ensures Min(EraseSize, size) <= WipeBlocks(size) * BlockSize < Min(EraseSize, size) + BlockSize
  {
    var e := Min(EraseSize, size);
    var q := (e + BlockSize - 1) / BlockSize;
    var r := (e + BlockSize - 1) % BlockSize;
    assert e + BlockSize - 1 == q * BlockSize + r;
  }

  /** The blocks fit the device exactly when it is at least 1 MiB or a
      multiple of the block size; otherwise the last block runs past its end. */
  lemma WipeFits(size: nat)
    ensures WipeBlocks(size) * BlockSize <= size <==> size >= EraseSize || size % BlockSize == 0
  {
    WipeBlocksCover(size);
    var q := size / BlockSize;
    var r := size % BlockSize;
    assert size == q * BlockSize + r;
    if size < EraseSize {
      if r == 0 {
        assert (size + BlockSize - 1) / BlockSize == q by {
          assert size + BlockSize - 1 == q * BlockSize + (BlockSize - 1);
        }
      } else {
        assert (size + BlockSize - 1) / BlockSize == q + 1 by {
          assert size + BlockSize - 1 == (q + 1) * BlockSize + (r - 1);
        }
        assert (q + 1) * BlockSize > size;
      }
    } else {
      assert WipeBlocks(size) == 256;
    }
  }

  /** The outcome of the shared-memory commit (CommitGsiChunk(size_t)) as
      the source writes it, for a request of `bytes` on a mapping of
      `mappingSize` bytes. */
  datatype AshmemOutcome = NotMapped | Refused | ReadsPastMapping | Commits

  /** CommitGsiChunk(size_t) as written: the mapping must exist, and the
      chunk must fit the image budget with no abort pending before it is
      written from the mapping; nothing compares the chunk with the size
      of the mapping it is read from. */
  function AshmemCommitAsWritten(mapped: bool, mappingSize: nat, bytes: int, gsiSize: int, written: nat,
                                 aborted: bool): (o: AshmemOutcome)
    ensures o == NotMapped <==> !mapped
    ensures o == Refused <==> mapped && (U64(bytes) > U64(gsiSize - written) || aborted)
  {
    if !mapped then NotMapped
    else if U64(bytes) > U64(gsiSize - written) || aborted then Refused
    else if U64(bytes) > mappingSize then ReadsPastMapping
    else Commits
  }

  /** Whenever the mapping is smaller than what the image still lacks, the
      as-written guard lets through a chunk of the whole remaining budget,
      which is read past the end of the mapping; the corrected commit
      (GsiInstaller.CommitGsiChunkFromAshmem) refuses exactly these. */
  lemma AshmemGuardAdmitsOverread(mappingSize: nat, gsiSize: int, written: nat)
    requires written <= gsiSize < TwoTo63 && mappingSize < gsiSize - written
    ensures AshmemCommitAsWritten(true, mappingSize, gsiSize - written, gsiSize, written, false) == ReadsPastMapping
    ensures forall bytes :: 0 <= bytes < TwoTo63 ==>
              (AshmemCommitAsWritten(true, mappingSize, bytes, gsiSize, written, false) == ReadsPastMapping
               <==> mappingSize < bytes <= gsiSize - written)
  {
    assert U64(gsiSize - written) == gsiSize - written;
  }

  /** The corrected commit (GsiInstaller.CommitGsiChunkFromAshmem) refuses
      exactly the over-reads: a request the as-written guard lets through
      stays within the mapping precisely when the corrected guard admits it. */
  lemma AshmemCorrectionRefusesOnlyOverread(mapped: bool, mappingSize: nat, bytes: int, gsiSize: int, written: nat,
                                            aborted: bool)
    requires written <= gsiSize < TwoTo63
    ensures AshmemCommitAsWritten(mapped, mappingSize, bytes, gsiSize, written, aborted) == Commits
            <==> mapped && U64(bytes) <= mappingSize && U64(bytes) <= gsiSize - written && !aborted
    ensures AshmemCommitAsWritten(mapped, mappingSize, bytes, gsiSize, written, aborted) == ReadsPastMapping
            <==> mapped && mappingSize < U64(bytes) <= gsiSize - written && !aborted
  {
    assert U64(gsiSize - written) == gsiSize - written;
  }

  /** Whether the reads of the streaming loop deliver all of `remaining`
      bytes: each read asks for at most a block of what remains and must
      deliver at least one byte. */
  predicate Delivers(schedule: seq<int>, pending: nat, remaining: nat)
    decreases remaining
  {
    remaining == 0
    || (var rv := ReadSize(schedule, Min(BlockSize, remaining), pending);
        0 < rv && Delivers(Rest(schedule), pending - rv, remaining - rv))
  }

  /** The byte counts the streaming loop asks for, one per read, as long as its reads deliver. */
  function Requests(schedule: seq<int>, pending: nat, remaining: nat): seq<nat>
    decreases remaining
  {
    if remaining == 0 then []
    else
      var rv := ReadSize(schedule, Min(BlockSize, remaining), pending);
      if rv <= 0 then [Min(BlockSize, remaining)]
      else [Min(BlockSize, remaining)] + Requests(Rest(schedule), pending - rv, remaining - rv)
  }

  /** The report after each delivering read: the image size less what of the chunk is still unread. */
  function StreamReports(gsiSize: int, schedule: seq<int>, pending: nat, remaining: nat): seq<GsiProgress>
    decreases remaining
  {
    if remaining == 0 then []
    else
      var rv := ReadSize(schedule, Min(BlockSize, remaining), pending);
      if rv <= 0 then []
      else [GsiProgress("write gsi", Working, gsiSize - (remaining - rv), gsiSize)]
           + StreamReports(gsiSize, Rest(schedule), pending - rv, remaining - rv)
  }

  /** A chunk the reads deliver never exceeds what the stream holds. */
  lemma {:induction false} DeliversWithinStream(schedule: seq<int>, pending: nat, remaining: nat)
    requires Delivers(schedule, pending, remaining)
    ensures remaining <= pending
    decreases remaining
  {
    if remaining > 0 {
      var rv := ReadSize(schedule, Min(BlockSize, remaining), pending);
      DeliversWithinStream(Rest(schedule), pending - rv, remaining - rv);
    }
  }

  /** Reports each above the one before it (the first above `low`), and none above `high`. */
  ghost predicate Climbs(r: seq<GsiProgress>, low: int, high: int)
    decreases |r|
  {
    |r| == 0 || (low < r[0].bytesProcessed <= high && Climbs(r[1..], r[0].bytesProcessed, high))
  }

  /** Climbing reports rise strictly and stay between `low` (excluded) and `high`. */
  lemma {:induction false} ClimbsRise(r: seq<GsiProgress>, low: int, high: int)
    requires Climbs(r, low, high)
    ensures forall i :: 0 <= i < |r| ==> low < r[i].bytesProcessed <= high
    ensures forall i, j :: 0 <= i < j < |r| ==> r[i].bytesProcessed < r[j].bytesProcessed
    decreases |r|
  {
    if |r| > 0 {
      var tail := r[1..];
      ClimbsRise(tail, r[0].bytesProcessed, high);
      forall i | 0 < i < |r|
        ensures r[i] == tail[i - 1]
      {
      }
    }
  }

  /** The reports climb strictly and stay above what the image lacked
      before the chunk. */
  lemma {:induction false} StreamReportsClimb(gsiSize: int, schedule: seq<int>, pending: nat, remaining: nat)
    ensures Climbs(StreamReports(gsiSize, schedule, pending, remaining), gsiSize - remaining, gsiSize)
    decreases remaining
  {
    var rv := ReadSize(schedule, Min(BlockSize, remaining), pending);
    if remaining == 0 || rv <= 0 {
      assert StreamReports(gsiSize, schedule, pending, remaining) == [];
    } else {
      StreamReportsClimb(gsiSize, Rest(schedule), pending - rv, remaining - rv);
      ReportsUnfold(gsiSize, schedule, pending, remaining, rv, Rest(schedule), pending - rv, remaining - rv);
      ClimbsCons(GsiProgress("write gsi", Working, gsiSize - (remaining - rv), gsiSize),
                 StreamReports(gsiSize, Rest(schedule), pending - rv, remaining - rv),
                 gsiSize - remaining, gsiSize - (remaining - rv), gsiSize);
    }
  }

  /** A report above `low` and at most `high`, followed by reports climbing from it, climbs from `low`. */
  lemma ClimbsCons(head: GsiProgress, tail: seq<GsiProgress>, low: int, mid: int, high: int)
    requires head.bytesProcessed == mid && low < mid <= high && Climbs(tail, mid, high)
    ensures Climbs([head] + tail, low, high)
  {
    assert ([head] + tail)[1..] == tail;
  }

  /** A delivered chunk is reported once per request and ends with the
      whole image reported. */
  lemma {:induction false} StreamReportsComplete(gsiSize: int, schedule: seq<int>, pending: nat, remaining: nat)
    requires Delivers(schedule, pending, remaining)
    ensures var r := StreamReports(gsiSize, schedule, pending, remaining);
      && |r| == |Requests(schedule, pending, remaining)|
      && (remaining > 0 ==> |r| > 0 && r[|r| - 1].bytesProcessed == gsiSize)
    decreases remaining
  {
    if remaining > 0 {
      var rv := ReadSize(schedule, Min(BlockSize, remaining), pending);
      StreamReportsComplete(gsiSize, Rest(schedule), pending - rv, remaining - rv);
      RequestsUnfold(schedule, pending, remaining, rv, Rest(schedule), pending - rv, remaining - rv);
      ReportsUnfold(gsiSize, schedule, pending, remaining, rv, Rest(schedule), pending - rv, remaining - rv);
    }
  }

  /** Without short reads or errors, a chunk within the stream is delivered
      in ceil(bytes / 4096) full requests. */
  lemma {:induction false} FullReadsDeliver(pending: nat, remaining: nat)
    ensures Delivers([], pending, remaining) <==> remaining <= pending
    ensures remaining <= pending ==> |Requests([], pending, remaining)| == Blocks(remaining, BlockSize)
    decreases remaining
  {
    if remaining > 0 && pending > 0 {
      var rv := Min(BlockSize, Min(remaining, pending));
      assert ReadSize([], Min(BlockSize, remaining), pending) == rv;
      FullReadsDeliver(pending - rv, remaining - rv);
      if remaining <= pending {
        BlocksStep(remaining);
      }
    }
  }

  /** Blocks needed for `bytes` in pieces of `piece`: ceil(bytes / piece). */
  function Blocks(bytes: nat, piece: nat): nat
    requires piece > 0
  {
    (bytes + piece - 1) / piece
  }

  /** Delivering one full block (or the whole of a shorter rest) leaves one block fewer. */
  lemma BlocksStep(remaining: nat)
    requires remaining > 0
    ensures Blocks(remaining, BlockSize) == Blocks(remaining - Min(BlockSize, remaining), BlockSize) + 1
  {
    var k := Blocks(remaining - Min(BlockSize, remaining), BlockSize);
    var n := remaining - Min(BlockSize, remaining);
    assert k * BlockSize + (n + BlockSize - 1) % BlockSize == n + BlockSize - 1;
    DivUnique(remaining + BlockSize - 1, BlockSize, k + 1);
  }

  /** The streaming loop after `done` bytes of the chunk: the rest of the
      stream follows them, and they sit in the image after what was written before. */
  ghost predicate StreamState(data0: seq<byte>, image0: seq<byte>, written0: nat, done: nat,
                              data: seq<byte>, image: seq<byte>, written: nat)
  {
    && done <= |data0| && written0 + done <= |image0|
    && data == data0[done..]
    && written == written0 + done
    && image == Splice(image0, written0, data0[..done])
  }

  /** Reading rv bytes of the stream and writing them at the offset reached extends the state. */
  lemma StreamStateStep(data0: seq<byte>, image0: seq<byte>, written0: nat, done: nat, rv: nat,
                        data: seq<byte>, image: seq<byte>, written: nat)
    requires StreamState(data0, image0, written0, done, data, image, written)
    requires rv <= |data| && written + rv <= |image|
    ensures StreamState(data0, image0, written0, done + rv, data[rv..], Splice(image, written, data[..rv]), written + rv)
  {
    assert data[..rv] == data0[done..done + rv];
    assert data[rv..] == data0[done + rv..];
    SpliceTwice(image0, written0, data0[..done], data0[done..done + rv]);
    assert data0[..done] + data0[done..done + rv] == data0[..done + rv];
  }

  /** The streaming loop with `remaining` bytes of the chunk still to read:
      the outcome, and the requests and reports still to come added to
      those made so far, are those of the chunk as a whole (the reports
      only while the chunk fits the budget, `reports`). */
  ghost predicate Accounted(gsiSize: int, s0: seq<int>, p0: nat, bytes: nat, q0: seq<nat>, h0: seq<GsiProgress>,
                            s: seq<int>, p: nat, remaining: nat, q: seq<nat>, h: seq<GsiProgress>, reports: bool)
  {
    && (Delivers(s0, p0, bytes) <==> Delivers(s, p, remaining))
    && q0 + Requests(s0, p0, bytes) == q + Requests(s, p, remaining)
    && (reports ==> h0 + StreamReports(gsiSize, s0, p0, bytes) == h + StreamReports(gsiSize, s, p, remaining))
  }

  /** A read that delivers nothing, or more than the budget left, rules out the rest of the chunk. */
  lemma PassRulesOut(s: seq<int>, p: nat, remaining: nat, budget: int)
    requires 0 < remaining
    ensures Delivers(s, p, remaining) && remaining <= budget ==>
              var rv := ReadSize(s, Min(BlockSize, remaining), p); 0 < rv && rv <= budget
  {
  }

  /** A read delivering rv > 0 bytes, its request and (while the reports are
      accounted) its report keep the account: s1, p1, q1 and h1 are the
      schedule, pending bytes, requests and reports after it. */
  lemma AccountedStep(gsiSize: int, s0: seq<int>, p0: nat, bytes: nat, q0: seq<nat>, h0: seq<GsiProgress>,
                      s: seq<int>, p: nat, remaining: nat, q: seq<nat>, h: seq<GsiProgress>, reports: bool, rv: nat,
                      s1: seq<int>, p1: nat, left: nat, q1: seq<nat>, h1: seq<GsiProgress>)
    requires Accounted(gsiSize, s0, p0, bytes, q0, h0, s, p, remaining, q, h, reports)
    requires 0 < remaining && 0 < rv && rv == ReadSize(s, Min(BlockSize, remaining), p)
    requires s1 == Rest(s) && p1 == p - rv && left == remaining - rv && q1 == q + [Min(BlockSize, remaining)]
    requires reports ==> h1 == h + [GsiProgress("write gsi", Working, gsiSize - left, gsiSize)]
    ensures Accounted(gsiSize, s0, p0, bytes, q0, h0, s1, p1, left, q1, h1, reports)
  {
    DeliversStep(s, p, remaining, rv, s1, p1, left);
    RequestsStep(s, p, remaining, rv, q, s1, p1, left, q1);
    if reports {
      ReportsStep(gsiSize, s, p, remaining, rv, h, s1, p1, left, h1);
    }
  }

  /** A delivering read leaves the rest of the chunk to be delivered from the state after it. */
  lemma DeliversStep(s: seq<int>, p: nat, remaining: nat, rv: nat, s1: seq<int>, p1: nat, left: nat)
    requires 0 < remaining && 0 < rv && rv == ReadSize(s, Min(BlockSize, remaining), p)
    requires s1 == Rest(s) && p1 == p - rv && left == remaining - rv
    ensures Delivers(s, p, remaining) <==> Delivers(s1, p1, left)
  {
  }

  /** A delivering read's request moves from the requests to come to those made. */
  lemma RequestsStep(s: seq<int>, p: nat, remaining: nat, rv: nat, q: seq<nat>,
                     s1: seq<int>, p1: nat, left: nat, q1: seq<nat>)
    requires 0 < remaining && 0 < rv && rv == ReadSize(s, Min(BlockSize, remaining), p)
    requires s1 == Rest(s) && p1 == p - rv && left == remaining - rv && q1 == q + [Min(BlockSize, remaining)]
    ensures q + Requests(s, p, remaining) == q1 + Requests(s1, p1, left)
  {
    RequestsUnfold(s, p, remaining, rv, s1, p1, left);
    ConcatAssoc(q, [Min(BlockSize, remaining)], Requests(s1, p1, left));
  }

  /** The requests of a chunk whose first read delivers: that request, then the rest's. */
  lemma RequestsUnfold(s: seq<int>, p: nat, remaining: nat, rv: nat, s1: seq<int>, p1: nat, left: nat)
    requires 0 < remaining && 0 < rv && rv == ReadSize(s, Min(BlockSize, remaining), p)
    requires s1 == Rest(s) && p1 == p - rv && left == remaining - rv
    ensures Requests(s, p, remaining) == [Min(BlockSize, remaining)] + Requests(s1, p1, left)
  {
  }

  /** Sequence concatenation is associative. */
  lemma ConcatAssoc<T>(a: seq<T>, b: seq<T>, c: seq<T>)
    ensures (a + b) + c == a + (b + c)
  {
  }

  /** A delivering read's report moves from the reports to come to those made. */
  lemma ReportsStep(gsiSize: int, s: seq<int>, p: nat, remaining: nat, rv: nat, h: seq<GsiProgress>,
                    s1: seq<int>, p1: nat, left: nat, h1: seq<GsiProgress>)
    requires 0 < remaining && 0 < rv && rv == ReadSize(s, Min(BlockSize, remaining), p)
    requires s1 == Rest(s) && p1 == p - rv && left == remaining - rv
    requires h1 == h + [GsiProgress("write gsi", Working, gsiSize - left, gsiSize)]
    ensures h + StreamReports(gsiSize, s, p, remaining) == h1 + StreamReports(gsiSize, s1, p1, left)
  {
    ReportsUnfold(gsiSize, s, p, remaining, rv, s1, p1, left);
    ConcatAssoc(h, [GsiProgress("write gsi", Working, gsiSize - left, gsiSize)], StreamReports(gsiSize, s1, p1, left));
  }

  /** The reports of a chunk whose first read delivers: that report, then the rest's. */
  lemma ReportsUnfold(gsiSize: int, s: seq<int>, p: nat, remaining: nat, rv: nat, s1: seq<int>, p1: nat, left: nat)
    requires 0 < remaining && 0 < rv && rv == ReadSize(s, Min(BlockSize, remaining), p)
    requires s1 == Rest(s) && p1 == p - rv && left == remaining - rv
    ensures StreamReports(gsiSize, s, p, remaining)
            == [GsiProgress("write gsi", Working, gsiSize - left, gsiSize)] + StreamReports(gsiSize, s1, p1, left)
  {
  }

  /** Whether PreallocateFiles creates userdata_gsi afresh: it is recreated
      when a wipe was asked for or it is missing, which needs no pending
      abort, the old image gone (its deletion is only tried for a wipe) and
      no creation fault. */
  predicate UserdataCreated(images: map<string, Image>, wipe: bool, faults: set<Fault>, aborting: bool)
  {
    && (wipe || UserdataGsi !in images) && !aborting
    && (UserdataGsi !in images || (wipe && ImageDelete(UserdataGsi) !in faults))
    && ImageCreate(UserdataGsi) !in faults
  }

  /** Whether PreallocateFiles succeeds: userdata_gsi is kept or created, and
      system_gsi is deleted and created again. */
  predicate PreallocationSucceeds(images: map<string, Image>, wipe: bool, faults: set<Fault>, aborting: bool)
  {
    && ((!wipe && UserdataGsi in images) || UserdataCreated(images, wipe, faults, aborting))
    && !aborting
    && (SystemGsi !in images || ImageDelete(SystemGsi) !in faults)
    && ImageCreate(SystemGsi) !in faults
  }

  /** An image that PreallocateFiles did not create: it is there exactly when
      it was there and was not deleted (no deletion tried, or a deletion
      fault), and then it is as it was. */
  ghost predicate Survives(images0: map<string, Image>, images: map<string, Image>, name: string,
                           deleted: bool, faults: set<Fault>)
  {
    && (name in images <==> name in images0 && (!deleted || ImageDelete(name) in faults))
    && (name in images ==> images[name] == images0[name])
  }

  class GsiInstaller {
    const disk: Disk
    const channel: Channel
    const installDir: string
    /** Requested size of system_gsi; signed, as the negative-size check shows. */
    const gsiSize: int
    /** Size of userdata_gsi, as a uint64_t. */
    const userdataSize: nat
    /** Whether ImageManager::Open succeeded for the install directory (images_ is non-null). */
    const imagesOpen: bool
    var wipeUserdata: bool
    var wipeUserdataOnFailure: bool
    var gsiBytesWritten: nat
    var succeeded: bool
    /** system_device_: the mapped system_gsi being written, or null. */
    var systemDevice: MappedDevice?
    /** The shared-memory region last mapped (ashmem_data_ != MAP_FAILED) and its size. */
    var ashmemMapped: bool
    var ashmemSize: nat

    /** The byte budget, and the open device's offset and backing image agreeing with it. */
    predicate Valid()
      reads this, systemDevice, disk
    {
      && IsInt64(gsiSize)
      && (gsiBytesWritten == 0 || gsiBytesWritten <= gsiSize)
      && (systemDevice != null ==>
            && systemDevice.disk == disk
            && systemDevice.name == SystemGsi
            && 0 <= gsiSize < TwoTo63
            && systemDevice.pos == gsiBytesWritten
            && SystemGsi in disk.images
            && |disk.images[SystemGsi].data| == gsiSize)
    }

    /** GsiInstaller(service, params): the default userdata size replaces 0,
        and userdata_gsi is removed on failure only if asked to wipe it or if
        it did not already exist. */
    constructor (disk0: Disk, channel0: Channel, params: GsiInstallParams)
      requires IsInt64(params.gsiSize) && IsInt64(params.userdataSize)
      requires params.wipeUserdata || disk0.ManagerOpens(params.installDir)
      ensures disk == disk0 && channel == channel0 && installDir == params.installDir
      ensures gsiSize == params.gsiSize && wipeUserdata == params.wipeUserdata
      ensures userdataSize == if params.userdataSize == 0 then DefaultUserdataSize else U64(params.userdataSize)
      ensures imagesOpen == disk0.ManagerOpens(params.installDir)
      ensures wipeUserdataOnFailure == (params.wipeUserdata || !disk0.BackingImageExists(UserdataGsi))
      ensures gsiBytesWritten == 0 && !succeeded && systemDevice == null && !ashmemMapped
      ensures Valid()
    {
      disk, channel, installDir := disk0, channel0, params.installDir;
      gsiSize, wipeUserdata := params.gsiSize, params.wipeUserdata;
      userdataSize := if params.userdataSize != 0 then U64(params.userdataSize) else DefaultUserdataSize;
      imagesOpen := disk0.ManagerOpens(params.installDir);
      wipeUserdataOnFailure := params.wipeUserdata || !disk0.BackingImageExists(UserdataGsi);
      gsiBytesWritten, succeeded, systemDevice := 0, false, null;
      ashmemMapped, ashmemSize := false, 0;
    }

    /** GsiInstaller(service, install_dir): a session over an existing install,
        marked succeeded so that ending it never removes anything. */
    constructor Existing(disk0: Disk, channel0: Channel, dir: string)
      ensures disk == disk0 && channel == channel0 && installDir == dir
      ensures imagesOpen == disk0.ManagerOpens(dir)
      ensures succeeded && gsiSize == 0 && userdataSize == 0 && !wipeUserdata && !wipeUserdataOnFailure
      ensures gsiBytesWritten == 0 && systemDevice == null && !ashmemMapped
      ensures Valid()
    {
      disk, channel, installDir := disk0, channel0, dir;
      gsiSize, userdataSize, imagesOpen := 0, 0, disk0.ManagerOpens(dir);
      wipeUserdata, wipeUserdataOnFailure := false, false;
      gsiBytesWritten, succeeded, systemDevice := 0, true, null;
      ashmemMapped, ashmemSize := false, 0;
    }

    /** PerformSanityChecks, checked in this order: no image manager, a
        negative size or a running GSI, unreadable statistics (stats None);
        then too little free space; then less than 40% of the file system
        free.  The source computes the percentage in floating point; here it
        is the exact comparison free * 100 < 40 * size. */
    function SanityChecks(stats: Option<FsStats>): (status: InstallStatus)
      reads this, disk
      ensures status != ErrorGeneric <==> imagesOpen && gsiSize >= 0 && !LibGsi.IsGsiRunning(disk) && stats.Some?
      ensures status == ErrorNoSpace <==> status != ErrorGeneric && FreeSpace(stats.value) <= U64(gsiSize + userdataSize)
      ensures status == ErrorFileSystemCluttered <==>
                status != ErrorGeneric && FreeSpace(stats.value) > U64(gsiSize + userdataSize)
                && FreeSpace(stats.value) * 100 < MinimumFreeSpaceThreshold * FsSize(stats.value)
    {
      if !imagesOpen then ErrorGeneric
      else if gsiSize < 0 then ErrorGeneric
      else if LibGsi.IsGsiRunning(disk) then ErrorGeneric
      else if stats.None? then ErrorGeneric
      else if FreeSpace(stats.value) <= U64(gsiSize + userdataSize) then ErrorNoSpace
      else if FreeSpace(stats.value) * 100 < MinimumFreeSpaceThreshold * FsSize(stats.value) then ErrorFileSystemCluttered
      else InstallOk
    }

    /** CreateImage: allocates a backing image; the progress callback turns a
        pending abort into a failed allocation. */
    method CreateImage(name: string, size: nat, readOnly: bool) returns (ok: bool)
      modifies disk`images
      ensures ok == (!channel.shouldAbort && name !in old(disk.images) && ImageCreate(name) !in disk.faults)
      ensures disk.images == if ok then old(disk.images)[name := Image(true, false, readOnly, Zeros(size))] else old(disk.images)
    {
      if channel.shouldAbort {
        return false;
      }
      ok := disk.CreateBackingImage(name, size, readOnly);
    }

    /** PreallocateUserdata: (re)creates userdata_gsi only when a wipe is asked
        for or it is missing, and then asks for it to be formatted. */
    method PreallocateUserdata() returns (status: InstallStatus)
      modifies this`wipeUserdata, disk`images, channel`progress, channel`history
      ensures status == InstallOk || status == ErrorGeneric
      ensures var recreate := old(wipeUserdata) || UserdataGsi !in old(disk.images);
        && (!recreate ==> status == InstallOk && disk.images == old(disk.images) && wipeUserdata == old(wipeUserdata))
        && (recreate && status == InstallOk ==>
              wipeUserdata && disk.images == old(disk.images)[UserdataGsi := Image(true, false, false, Zeros(userdataSize))])
        && (recreate && status != InstallOk ==> disk.images == old(disk.images) && wipeUserdata == old(wipeUserdata))
        && (recreate ==>
              (status == InstallOk
               <==> !channel.shouldAbort && UserdataGsi !in old(disk.images) && ImageCreate(UserdataGsi) !in disk.faults))
    {
      status := InstallOk;
      if wipeUserdata || !disk.BackingImageExists(UserdataGsi) {
        channel.StartAsyncOperation("create userdata", userdataSize);
        var ok := CreateImage(UserdataGsi, userdataSize, false);
        if !ok {
          return ErrorGeneric;
        }
        wipeUserdata := true;
      }
    }

    /** PreallocateSystem: creates system_gsi read-only at the requested size. */
    method PreallocateSystem() returns (status: InstallStatus)
      modifies disk`images, channel`progress, channel`history
      ensures status == InstallOk || status == ErrorGeneric
      ensures status == InstallOk <==> !channel.shouldAbort && SystemGsi !in old(disk.images) && ImageCreate(SystemGsi) !in disk.faults
      ensures disk.images == if status == InstallOk then old(disk.images)[SystemGsi := Image(true, false, true, Zeros(U64(gsiSize)))] else old(disk.images)
      ensures channel.progress == GsiProgress("create system", Working, 0, gsiSize)
    {
      channel.StartAsyncOperation("create system", gsiSize);
      var ok := CreateImage(SystemGsi, U64(gsiSize), true);
      status := if ok then InstallOk else ErrorGeneric;
    }

    /** PreallocateFiles: userdata_gsi is deleted only when a wipe is asked for;
        system_gsi is always deleted and recreated; the failures of the
        deletions themselves are ignored. */
    method PreallocateFiles() returns (status: InstallStatus)
      modifies this`wipeUserdata, disk`images, channel`progress, channel`history
      ensures status == InstallOk || status == ErrorGeneric
      ensures status == InstallOk ==>
        && SystemGsi in disk.images && disk.images[SystemGsi] == Image(true, false, true, Zeros(U64(gsiSize)))
        && UserdataGsi in disk.images
        && (old(wipeUserdata) || UserdataGsi !in old(disk.images) ==>
              wipeUserdata && disk.images[UserdataGsi] == Image(true, false, false, Zeros(userdataSize)))
        && (!old(wipeUserdata) && UserdataGsi in old(disk.images) ==>
              !wipeUserdata && disk.images[UserdataGsi] == old(disk.images)[UserdataGsi])
        && channel.progress == GsiProgress("create system", Complete, gsiSize, gsiSize)
      ensures status == InstallOk <==> PreallocationSucceeds(old(disk.images), old(wipeUserdata), disk.faults, channel.shouldAbort)
      ensures var made := UserdataCreated(old(disk.images), old(wipeUserdata), disk.faults, channel.shouldAbort);
        && wipeUserdata == (old(wipeUserdata) || made)
        && (made ==> UserdataGsi in disk.images && disk.images[UserdataGsi] == Image(true, false, false, Zeros(userdataSize)))
        && (!made ==> Survives(old(disk.images), disk.images, UserdataGsi, old(wipeUserdata), disk.faults))
      ensures status != InstallOk ==> Survives(old(disk.images), disk.images, SystemGsi, true, disk.faults)
      ensures disk.images - {SystemGsi, UserdataGsi} == old(disk.images) - {SystemGsi, UserdataGsi}
    {
      if wipeUserdata {
        var _ := disk.DeleteBackingImage(UserdataGsi);
      }
      var _ := disk.DeleteBackingImage(SystemGsi);
      status := PreallocateUserdata();
      if status != InstallOk {
        return;
      }
      status := PreallocateSystem();
      if status != InstallOk {
        return;
      }
      channel.UpdateProgress(Complete, 0);
    }

    /** FormatUserdata: zeroes the first 4096 bytes of userdata_gsi, which is
        all the file-system probe looks at, through a device that is
        released (and the image unmapped) when the method returns. */
    method FormatUserdata() returns (ok: bool)
      modifies disk`images
      ensures ok == (UserdataGsi in old(disk.images) && ImageMap(UserdataGsi) !in disk.faults
                     && DeviceWrite(UserdataGsi) !in disk.faults && BlockSize <= |old(disk.images)[UserdataGsi].data|)
      ensures UserdataGsi in old(disk.images) ==>
                (UserdataGsi in disk.images
                 && var before := old(disk.images)[UserdataGsi];
                    disk.images[UserdataGsi]
                    == before.(mapped := if ImageMap(UserdataGsi) in disk.faults then before.mapped
                                         else ImageUnmap(UserdataGsi) in disk.faults,
                               data := if ok then Splice(before.data, 0, Zeros(BlockSize)) else before.data))
      ensures disk.images.Keys == old(disk.images).Keys
      ensures forall n :: n in old(disk.images) && n != UserdataGsi ==> disk.images[n] == old(disk.images)[n]
    {
      var device := disk.OpenDevice(UserdataGsi);
      if device == null {
        return false;
      }
      ok := device.Write(Zeros(BlockSize));
      device.Close();
    }

    /** StartInstall: checks, preallocation and formatting, then system_gsi is
        mapped for writing and the progress record is cleared. */
    method StartInstall(stats: Option<FsStats>) returns (status: InstallStatus)
      requires Valid() && systemDevice == null && gsiBytesWritten == 0
      modifies this`wipeUserdata, this`systemDevice, disk`images, channel`progress, channel`history
      ensures Valid()
      ensures old(SanityChecks(stats)) != InstallOk ==>
                (status == old(SanityChecks(stats)) && disk.images == old(disk.images)
                 && systemDevice == null && channel.history == old(channel.history))
      ensures status == InstallOk ==> old(SanityChecks(stats)) == InstallOk
      ensures status != InstallOk ==> systemDevice == null
      ensures status == InstallOk ==>
        && systemDevice != null && fresh(systemDevice)
        && disk.images[SystemGsi] == Image(true, true, true, Zeros(U64(gsiSize)))
        && UserdataGsi in disk.images && |disk.images[UserdataGsi].data| >= BlockSize
        && disk.images[UserdataGsi].data[..BlockSize] == Zeros(BlockSize)
        && channel.progress == GsiProgress("create system", NoOperation, 0, gsiSize)
      ensures old(SanityChecks(stats)) == InstallOk ==>
        var made := UserdataCreated(old(disk.images), old(wipeUserdata), disk.faults, channel.shouldAbort);
        && wipeUserdata == (old(wipeUserdata) || made)
        && (!PreallocationSucceeds(old(disk.images), old(wipeUserdata), disk.faults, channel.shouldAbort) ==>
              && status == ErrorGeneric
              && Survives(old(disk.images), disk.images, SystemGsi, true, disk.faults)
              && (made ==> UserdataGsi in disk.images && disk.images[UserdataGsi] == Image(true, false, false, Zeros(userdataSize)))
              && (!made ==> Survives(old(disk.images), disk.images, UserdataGsi, old(wipeUserdata), disk.faults)))
      ensures old(SanityChecks(stats)) == InstallOk
              && PreallocationSucceeds(old(disk.images), old(wipeUserdata), disk.faults, channel.shouldAbort) ==>
        var u0 := if UserdataCreated(old(disk.images), old(wipeUserdata), disk.faults, channel.shouldAbort)
                  then Image(true, false, false, Zeros(userdataSize)) else old(disk.images)[UserdataGsi];
        var formatted := ImageMap(UserdataGsi) !in disk.faults && DeviceWrite(UserdataGsi) !in disk.faults
                         && BlockSize <= |u0.data|;
        && (status == InstallOk <==> formatted && ImageMap(SystemGsi) !in disk.faults)
        && SystemGsi in disk.images
        && disk.images[SystemGsi] == Image(true, status == InstallOk, true, Zeros(U64(gsiSize)))
        && UserdataGsi in disk.images
        && disk.images[UserdataGsi]
           == u0.(mapped := if ImageMap(UserdataGsi) in disk.faults then u0.mapped else ImageUnmap(UserdataGsi) in disk.faults,
                  data := if formatted then Splice(u0.data, 0, Zeros(BlockSize)) else u0.data)
      ensures disk.images - {SystemGsi, UserdataGsi} == old(disk.images) - {SystemGsi, UserdataGsi}
    {
      status := SanityChecks(stats);
      if status != InstallOk {
        return;
      }
      status := PreallocateFiles();
      if status != InstallOk {
        return;
      }
      var formatted := FormatUserdata();
      if !formatted {
        return ErrorGeneric;
      }
      systemDevice := disk.OpenDevice(SystemGsi);
      if systemDevice == null {
        return ErrorGeneric;
      }
      channel.UpdateProgress(NoOperation, 0);
    }

    /** IsFinishedWriting: every byte of the image has been committed; with
        the device open, its offset has reached the end of system_gsi. */
    predicate IsFinishedWriting()
      reads this, systemDevice, disk
      ensures Valid() && systemDevice != null ==>
                (IsFinishedWriting() <==> systemDevice.pos == |disk.images[SystemGsi].data|)
    {
      gsiBytesWritten == gsiSize
    }

    /** CommitGsiChunk(data, bytes): refuses a chunk larger than what the
        image still lacks, or any chunk once an abort is pending; otherwise
        writes it at the current offset and counts it. */
    method CommitGsiChunk(data: seq<byte>) returns (ok: bool)
      requires Valid() && systemDevice != null && |data| < TwoTo64
      modifies systemDevice`pos, disk`images, this`gsiBytesWritten
      ensures Valid() && systemDevice == old(systemDevice)
      ensures ok == (|data| <= gsiSize - old(gsiBytesWritten) && !channel.shouldAbort
                     && (|data| == 0 || DeviceWrite(SystemGsi) !in disk.faults))
      ensures ok ==> gsiBytesWritten == old(gsiBytesWritten) + |data|
      ensures old(gsiBytesWritten) + |data| <= |old(disk.images)[SystemGsi].data|
              ==> disk.images[SystemGsi].data == (if ok then Splice(old(disk.images)[SystemGsi].data, old(gsiBytesWritten), data) else old(disk.images)[SystemGsi].data)
      ensures !ok ==> gsiBytesWritten == old(gsiBytesWritten) && disk.images == old(disk.images)
      ensures disk.images.Keys == old(disk.images).Keys
      ensures forall n :: n in disk.images && n != SystemGsi ==> disk.images[n] == old(disk.images)[n]
      ensures disk.images[SystemGsi].(data := []) == old(disk.images)[SystemGsi].(data := [])
    {
      if U64(|data|) > U64(gsiSize - gsiBytesWritten) {
        return false;
      }
      if channel.shouldAbort {
        return false;
      }
      ok := systemDevice.Write(data);
      if !ok {
        return;
      }
      gsiBytesWritten := gsiBytesWritten + |data|;
    }

    /** One pass of the streaming loop: reads at most a block of what
        remains and commits it; a read error, the end of the stream or a
        refused commit fails it. */
    method CommitNextBlock(stream: InputStream, remaining: nat, ghost data0: seq<byte>, ghost image0: seq<byte>,
                           ghost written0: nat, ghost done: nat, ghost h0: seq<GsiProgress>,
                           ghost images0: map<string, Image>, ghost requests0: nat, ghost blocks: nat)
      returns (rv: nat, ok: bool)
      requires StreamFrame(stream, h0, images0, requests0, blocks) && 0 < remaining
      requires StreamState(data0, image0, written0, done, stream.data, disk.images[SystemGsi].data, gsiBytesWritten)
      modifies systemDevice`pos, disk`images, this`gsiBytesWritten, stream
      ensures StreamFrame(stream, h0, images0, requests0, blocks + 1) && systemDevice == old(systemDevice)
      ensures stream.requests == old(stream.requests) + [Min(BlockSize, remaining)]
      ensures stream.schedule == Rest(old(stream.schedule))
      ensures var read := ReadSize(old(stream.schedule), Min(BlockSize, remaining), |old(stream.data)|);
        && ok == (0 < read && read <= gsiSize - old(gsiBytesWritten) && !channel.shouldAbort
                  && DeviceWrite(SystemGsi) !in disk.faults)
        && (ok ==> rv == read)
      ensures ok ==> |stream.data| + rv == |old(stream.data)|
      ensures ok ==> StreamState(data0, image0, written0, done + rv, stream.data, disk.images[SystemGsi].data, gsiBytesWritten)
      ensures !ok ==> gsiBytesWritten == old(gsiBytesWritten) && disk.images == old(disk.images)
    {
      ghost var data := stream.data;
      ghost var image := disk.images[SystemGsi].data;
      ghost var written := gsiBytesWritten;
      var maxToRead := Min(BlockSize, remaining);
      var read, buffer := stream.Read(maxToRead);
      if read < 0 {
        return 0, false;
      }
      if read == 0 {
        return 0, false;
      }
      rv := read;
      ok := CommitGsiChunk(buffer);
      if ok {
        StreamStateStep(data0, image0, written0, done, rv, data, image, written);
      }
    }

    /** CommitGsiChunk(stream_fd, bytes): reads the chunk in blocks of at most
        4096 bytes, committing each; a read error, an early end of stream, an
        over-budget block or an abort fails it.  The progress value is never
        reassigned from -1, so every block is reported. */
    method CommitGsiChunkFromStream(stream: InputStream, bytes: int) returns (ok: bool, ghost committed: nat)
      requires Valid() && systemDevice != null && IsInt64(bytes)
      modifies systemDevice`pos, disk`images, this`gsiBytesWritten, stream, channel`progress, channel`history
      ensures Valid() && systemDevice == old(systemDevice)
      ensures |channel.history| > |old(channel.history)|
      ensures channel.history[..|old(channel.history)| + 1] == old(channel.history) + [GsiProgress("write gsi", Working, 0, gsiSize)]
      ensures bytes < 0 ==> gsiBytesWritten == old(gsiBytesWritten) && stream.requests == old(stream.requests)
      ensures forall i :: |old(stream.requests)| <= i < |stream.requests| ==> 0 < stream.requests[i] <= BlockSize
      ensures ok <==> 0 <= bytes && Delivers(old(stream.schedule), |old(stream.data)|, bytes)
                      && bytes <= gsiSize - old(gsiBytesWritten)
                      && (bytes == 0 || (!channel.shouldAbort && DeviceWrite(SystemGsi) !in disk.faults))
      ensures ok ==>
        (0 <= bytes <= |old(stream.data)|
        && gsiBytesWritten == old(gsiBytesWritten) + bytes
        && stream.data == old(stream.data)[bytes..]
        && disk.images[SystemGsi].data == Splice(old(disk.images)[SystemGsi].data, old(gsiBytesWritten), old(stream.data)[..bytes])
        && stream.requests == old(stream.requests) + Requests(old(stream.schedule), |old(stream.data)|, bytes)
        && channel.history == old(channel.history) + [GsiProgress("write gsi", Working, 0, gsiSize)]
             + StreamReports(gsiSize, old(stream.schedule), |old(stream.data)|, bytes)
             + [GsiProgress("write gsi", Complete, gsiSize, gsiSize)]
        && channel.progress == GsiProgress("write gsi", Complete, gsiSize, gsiSize))
      ensures committed <= |old(stream.data)| && (bytes < 0 ==> committed == 0) && (0 <= bytes ==> committed <= bytes)
      ensures ok ==> committed == bytes
      ensures !ok && 0 <= bytes ==> committed < bytes
      ensures gsiBytesWritten == old(gsiBytesWritten) + committed
      ensures disk.images[SystemGsi].data
              == Splice(old(disk.images)[SystemGsi].data, old(gsiBytesWritten), old(stream.data)[..committed])
      ensures disk.images.Keys == old(disk.images).Keys
      ensures forall n :: n in disk.images && n != SystemGsi ==> disk.images[n] == old(disk.images)[n]
    {
      channel.StartAsyncOperation("write gsi", gsiSize);
      if bytes < 0 {
        ghost var image := disk.images[SystemGsi].data;
        assert Splice(image, gsiBytesWritten, stream.data[..0]) == image;
        return false, 0;
      }
      ok, committed := StreamBlocks(stream, bytes);
      if !ok {
        return;
      }
      channel.UpdateProgress(Complete, gsiSize);
    }

    /** What the block loop keeps whatever happens: the installer's validity,
        the progress record's step and total, the reports so far extending
        h0, one request of at most a block per pass, and every image but
        system_gsi as it was (images0). */
    ghost predicate StreamFrame(stream: InputStream, h0: seq<GsiProgress>, images0: map<string, Image>,
                                requests0: nat, blocks: nat)
      reads this, systemDevice, disk, stream, channel
    {
      && Valid() && systemDevice != null
      && channel.progress.step == "write gsi" && channel.progress.totalBytes == gsiSize
      && h0 <= channel.history
      && |stream.requests| == requests0 + blocks
      && (forall i :: requests0 <= i < |stream.requests| ==> 0 < stream.requests[i] <= BlockSize)
      && disk.images.Keys == images0.Keys
      && (forall n :: n in disk.images && n != SystemGsi ==> disk.images[n] == images0[n])
    }

    /** The block loop of CommitGsiChunk(stream_fd, bytes), up to the final report. */
    method StreamBlocks(stream: InputStream, bytes: nat) returns (ok: bool, ghost committed: nat)
      requires Valid() && systemDevice != null
      requires channel.progress.step == "write gsi" && channel.progress.totalBytes == gsiSize
      modifies systemDevice`pos, disk`images, this`gsiBytesWritten, stream, channel`progress, channel`history
      ensures Valid() && systemDevice == old(systemDevice)
      ensures channel.progress.step == "write gsi" && channel.progress.totalBytes == gsiSize
      ensures old(channel.history) <= channel.history
      ensures forall i :: |old(stream.requests)| <= i < |stream.requests| ==> 0 < stream.requests[i] <= BlockSize
      ensures ok <==> Delivers(old(stream.schedule), |old(stream.data)|, bytes)
                      && old(gsiBytesWritten) + bytes <= gsiSize
                      && (bytes == 0 || (!channel.shouldAbort && DeviceWrite(SystemGsi) !in disk.faults))
      ensures ok ==>
        (bytes <= |old(stream.data)| && gsiBytesWritten == old(gsiBytesWritten) + bytes
         && stream.data == old(stream.data)[bytes..]
         && disk.images[SystemGsi].data == Splice(old(disk.images)[SystemGsi].data, old(gsiBytesWritten), old(stream.data)[..bytes])
         && stream.requests == old(stream.requests) + Requests(old(stream.schedule), |old(stream.data)|, bytes)
         && channel.history == old(channel.history) + StreamReports(gsiSize, old(stream.schedule), |old(stream.data)|, bytes))
      ensures committed <= bytes && committed <= |old(stream.data)| && (ok <==> committed == bytes)
      ensures gsiBytesWritten == old(gsiBytesWritten) + committed
      ensures disk.images[SystemGsi].data
              == Splice(old(disk.images)[SystemGsi].data, old(gsiBytesWritten), old(stream.data)[..committed])
      ensures disk.images.Keys == old(disk.images).Keys
      ensures forall n :: n in disk.images && n != SystemGsi ==> disk.images[n] == old(disk.images)[n]
    {
      ghost var data0 := stream.data;
      assert data0[..0] == [] && data0[0..] == data0;
      ghost var blocks;
      ok, blocks, committed := BlockLoop(stream, bytes, data0, disk.images[SystemGsi].data, gsiBytesWritten, channel.history,
                              disk.images, stream.schedule, stream.requests);
      if ok {
        assert stream.data == old(stream.data)[bytes..];
      }
    }

    /** The while loop of CommitGsiChunk(stream_fd, bytes): a pass per block
        until the chunk is delivered or a pass fails.  Stated over the state
        on entry (data0, image0, written0, h0, images0, s0, q0). */
    method BlockLoop(stream: InputStream, bytes: nat, ghost data0: seq<byte>, ghost image0: seq<byte>, ghost written0: nat,
                     ghost h0: seq<GsiProgress>, ghost images0: map<string, Image>, ghost s0: seq<int>, ghost q0: seq<nat>)
      returns (ok: bool, ghost blocks: nat, ghost done: nat)
      requires StreamFrame(stream, h0, images0, |q0|, 0)
      requires StreamState(data0, image0, written0, 0, stream.data, disk.images[SystemGsi].data, gsiBytesWritten)
      requires channel.history == h0 && stream.schedule == s0 && stream.requests == q0
      modifies systemDevice`pos, disk`images, this`gsiBytesWritten, stream, channel`progress, channel`history
      ensures StreamFrame(stream, h0, images0, |q0|, blocks) && systemDevice == old(systemDevice)
      ensures ok <==> Delivers(s0, |data0|, bytes) && written0 + bytes <= gsiSize
                      && (bytes == 0 || (!channel.shouldAbort && DeviceWrite(SystemGsi) !in disk.faults))
      ensures ok ==> StreamState(data0, image0, written0, bytes, stream.data, disk.images[SystemGsi].data, gsiBytesWritten)
      ensures ok ==> stream.requests == q0 + Requests(s0, |data0|, bytes)
                     && channel.history == h0 + StreamReports(gsiSize, s0, |data0|, bytes)
      ensures done <= bytes && (ok <==> done == bytes)
      ensures done <= |data0| && written0 + done <= |image0| && gsiBytesWritten == written0 + done
              && disk.images[SystemGsi].data == Splice(image0, written0, data0[..done])
    {
      blocks := 0;
      var progress := -1;
      var remaining: nat := bytes;
      ghost var good := written0 + bytes <= gsiSize;
      while remaining != 0
        invariant StreamFrame(stream, h0, images0, |q0|, blocks) && systemDevice == old(systemDevice)
        invariant remaining <= bytes && progress == -1
        invariant StreamState(data0, image0, written0, bytes - remaining, stream.data, disk.images[SystemGsi].data, gsiBytesWritten)
        invariant Accounted(gsiSize, s0, |data0|, bytes, q0, h0, stream.schedule, |stream.data|, remaining,
                            stream.requests, channel.history, good)
        invariant remaining < bytes ==> !channel.shouldAbort && DeviceWrite(SystemGsi) !in disk.faults
        decreases remaining
      {
        ghost var s, p, written := stream.schedule, |stream.data|, gsiBytesWritten;
        var left, passed := StreamPass(stream, bytes, remaining, progress, data0, image0, written0, h0, images0, s0, q0, blocks, good);
        if !passed {
          return false, blocks + 1, bytes - remaining;
        }
        remaining := left;
        blocks := blocks + 1;
      }
      ok, done := true, bytes;
    }

    /** One pass of the block loop: the block is read and committed, then
        reported whenever the permille differs from the last one reported
        (which, never being updated, stays -1).  Stated over the loop's
        state after bytes - remaining of the chunk; a failed pass rules the
        chunk out, as an undelivered rest, an over-budget rest, an abort or
        a failing device. */
    method StreamPass(stream: InputStream, bytes: nat, remaining: nat, progress: int, ghost data0: seq<byte>,
                      ghost image0: seq<byte>, ghost written0: nat, ghost h0: seq<GsiProgress>,
                      ghost images0: map<string, Image>, ghost s0: seq<int>, ghost q0: seq<nat>, ghost blocks: nat,
                      ghost good: bool)
      returns (left: nat, ok: bool)
      requires StreamFrame(stream, h0, images0, |q0|, blocks)
      requires 0 < remaining <= bytes && progress == -1 && good == (written0 + bytes <= gsiSize)
      requires StreamState(data0, image0, written0, bytes - remaining, stream.data, disk.images[SystemGsi].data, gsiBytesWritten)
      requires Accounted(gsiSize, s0, |data0|, bytes, q0, h0, stream.schedule, |stream.data|, remaining,
                         stream.requests, channel.history, good)
      modifies systemDevice`pos, disk`images, this`gsiBytesWritten, stream, channel`progress, channel`history
      ensures StreamFrame(stream, h0, images0, |q0|, blocks + 1) && systemDevice == old(systemDevice)
      ensures !ok ==> !(Delivers(old(stream.schedule), |old(stream.data)|, remaining)
                        && remaining <= gsiSize - old(gsiBytesWritten)
                        && !channel.shouldAbort && DeviceWrite(SystemGsi) !in disk.faults)
      ensures ok ==> left < remaining && !channel.shouldAbort && DeviceWrite(SystemGsi) !in disk.faults
      ensures ok ==> StreamState(data0, image0, written0, bytes - left, stream.data, disk.images[SystemGsi].data, gsiBytesWritten)
      ensures ok ==> Accounted(gsiSize, s0, |data0|, bytes, q0, h0, stream.schedule, |stream.data|, left,
                               stream.requests, channel.history, good)
      ensures !ok ==> gsiBytesWritten == old(gsiBytesWritten) && disk.images == old(disk.images)
    {
      ghost var s, p, q := stream.schedule, |stream.data|, stream.requests;
      ghost var done := bytes - remaining;
      var rv;
      rv, ok := CommitNextBlock(stream, remaining, data0, image0, written0, done, h0, images0, |q0|, blocks);
      left := 0;
      if !ok {
        PassRulesOut(s, p, remaining, gsiSize - old(gsiBytesWritten));
      } else {
        left := remaining - rv;
        ReportBlock(stream, left, progress, h0, images0, blocks, good, s0, |data0|, bytes, q0, s, p, remaining, q, rv);
      }
    }

    /** The report after a block, with `left` bytes of the chunk still
        unread: UpdateProgress whenever the permille of the image now
        written differs from the last one reported.  The block's read (rv
        bytes, with schedule s, p bytes pending, q requests and `remaining`
        bytes to read before it) keeps the account of the whole chunk. */
    method ReportBlock(ghost stream: InputStream, left: nat, progress: int, ghost h0: seq<GsiProgress>,
                       ghost images0: map<string, Image>, ghost blocks: nat, ghost good: bool,
                       ghost s0: seq<int>, ghost p0: nat, ghost bytes: nat, ghost q0: seq<nat>,
                       ghost s: seq<int>, ghost p: nat, ghost remaining: nat, ghost q: seq<nat>, ghost rv: nat)
      requires StreamFrame(stream, h0, images0, |q0|, blocks + 1)
      requires progress == -1 && 0 < gsiSize
      requires good ==> left <= gsiSize
      requires Accounted(gsiSize, s0, p0, bytes, q0, h0, s, p, remaining, q, channel.history, good)
      requires 0 < remaining && 0 < rv && rv == ReadSize(s, Min(BlockSize, remaining), p) && left == remaining - rv
      requires stream.schedule == Rest(s) && |stream.data| == p - rv && stream.requests == q + [Min(BlockSize, remaining)]
      modifies channel`progress, channel`history
      ensures StreamFrame(stream, h0, images0, |q0|, blocks + 1)
      ensures Accounted(gsiSize, s0, p0, bytes, q0, h0, stream.schedule, |stream.data|, left, stream.requests, channel.history, good)
    {
      ghost var h := channel.history;
      var newProgress := Int32(U64(U64(gsiSize - left) * 1000) / gsiSize);
      if good {
        NewProgressInRange(gsiSize, left);
      }
      if newProgress != progress {
        channel.UpdateProgress(Working, gsiSize - left);
      }
      AccountedStep(gsiSize, s0, p0, bytes, q0, h0, s, p, remaining, q, h, good, rv,
                    stream.schedule, |stream.data|, left, stream.requests, channel.history);
    }

    /** The permille, computed in uint64_t arithmetic that may wrap, is
        between 0 and 1000 within the budget, so never -1. */
    static lemma NewProgressInRange(gsiSize: int, remaining: nat)
      requires 0 < gsiSize < TwoTo63 && remaining <= gsiSize
      ensures Int32(U64(U64(gsiSize - remaining) * 1000) / gsiSize) != -1
    {
      var done: nat := gsiSize - remaining;
      assert U64(done) == done;
      var u := U64(done * 1000);
      MulLe(done, gsiSize, 1000);
      if done * 1000 < TwoTo64 {
        assert u == done * 1000;
      }
      assert u <= 1000 * gsiSize;
      DivLe(u, 1000, gsiSize);
    }

    /** MapAshmem: maps the caller's shared memory (mmapOk: whether mmap succeeds). */
    method MapAshmem(size: int, mmapOk: bool) returns (ok: bool)
      modifies this`ashmemMapped, this`ashmemSize
      ensures ashmemSize == U64(size) && ashmemMapped == mmapOk && ok == mmapOk
    {
      ashmemSize := U64(size);
      ashmemMapped := mmapOk;
      ok := mmapOk;
    }

    /** UnmapAshmem: the mapping is released and its size reset to SIZE_MAX;
        when munmap fails (munmapOk false) both are kept. */
    method UnmapAshmem(munmapOk: bool)
      modifies this`ashmemMapped, this`ashmemSize
      ensures munmapOk ==> !ashmemMapped && ashmemSize == TwoTo64 - 1
      ensures !munmapOk ==> ashmemMapped == old(ashmemMapped) && ashmemSize == old(ashmemSize)
    {
      if !munmapOk {
        return;
      }
      ashmemMapped := false;
      ashmemSize := TwoTo64 - 1;
    }

    /** CommitGsiChunk(size_t bytes), corrected: the chunk is read from the
        mapping (region: its current content), so a chunk larger than the
        mapping is refused before anything is read; the mapping is released
        once the image is complete (munmapOk: whether munmap succeeds). */
    method CommitGsiChunkFromAshmem(bytes: int, region: seq<byte>, munmapOk: bool) returns (ok: bool)
      requires Valid() && systemDevice != null
      requires ashmemMapped ==> |region| == ashmemSize
      modifies systemDevice`pos, disk`images, this`gsiBytesWritten, this`ashmemMapped, this`ashmemSize
      ensures Valid() && systemDevice == old(systemDevice)
      ensures ok ==> old(ashmemMapped) && 0 <= U64(bytes) <= old(ashmemSize)
                     && gsiBytesWritten == old(gsiBytesWritten) + U64(bytes)
                     && disk.images[SystemGsi].data == Splice(old(disk.images)[SystemGsi].data, old(gsiBytesWritten), region[..U64(bytes)])
      ensures ok == (old(ashmemMapped) && U64(bytes) <= old(ashmemSize)
                     && U64(bytes) <= gsiSize - old(gsiBytesWritten) && !channel.shouldAbort
                     && (U64(bytes) == 0 || DeviceWrite(SystemGsi) !in disk.faults))
      ensures !ok ==> gsiBytesWritten == old(gsiBytesWritten) && disk.images == old(disk.images)
      ensures ashmemMapped == (old(ashmemMapped) && !(ok && gsiBytesWritten == gsiSize && munmapOk))
    {
      if !ashmemMapped {
        return false;
      }
      var n := U64(bytes);
      if n > ashmemSize {
        return false;
      }
      ok := CommitGsiChunk(region[..n]);
      if ok && IsFinishedWriting() {
        UnmapAshmem(munmapOk);
      }
    }

    /** SetGsiBootable: only a complete image becomes bootable; it is synced
        and its device released (unmapping system_gsi), the extents must still be pinned, then the install
        directory, the boot mode and, last, the boot indicator are written,
        and only then has the session succeeded. */
    method SetGsiBootable(oneShot: bool) returns (status: InstallStatus)
      requires Valid()
      requires gsiBytesWritten == gsiSize ==> systemDevice != null
      modifies this`systemDevice, this`succeeded, disk`images, disk`files, disk`journal
      ensures Valid()
      ensures status == InstallOk || status == ErrorGeneric
      ensures var closed := old(gsiBytesWritten) == gsiSize && DeviceSync(SystemGsi) !in disk.faults;
        && systemDevice == (if closed then null else old(systemDevice))
        && disk.images == if closed && ImageUnmap(SystemGsi) !in disk.faults
                          then old(disk.images)[SystemGsi := old(disk.images)[SystemGsi].(mapped := false)]
                          else old(disk.images)
      ensures old(gsiBytesWritten) != gsiSize ==>
                (status == ErrorGeneric && systemDevice == old(systemDevice)
                 && disk.files == old(disk.files) && disk.journal == old(disk.journal))
      ensures var events := ActivationEvents(installDir, oneShot, OneShotBootFile in old(disk.files));
        && old(disk.journal) <= disk.journal
        && disk.journal[|old(disk.journal)|..] <= events
        && disk.files == Apply(old(disk.files), disk.journal[|old(disk.journal)|..])
        && (status == InstallOk <==> disk.journal == old(disk.journal) + events)
      ensures status == InstallOk <==>
                old(gsiBytesWritten) == gsiSize && DeviceSync(SystemGsi) !in disk.faults && disk.pinned
                && FileWrite(InstallDirFile) !in disk.faults
                && (if oneShot then FileWrite(OneShotBootFile) !in disk.faults
                    else OneShotBootFile !in old(disk.files) || FileRemove(OneShotBootFile) !in disk.faults)
                && FileWrite(InstallStatusFile) !in disk.faults
      ensures succeeded == (old(succeeded) || status == InstallOk)
      ensures status == InstallOk ==> LibGsi.IsGsiInstalled(disk) && systemDevice == null
      ensures status != InstallOk ==> (InstallStatusFile in disk.files <==> InstallStatusFile in old(disk.files))
      ensures status != InstallOk && InstallStatusFile in old(disk.files) ==> disk.files[InstallStatusFile] == old(disk.files)[InstallStatusFile]
    {
      if gsiBytesWritten != gsiSize {
        return ErrorGeneric;
      }
      var synced := systemDevice.Fsync();
      if !synced {
        return ErrorGeneric;
      }
      systemDevice.Close();
      systemDevice := null;
      if !disk.pinned {
        return ErrorGeneric;
      }
      var written := WriteActivation(disk, installDir, oneShot);
      if !written {
        return ErrorGeneric;
      }
      succeeded := true;
      status := InstallOk;
    }

    /** CheckInstallState: both system_gsi and userdata_gsi exist, as partition and as backing image. */
    method CheckInstallState() returns (status: InstallStatus)
      requires imagesOpen
      ensures status == InstallOk || status == ErrorGeneric
      ensures status == InstallOk <==>
                (disk.PartitionExists(SystemGsi) && disk.BackingImageExists(SystemGsi)
                 && disk.PartitionExists(UserdataGsi) && disk.BackingImageExists(UserdataGsi))
    {
      var images := [SystemGsi, UserdataGsi];
      for i := 0 to |images|
        invariant forall j :: 0 <= j < i ==> disk.PartitionExists(images[j]) && disk.BackingImageExists(images[j])
      {
        if !disk.PartitionExists(images[i]) || !disk.BackingImageExists(images[i]) {
          return ErrorGeneric;
        }
      }
      assert images[0] == SystemGsi && images[1] == UserdataGsi;
      status := InstallOk;
    }

    /** ReenableGsi: from a running GSI the image state is not checked; otherwise
        both images must exist; then the boot mode is set and the boot
        indicator recreated, in that order. */
    method ReenableGsi(oneShot: bool) returns (status: InstallStatus)
      requires imagesOpen
      modifies disk`files, disk`journal
      ensures status == InstallOk || status == ErrorGeneric
      ensures var imagesOk := disk.PartitionExists(SystemGsi) && disk.BackingImageExists(SystemGsi)
                              && disk.PartitionExists(UserdataGsi) && disk.BackingImageExists(UserdataGsi);
        && (!old(LibGsi.IsGsiRunning(disk)) && !imagesOk ==>
              status == ErrorGeneric && disk.files == old(disk.files) && disk.journal == old(disk.journal))
        && (old(LibGsi.IsGsiRunning(disk)) || imagesOk ==>
              var events := EnableEvents(oneShot, OneShotBootFile in old(disk.files));
              && old(disk.journal) <= disk.journal
              && disk.journal[|old(disk.journal)|..] <= events
              && disk.files == Apply(old(disk.files), disk.journal[|old(disk.journal)|..])
              && (status != InstallOk ==>
                    && (InstallStatusFile in disk.files <==> InstallStatusFile in old(disk.files))
                    && (InstallStatusFile in old(disk.files) ==> disk.files[InstallStatusFile] == old(disk.files)[InstallStatusFile])))
        && (status == InstallOk <==>
              (old(LibGsi.IsGsiRunning(disk)) || imagesOk)
              && (if oneShot then FileWrite(OneShotBootFile) !in disk.faults
                  else OneShotBootFile !in old(disk.files) || FileRemove(OneShotBootFile) !in disk.faults)
              && FileWrite(InstallStatusFile) !in disk.faults)
      ensures status == InstallOk ==>
        disk.journal == old(disk.journal) + BootModeEvents(oneShot, OneShotBootFile in old(disk.files)) + [Wrote(InstallStatusFile, "0")]
        && LibGsi.IsGsiInstalled(disk) && disk.files[InstallStatusFile] == "0"
    {
      if !LibGsi.IsGsiRunning(disk) {
        status := CheckInstallState();
        if status != InstallOk {
          return;
        }
      }
      var enabled := EnableBootMode(disk, oneShot);
      status := if enabled then InstallOk else ErrorGeneric;
    }

    /** WipeUserdata: with both images present, userdata_gsi is mapped and
        zero blocks of 4096 bytes are written from offset 0 until
        min(1 MiB, device size) bytes are covered; the device is released
        (and the image unmapped) on every return after it was opened. */
    method WipeUserdata() returns (status: InstallStatus)
      requires imagesOpen
      modifies disk`images
      ensures status == InstallOk || status == ErrorGeneric
      ensures var imagesOk := old(disk.PartitionExists(SystemGsi)) && old(disk.BackingImageExists(SystemGsi))
                              && old(disk.PartitionExists(UserdataGsi)) && old(disk.BackingImageExists(UserdataGsi));
        && (!imagesOk ==> status == ErrorGeneric && disk.images == old(disk.images))
        && (status == InstallOk <==>
              imagesOk && ImageMap(UserdataGsi) !in disk.faults
              && var size := |old(disk.images)[UserdataGsi].data|;
                 (WipeBlocks(size) == 0 || DeviceWrite(UserdataGsi) !in disk.faults)
                 && WipeBlocks(size) * BlockSize <= size)
      ensures status == InstallOk ==>
        (UserdataGsi in old(disk.images) && UserdataGsi in disk.images
         && var size := |old(disk.images)[UserdataGsi].data|;
            (WipeBlocks(size) * BlockSize <= size
             && disk.images[UserdataGsi].data == Splice(old(disk.images)[UserdataGsi].data, 0, Zeros(WipeBlocks(size) * BlockSize))))
      ensures var mapsUser := old(disk.PartitionExists(SystemGsi)) && old(disk.BackingImageExists(SystemGsi))
                            && old(disk.PartitionExists(UserdataGsi)) && old(disk.BackingImageExists(UserdataGsi))
                            && ImageMap(UserdataGsi) !in disk.faults;
        UserdataGsi in old(disk.images) ==>
          && UserdataGsi in disk.images
          && disk.images[UserdataGsi].mapped == (if mapsUser then ImageUnmap(UserdataGsi) in disk.faults
                                                 else old(disk.images)[UserdataGsi].mapped)
          && disk.images[UserdataGsi].partition == old(disk.images)[UserdataGsi].partition
          && disk.images[UserdataGsi].readOnly == old(disk.images)[UserdataGsi].readOnly
      ensures disk.images.Keys == old(disk.images).Keys
      ensures forall n :: n in old(disk.images) && n != UserdataGsi ==> disk.images[n] == old(disk.images)[n]
    {
      status := CheckInstallState();
      if status != InstallOk {
        return;
      }
      var device := disk.OpenDevice(UserdataGsi);
      if device == null {
        return ErrorGeneric;
      }
      ghost var data0 := old(disk.images)[UserdataGsi].data;
      ghost var size := |data0|;
      var eraseSize := Min(EraseSize, device.Size());
      WipeBlocksCover(size);
      var i: nat := 0;
      ghost var blocks: nat := 0;
      while i < eraseSize
        invariant i == blocks * BlockSize && blocks <= WipeBlocks(size)
        invariant device.pos == i && i <= size
        invariant UserdataGsi in disk.images && disk.images.Keys == old(disk.images).Keys
        invariant disk.images[UserdataGsi].data == Splice(data0, 0, Zeros(i))
        invariant disk.images[UserdataGsi].partition == old(disk.images)[UserdataGsi].partition
        invariant disk.images[UserdataGsi].readOnly == old(disk.images)[UserdataGsi].readOnly
        invariant disk.images[UserdataGsi].mapped
        invariant forall n :: n in old(disk.images) && n != UserdataGsi ==> disk.images[n] == old(disk.images)[n]
        invariant blocks > 0 ==> DeviceWrite(UserdataGsi) !in disk.faults
        decreases eraseSize - i
      {
        assert blocks < WipeBlocks(size);
        var wrote := device.Write(Zeros(BlockSize));
        if !wrote {
          MulLe(blocks + 1, WipeBlocks(size), BlockSize);
          device.Close();
          return ErrorGeneric;
        }
        ZeroSpliceGrow(data0, i);
        i := i + BlockSize;
        blocks := blocks + 1;
      }
      assert blocks == WipeBlocks(size) by {
        WipeBlocksAt(size, blocks);
      }
      device.Close();
      status := InstallOk;
    }

    /** Zeroing one more block extends the zeroed prefix. */
    static lemma ZeroSpliceGrow(data0: seq<byte>, i: nat)
      requires i + BlockSize <= |data0|
      ensures Splice(Splice(data0, 0, Zeros(i)), i, Zeros(BlockSize)) == Splice(data0, 0, Zeros(i + BlockSize))
    {
      SpliceTwice(data0, 0, Zeros(i), Zeros(BlockSize));
      assert Zeros(i) + Zeros(BlockSize) == Zeros(i + BlockSize);
    }

    /** The loop stops at the first multiple of the block size covering min(1 MiB, size). */
    static lemma WipeBlocksAt(size: nat, blocks: nat)
      requires blocks <= WipeBlocks(size)
      requires blocks * BlockSize >= Min(EraseSize, size)
      ensures blocks == WipeBlocks(size)
    {
      WipeBlocksCover(size);
    }

    /** ~GsiInstaller: a session that did not succeed unmaps its images and
        removes its files (userdata_gsi only if it is to go on failure); a
        mapped shared-memory region is released in any case (munmapOk:
        whether munmap succeeds).  Dropping system_device_ unmaps system_gsi
        just as PostInstallCleanup then would, with the same resulting
        images, so only the latter is spelled out. */
    method Destroy(munmapOk: bool)
      requires succeeded || imagesOpen
      modifies this`systemDevice, this`ashmemMapped, this`ashmemSize, disk`images, disk`files, disk`journal
      ensures ashmemMapped == (old(ashmemMapped) && !munmapOk)
      ensures old(succeeded) ==>
                (disk.images == old(disk.images) && disk.files == old(disk.files) && systemDevice == old(systemDevice))
      ensures !old(succeeded) ==>
                (systemDevice == null
                 && disk.images == (var cleaned := PostInstallCleanupResult(old(disk.images), disk.faults);
                                    if disk.ManagerOpens(installDir)
                                    then Cleanup.AfterImageRemoval(cleaned, Cleanup.Targets(cleaned, wipeUserdataOnFailure), disk.faults)
                                    else cleaned)
                 && disk.files == Cleanup.AfterFileRemoval(old(disk.files), Cleanup.MarkerFiles(installDir), disk.faults))
    {
      if !succeeded {
        systemDevice := null;
        PostInstallCleanupImages(disk);
        var _ := Cleanup.RemoveGsiFiles(disk, installDir, wipeUserdataOnFailure);
      }
      if ashmemMapped {
        UnmapAshmem(munmapOk);
      }
    }
  }

  /** One image of PostInstallCleanup: unmapped if it exists, is mapped and the unmap succeeds. */
  function UnmapIfMapped(images: map<string, Image>, name: string, faults: set<Fault>): (r: map<string, Image>)
    ensures r.Keys == images.Keys
    ensures forall n :: n in images && n != name ==> r[n] == images[n]
    ensures name in images ==> r[name] == images[name].(mapped := images[name].mapped && ImageUnmap(name) in faults)
  {
    if name in images && images[name].mapped && ImageUnmap(name) !in faults
    then images[name := images[name].(mapped := false)] else images
  }

  /** The images after PostInstallCleanup: userdata_gsi, then system_gsi, unmapped where mapped. */
  function PostInstallCleanupResult(images: map<string, Image>, faults: set<Fault>): (r: map<string, Image>)
    ensures r.Keys == images.Keys
    ensures forall n :: n in images ==> r[n].(mapped := images[n].mapped) == images[n]
    ensures forall n :: n in images && n != SystemGsi && n != UserdataGsi ==> r[n] == images[n]
    ensures forall n :: n in images && (n == SystemGsi || n == UserdataGsi) ==>
              r[n].mapped == (images[n].mapped && ImageUnmap(n) in faults)
  {
    UnmapIfMapped(UnmapIfMapped(images, UserdataGsi, faults), SystemGsi, faults)
  }

  /** PostInstallCleanup(manager): only images that are mapped are unmapped. */
  method PostInstallCleanupImages(disk: Disk)
    modifies disk`images
    ensures disk.images == PostInstallCleanupResult(old(disk.images), disk.faults)
  {
    if disk.IsImageMapped(UserdataGsi) {
      var _ := disk.UnmapImageDevice(UserdataGsi);
    }
    if disk.IsImageMapped(SystemGsi) {
      var _ := disk.UnmapImageDevice(SystemGsi);
    }
  }

  /** The static PostInstallCleanup(): the same, for the recorded install
      directory, when its image manager opens. */
  method PostInstallCleanup(disk: Disk)
    modifies disk`images
    ensures disk.images == if disk.ManagerOpens(Cleanup.GetInstalledImageDir(disk))
                           then PostInstallCleanupResult(old(disk.images), disk.faults) else old(disk.images)
  {
    if !disk.ManagerOpens(Cleanup.GetInstalledImageDir(disk)) {
      return;
    }
    PostInstallCleanupImages(disk);
  }
}
