/** The caller's input stream (a pipe or socket descriptor) from which the
    payload is read.  How each read() behaves is given by a schedule of
    replies, one per read: a negative reply makes that read fail, a reply
    of 0 makes it return 0 (the writer hung up), and a positive reply caps
    what it delivers.  Reads past the end of the schedule deliver all they
    are asked for that is still pending. */
module Stream {
  import opened Common

  /** What read(fd, buf, max) returns with `pending` bytes not yet
      delivered and `schedule` as the replies still to come. */
  function ReadSize(schedule: seq<int>, max: nat, pending: nat): (rv: int)
    ensures rv == -1 || 0 <= rv <= Min(max, pending)
    ensures rv < 0 <==> |schedule| > 0 && schedule[0] < 0
    ensures |schedule| == 0 ==> rv == Min(max, pending)
  {
    if |schedule| == 0 then Min(max, pending)
    else if schedule[0] < 0 then -1
    else Min(Min(max, schedule[0]), pending)
  }

  /** The replies left once one read() has been served. */
  function Rest(schedule: seq<int>): seq<int>
  {
    if |schedule| == 0 then [] else schedule[1..]
  }

  class InputStream {
    /** The bytes not yet delivered; end of stream once empty. */
    var data: seq<byte>
    /** The replies of the reads to come, in order. */
    var schedule: seq<int>
    /** The byte counts asked for by each read(), in order. */
    var requests: seq<nat>

    constructor (data0: seq<byte>, schedule0: seq<int>)
      ensures data == data0 && schedule == schedule0 && requests == []
    {
      data, schedule, requests := data0, schedule0, [];
    }

    /** read(fd, buf, max): -1 on error, 0 at end of stream, else the count
        delivered, which are the next bytes of the stream. */
    method Read(max: nat) returns (rv: int, buf: seq<byte>)
      modifies this
      ensures requests == old(requests) + [max]
      ensures schedule == Rest(old(schedule))
      ensures rv == ReadSize(old(schedule), max, |old(data)|)
      ensures rv < 0 ==> buf == [] && data == old(data)
      ensures rv >= 0 ==> rv == |buf| && buf == old(data)[..rv] && data == old(data)[rv..]
    {
      requests := requests + [max];
      rv := ReadSize(schedule, max, |data|);
      schedule := Rest(schedule);
      if rv < 0 {
        buf := [];
      } else {
        buf := data[..rv];
        data := data[rv..];
      }
    }
  }
}
