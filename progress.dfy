/** The progress record shared between the installer and anyone polling it,
    and the cooperative abort flag (GsiService::progress_, should_abort_).
    Locking is left out: every operation runs to completion on its own. */
module Progress {

  /** IGsiService.STATUS_*: the zero-initialised record reads as NoOperation. */
  datatype Status = NoOperation | Working | Complete

  datatype GsiProgress = GsiProgress(step: string, status: Status, bytesProcessed: int, totalBytes: int)

  /** The value-initialised record `progress_ = {}`. */
  const Idle: GsiProgress := GsiProgress("", NoOperation, 0, 0)

  class Channel {
    var progress: GsiProgress
    /** Every record the channel has held, in order: polled snapshots are drawn from it. */
    var history: seq<GsiProgress>
    var shouldAbort: bool

    constructor ()
      ensures progress == Idle && history == [] && !shouldAbort
    {
      progress, history, shouldAbort := Idle, [], false;
    }

    /** GsiService::StartAsyncOperation: a new step begins with nothing processed. */
    method StartAsyncOperation(step: string, totalBytes: int)
      modifies this`progress, this`history
      ensures progress == GsiProgress(step, Working, 0, totalBytes)
      ensures history == old(history) + [progress]
    {
      progress := GsiProgress(step, Working, 0, totalBytes);
      history := history + [progress];
    }

    /** GsiService::UpdateProgress: Complete pins the processed count to the step's total;
        any other status stores the count given. */
    method UpdateProgress(status: Status, bytesProcessed: int)
      modifies this`progress, this`history
      ensures progress.step == old(progress).step && progress.totalBytes == old(progress).totalBytes
      ensures progress.status == status
      ensures progress.bytesProcessed == if status == Complete then old(progress).totalBytes else bytesProcessed
      ensures history == old(history) + [progress]
    {
      progress := progress.(status := status,
                            bytesProcessed := if status == Complete then progress.totalBytes else bytesProcessed);
      history := history + [progress];
    }

    /** The abort request of cancelGsiInstall, as a plain flag. */
    method SetAbort(flag: bool)
      modifies this`shouldAbort
      ensures shouldAbort == flag
    {
      shouldAbort := flag;
    }
  }
}
