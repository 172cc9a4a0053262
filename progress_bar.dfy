/** The progress bar gsi_tool draws while an install streams (ProgressBar):
    the layout of one bar of 80 columns from a progress record, and the
    bar's state (the last record drawn) across polls.  The printed text,
    its escape codes and the polling thread are left out; what is drawn is
    recorded on a screen log. */
module ProgressView {
  import opened Common
  import opened Progress

  /** kColumns. */
  const Columns: nat := 80

  /** One drawn bar: the step, the percentage printed, and the '='/'>' and '-' runs. */
  datatype Bar = Bar(step: string, percentage: int, fills: string, dashes: string)

  /** What the source's Display(progress) does: nothing, a division by zero, or a bar. */
  datatype DisplayOutcome = Skipped | DivideByZero | Drawn(bar: Bar)

  /** fill_count '=' characters, the last one a '>' when dashes follow. */
  function FillChars(fill: nat, dashes: nat): (s: string)
    ensures |s| == fill
    ensures forall i :: 0 <= i < fill ==> s[i] == if i == fill - 1 && dashes > 0 then '>' else '='
  {
    seq(fill, i => if i == fill - 1 && dashes > 0 then '>' else '=')
  }

  function DashChars(n: nat): (s: string)
    ensures |s| == n && forall i :: 0 <= i < n ==> s[i] == '-'
  {
    seq(n, _ => '-')
  }

  /** Display(progress) as written: int64 arithmetic with C division, the
      column width total / 80, a uint32_t fill count and a uint32_t dash
      count 80 - fill that wraps when the fill exceeds 80.  A column width
      of 0 is a division by zero. */
  function DisplayAsWritten(p: GsiProgress): (o: DisplayOutcome)
    ensures o.Skipped? <==> p.totalBytes == 0
    ensures o.DivideByZero? <==> 0 < p.totalBytes < Columns || -(Columns as int) < p.totalBytes < 0
  {
    if p.totalBytes == 0 then Skipped
    else
      var percentage := Int32(Quot(p.bytesProcessed * 100, p.totalBytes));
      var perColumn := Quot(p.totalBytes, Columns);
      assert perColumn == 0 <==> -(Columns as int) < p.totalBytes < Columns by {
        if p.totalBytes < 0 {
          assert perColumn == -((-p.totalBytes) / Columns);
        }
      }
      if perColumn == 0 then DivideByZero
      else
        var fill := U32(Quot(p.bytesProcessed, perColumn));
        var dash := U32(Columns - fill);
        Drawn(Bar(p.step, percentage, FillChars(fill, dash), DashChars(dash)))
  }

  /** The two faults of the layout as written: a total of 1 to 79 bytes
      divides by zero, and a completed bar of 81 to 159 bytes has one
      column per byte, so its fill exceeds 80 and the dash count of
      80 - fill wraps to almost 2^32. */
  lemma DisplayAsWrittenFails(total: int)
    requires Columns < total < 2 * Columns
    ensures DisplayAsWritten(GsiProgress("write gsi", Working, 0, total - Columns)).DivideByZero?
    ensures var o := DisplayAsWritten(GsiProgress("write gsi", Working, total, total));
      o.Drawn? && |o.bar.fills| == total && |o.bar.dashes| == TwoTo32 + Columns - total
  {
    DivUnique(total, Columns, 1);
    assert Quot(total, Columns) == 1;
    assert Quot(total, 1) == total;
  }

  function Clamp(x: int, lo: int, hi: int): (r: int)
    requires lo <= hi
    ensures lo <= r <= hi
    ensures lo <= x <= hi ==> r == x
  {
    if x < lo then lo else if x > hi then hi else x
  }

  /** The shares of a count within a positive total: each lies between 0
      and its scale, is 0 for no count and the whole scale for the total. */
  lemma Shares(done: int, total: int)
    requires 0 <= done <= total && 0 < total
    ensures 0 <= done * Columns / total <= Columns && 0 <= done * 100 / total <= 100
    ensures done == total ==> done * Columns / total == Columns && done * 100 / total == 100
    ensures done == 0 ==> done * Columns / total == 0 && done * 100 / total == 0
  {
    MulLe(done, total, Columns);
    DivLe(done * Columns, Columns, total);
    MulLe(done, total, 100);
    DivLe(done * 100, 100, total);
    if done == total {
      DivUnique(done * Columns, total, Columns);
      DivUnique(done * 100, total, 100);
    }
  }

  /** Display(progress) as evidently intended: nothing for a total that is
      not positive; otherwise the processed count, held within the total,
      fills its share of the 80 columns, the dashes take the rest, and the
      percentage is its share of 100. */
  function Display(p: GsiProgress): (o: Option<Bar>)
    ensures o.None? <==> p.totalBytes <= 0
    ensures o.Some? ==>
      && o.value.step == p.step
      && |o.value.fills| + |o.value.dashes| == Columns
      && 0 <= o.value.percentage <= 100
      && (forall i :: 0 <= i < |o.value.fills| ==> o.value.fills[i] == if i == |o.value.fills| - 1 && o.value.dashes != [] then '>' else '=')
      && (forall i :: 0 <= i < |o.value.dashes| ==> o.value.dashes[i] == '-')
      && (0 <= p.bytesProcessed <= p.totalBytes ==>
            o.value.percentage == p.bytesProcessed * 100 / p.totalBytes
            && |o.value.fills| == p.bytesProcessed * Columns / p.totalBytes)
      && (p.bytesProcessed >= p.totalBytes ==> o.value.percentage == 100 && |o.value.fills| == Columns && o.value.dashes == [])
      && (p.bytesProcessed <= 0 ==> o.value.percentage == 0 && o.value.fills == [])
  {
    if p.totalBytes <= 0 then None
    else
      var done := Clamp(p.bytesProcessed, 0, p.totalBytes);
      Shares(done, p.totalBytes);
      var fill := done * Columns / p.totalBytes;
      var percentage := done * 100 / p.totalBytes;
      Some(Bar(p.step, percentage, FillChars(fill, Columns - fill), DashChars(Columns - fill)))
  }

  /** For a total that is a multiple of 80 and a count within it, the
      layout as written and the intended one draw the same bar. */
  lemma DisplayAgrees(p: GsiProgress)
    requires 0 < p.totalBytes && p.totalBytes % Columns == 0 && 0 <= p.bytesProcessed <= p.totalBytes
    ensures DisplayAsWritten(p) == Drawn(Display(p).value)
  {
    var n, t := p.bytesProcessed, p.totalBytes;
    var k := t / Columns;
    assert t == k * Columns;
    var q := n / k;
    assert q * k + n % k == n;
    assert n * Columns == q * t + (n % k) * Columns;
    MulLe(n % k + 1, k, Columns);
    DivUnique(n * Columns, t, q);
    MulLe(n, t, 100);
    DivLe(n * 100, 100, t);
    DivLe(n, Columns, k);
  }

  /** A larger count in the same step never draws a shorter bar or a smaller percentage. */
  lemma DisplayMonotone(p: GsiProgress, q: GsiProgress)
    requires p.totalBytes == q.totalBytes > 0 && p.bytesProcessed <= q.bytesProcessed
    ensures |Display(p).value.fills| <= |Display(q).value.fills|
    ensures Display(p).value.percentage <= Display(q).value.percentage
  {
    var t := p.totalBytes;
    var a, b := Clamp(p.bytesProcessed, 0, t), Clamp(q.bytesProcessed, 0, t);
    MulLe(a, b, Columns);
    DivMono(a * Columns, b * Columns, t);
    MulLe(a, b, 100);
    DivMono(a * 100, b * 100, t);
  }

  /** The completed bar: 100% and all 80 columns filled. */
  function FullBar(step: string): Bar
  {
    Bar(step, 100, FillChars(Columns, 0), [])
  }

  lemma DisplayComplete(p: GsiProgress)
    requires p.totalBytes > 0 && p.bytesProcessed == p.totalBytes
    ensures Display(p) == Some(FullBar(p.step))
  {
    var b := Display(p).value;
    assert b.fills == FillChars(Columns, 0);
  }

  /** What reaches the terminal: a bar, or the end of a line. */
  datatype Output = Drew(bar: Bar) | Newline

  class ProgressBar {
    /** last_update_: the record last drawn. */
    var lastUpdate: GsiProgress
    /** done_: the worker has been told to stop. */
    var done: bool
    /** worker_ is set: a worker is polling. */
    var polling: bool
    /** Everything drawn, in order. */
    var screen: seq<Output>

    constructor ()
      ensures lastUpdate == Idle && !done && !polling && screen == []
    {
      lastUpdate, done, polling, screen := Idle, false, false, [];
    }

    /** Display(progress): a record with a total is drawn and remembered. */
    method Draw(p: GsiProgress)
      modifies this`screen, this`lastUpdate
      ensures screen == old(screen) + if p.totalBytes > 0 then [Drew(Display(p).value)] else []
      ensures lastUpdate == if p.totalBytes > 0 then p else old(lastUpdate)
    {
      var bar := Display(p);
      if bar.None? {
        return;
      }
      screen := screen + [Drew(bar.value)];
      lastUpdate := p;
    }

    /** FinishLastBar: a bar in progress is redrawn at 100% and ended. */
    method FinishLastBar()
      modifies this`screen, this`lastUpdate
      ensures old(lastUpdate).totalBytes == 0 ==> screen == old(screen) && lastUpdate == old(lastUpdate)
      ensures old(lastUpdate).totalBytes != 0 ==> lastUpdate == old(lastUpdate).(bytesProcessed := old(lastUpdate).totalBytes)
      ensures old(lastUpdate).totalBytes > 0 ==> screen == old(screen) + [Drew(FullBar(old(lastUpdate).step)), Newline]
      ensures old(lastUpdate).totalBytes < 0 ==> screen == old(screen) + [Newline]
    {
      if lastUpdate.totalBytes == 0 {
        return;
      }
      lastUpdate := lastUpdate.(bytesProcessed := lastUpdate.totalBytes);
      if lastUpdate.totalBytes > 0 {
        DisplayComplete(lastUpdate);
      }
      Draw(lastUpdate);
      screen := screen + [Newline];
    }

    /** UpdateProgress: one poll of the service (latest None: the call
        failed).  An idle record draws nothing; a new step finishes the
        previous bar first. */
    method Poll(latest: Option<GsiProgress>) returns (ok: bool)
      modifies this`screen, this`lastUpdate
      ensures ok == latest.Some?
      ensures latest.None? ==> screen == old(screen) + [Newline] && lastUpdate == old(lastUpdate)
      ensures latest.Some? && latest.value.status == NoOperation ==> screen == old(screen) && lastUpdate == old(lastUpdate)
      ensures latest.Some? && latest.value.status != NoOperation ==>
        && old(screen) <= screen
        && ((old(lastUpdate).step != latest.value.step && old(lastUpdate).totalBytes > 0) ==>
              |old(screen)| + 2 <= |screen| && screen[|old(screen)|..|old(screen)| + 2] == [Drew(FullBar(old(lastUpdate).step)), Newline])
        && ((old(lastUpdate).step == latest.value.step || old(lastUpdate).totalBytes == 0) ==>
              screen == old(screen) + if latest.value.totalBytes > 0 then [Drew(Display(latest.value).value)] else [])
        && (latest.value.totalBytes > 0 ==>
              lastUpdate == latest.value && screen != [] && screen[|screen| - 1] == Drew(Display(latest.value).value))
    {
      if latest.None? {
        screen := screen + [Newline];
        return false;
      }
      var record := latest.value;
      if record.status == NoOperation {
        return true;
      }
      if lastUpdate.step != record.step {
        FinishLastBar();
      }
      Draw(record);
      ok := true;
    }

    /** Stop: the worker is told to stop and joined. */
    method Stop()
      modifies this`done, this`polling
      ensures !polling
      ensures done == (old(polling) || old(done))
    {
      if !polling {
        return;
      }
      done := true;
      polling := false;
    }

    /** Finish: with a worker running, stop it and finish its bar. */
    method Finish()
      modifies this
      ensures !polling && lastUpdate.step == old(lastUpdate).step
      ensures !old(polling) ==> screen == old(screen) && lastUpdate == old(lastUpdate)
      ensures old(polling) && old(lastUpdate).totalBytes > 0 ==> screen == old(screen) + [Drew(FullBar(old(lastUpdate).step)), Newline]
    {
      if !polling {
        return;
      }
      Stop();
      FinishLastBar();
    }

    /** Display(): finishes any bar in progress and starts polling afresh. */
    method Start()
      modifies this
      ensures polling && !done && lastUpdate == Idle
      ensures old(polling) && old(lastUpdate).totalBytes > 0 ==> screen == old(screen) + [Drew(FullBar(old(lastUpdate).step)), Newline]
      ensures !old(polling) ==> screen == old(screen)
    {
      Finish();
      done := false;
      lastUpdate := Idle;
      polling := true;
    }
  }
}
