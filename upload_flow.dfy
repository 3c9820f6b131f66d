/**
 * The upload page's state: the selected `file`, the `uploadProgress` percentage and
 * the last aggregated result `excelData`, updated by `handleFileChange`, the upload
 * progress callback and `handleUpload`.
 *
 * The POST to `/processar-votos` is not modelled; its observable effects are inputs:
 * the progress events the transport reports, in order, and how the request ends.
 */
module UploadFlow {
  import opened Wrappers
  import opened SpreadsheetExport

  /** A file chosen in the file input; its contents are never inspected here. */
  datatype File = File(name: string, size: nat)

  /** An upload progress event; `total` is None when the transport does not know it. */
  datatype ProgressEvent = ProgressEvent(loaded: nat, total: Option<nat>)

  /** How the POST ends: a response whose `data` may be empty (falsy), or a thrown error. */
  datatype PostOutcome = Responded(data: Option<RespostaBackend>) | Failed

  /** `if (progressEvent.total)`: an unknown total and a total of 0 are both falsy. */
  predicate HasTotal(e: ProgressEvent) {
    e.total.Some? && e.total.value > 0
  }

  /** `Math.round((loaded * 100) / total)` on exact arithmetic: the nearest integer, halves rounded up. */
  function RoundPercent(loaded: nat, total: nat): (p: int)
    requires total > 0
    ensures p >= 0
    ensures 2 * p * total - total <= 200 * loaded < 2 * p * total + total
  {
    var n, d := 200 * loaded + total, 2 * total;
    var p := n / d;
    assert n == d * p + n % d;
    p
  }

  /** The percentage stays within 0..100 while no more than the total has been sent. */
  lemma RoundPercentBounded(loaded: nat, total: nat)
    requires 0 < total && loaded <= total
    ensures 0 <= RoundPercent(loaded, total) <= 100
  {
    var p := RoundPercent(loaded, total);
    var k := p - 101;
    assert 2 * p * total == 202 * total + 2 * k * total;
    assert k >= 0 ==> k * total >= 0;
  }

  /** More bytes sent never shows a smaller percentage. */
  lemma RoundPercentMonotone(l1: nat, l2: nat, total: nat)
    requires 0 < total && l1 <= l2
    ensures RoundPercent(l1, total) <= RoundPercent(l2, total)
  {
    var p1, p2 := RoundPercent(l1, total), RoundPercent(l2, total);
    var k := p1 - p2 - 1;
    assert 2 * p1 * total == 2 * p2 * total + 2 * total + 2 * k * total;
    assert k >= 0 ==> k * total >= 0;
  }

  /** The values the progress callback passes to `setUploadProgress` for the events `es`, in order. */
  function ProgressUpdates(es: seq<ProgressEvent>): seq<int> {
    if es == [] then []
    else
      var e := es[|es| - 1];
      ProgressUpdates(es[..|es| - 1]) + (if HasTotal(e) then [RoundPercent(e.loaded, e.total.value)] else [])
  }

  /** Every value shown lies in 0..100 when no event reports more bytes than its total. */
  lemma {:induction false} ProgressUpdatesBounded(es: seq<ProgressEvent>)
    requires forall i :: 0 <= i < |es| && es[i].total.Some? ==> es[i].loaded <= es[i].total.value
    ensures forall v :: v in ProgressUpdates(es) ==> 0 <= v <= 100
  {
    if es != [] {
      var e := es[|es| - 1];
      assert forall i :: 0 <= i < |es| - 1 ==> es[..|es| - 1][i] == es[i];
      ProgressUpdatesBounded(es[..|es| - 1]);
      if HasTotal(e) {
        RoundPercentBounded(e.loaded, e.total.value);
      }
    }
  }

  /** With one known total and a growing byte count, the values shown never go down. */
  lemma {:induction false} ProgressUpdatesMonotone(es: seq<ProgressEvent>, total: nat)
    requires total > 0
    requires forall i :: 0 <= i < |es| ==> es[i].total == Some(total)
    requires forall i, j :: 0 <= i < j < |es| ==> es[i].loaded <= es[j].loaded
    ensures |ProgressUpdates(es)| == |es|
    ensures forall i, j :: 0 <= i < j < |es| ==> ProgressUpdates(es)[i] <= ProgressUpdates(es)[j]
    ensures forall i :: 0 <= i < |es| ==> ProgressUpdates(es)[i] == RoundPercent(es[i].loaded, total)
  {
    if es != [] {
      var n := |es| - 1;
      assert forall i :: 0 <= i < n ==> es[..n][i] == es[i];
      ProgressUpdatesMonotone(es[..n], total);
      forall i | 0 <= i < n ensures RoundPercent(es[i].loaded, total) <= RoundPercent(es[n].loaded, total) {
        RoundPercentMonotone(es[i].loaded, es[n].loaded, total);
      }
    }
  }

  class UploadPage {
    var file: Option<File>
    var uploadProgress: int
    var excelData: Option<RespostaBackend>

    /** The initial state: `useState(null)`, `useState(0)`, `useState(null)`. */
    constructor ()
      ensures file == None && uploadProgress == 0 && excelData == None
    {
      file := None;
      uploadProgress := 0;
      excelData := None;
    }

    /**
     * `handleFileChange`: the first chosen file is selected when the input reports at
     * least one; a null or empty file list changes nothing.
     */
    method HandleFileChange(files: Option<seq<File>>)
      modifies this`file
      ensures file == if files.Some? && |files.value| > 0 then Some(files.value[0]) else old(file)
    {
      if files.Some? && |files.value| > 0 {
        file := Some(files.value[0]);
      }
    }

    /** `onUploadProgress`: the percentage is updated only when the event has a truthy total. */
    method OnUploadProgress(e: ProgressEvent)
      modifies this`uploadProgress
      ensures HasTotal(e) ==> uploadProgress == RoundPercent(e.loaded, e.total.value)
      ensures !HasTotal(e) ==> uploadProgress == old(uploadProgress)
    {
      if HasTotal(e) {
        var percent := RoundPercent(e.loaded, e.total.value);
        uploadProgress := percent;
      }
    }

    /**
     * `handleUpload`. Without a selected file nothing is sent and nothing changes.
     * Otherwise the file is posted (`posted`), each progress event goes through
     * `OnUploadProgress` (`shown` lists the values given to `setUploadProgress` before
     * the final reset), a non-empty response replaces `excelData`, an empty response or
     * an error leaves it, and `finally` resets the progress to 0.
     */
    method HandleUpload(events: seq<ProgressEvent>, outcome: PostOutcome)
      returns (ghost posted: Option<File>, ghost shown: seq<int>)
      modifies this`uploadProgress, this`excelData
      ensures posted == old(file) && file == old(file)
      ensures old(file).None? ==>
        shown == [] && uploadProgress == old(uploadProgress) && excelData == old(excelData)
      ensures old(file).Some? ==> shown == ProgressUpdates(events) && uploadProgress == 0
      ensures old(file).Some? ==>
        excelData == if outcome.Responded? && outcome.data.Some? then outcome.data else old(excelData)
    {
      posted := file;
      shown := [];
      if file.None? {
        return;
      }
      var i := 0;
      while i < |events|
        invariant i <= |events|
        invariant shown == ProgressUpdates(events[..i])
        invariant excelData == old(excelData) && file == old(file)
      {
        OnUploadProgress(events[i]);
        if HasTotal(events[i]) {
          shown := shown + [uploadProgress];
        }
        assert events[..i + 1][..i] == events[..i];
        i := i + 1;
      }
      assert events[..i] == events;
      if outcome.Responded? && outcome.data.Some? {
        excelData := outcome.data;
      }
      uploadProgress := 0;
    }
  }
}
