/**
 * The progress cell of the files grid
 * (src/app/components/shared/progress.renderer.ts): the label drawn over the
 * progress bar and the row written back to the `fileDownloads` table each
 * time the file's download state changes.
 */
module ProgressRenderer {
  import opened Text
  import opened DownloadStates

  /** The `status` column of a file download row. */
  datatype Status = Completed | Failed | Downloading

  /** The text stored for a status. */
  function StatusText(status: Status): string
  {
    match status
    case Completed => "Completed"
    case Failed => "Error"
    case Downloading => "Downloading"
  }

  /** Completion wins over an error, and only a non-empty error message counts. */
  function StatusOf(state: DownloadState): (status: Status)
    ensures status == Completed <==> state.completed
    ensures status == Failed <==> !state.completed && Truthy(state.error)
    ensures status == Downloading <==> !state.completed && !Truthy(state.error)
  {
    if state.completed then Completed
    else if Truthy(state.error) then Failed
    else Downloading
  }

  /** The `data-label` of the bar: the same three cases, with the error text or the percentage. */
  function Label(state: DownloadState): string
  {
    if state.completed then "Completed"
    else if Truthy(state.error) then "Error: " + state.error.value
    else IntToString(state.progress) + "%"
  }

  /** The changes handed to `db.fileDownloads.update` for one emitted state. */
  datatype RowChanges = RowChanges(progress: int, status: string)

  /** The `next` callback of the subscription: the bar's value and its status, written back. */
  function RowChangesFor(state: DownloadState): (changes: RowChanges)
    ensures changes.progress == state.progress
    ensures changes.status in {"Completed", "Error", "Downloading"}
    ensures changes.status == StatusText(StatusOf(state))
  {
    RowChanges(state.progress, StatusText(StatusOf(state)))
  }

  /**
   * The label shown and the status stored always agree: the label starts
   * with the status word, and a running download is labelled with its
   * percentage.
   */
  lemma LabelFollowsStatus(state: DownloadState)
    ensures var text, status := Label(state), RowChangesFor(state).status;
      && (StartsWith(text, "Completed") <==> status == "Completed")
      && (StartsWith(text, "Error: ") <==> status == "Error")
      && (status == "Downloading" <==> text == IntToString(state.progress) + "%")
  {
    var text := Label(state);
    var digits := IntToString(state.progress);
    if state.completed {
      assert text[0] == 'C';
    } else if Truthy(state.error) {
      assert text[..7] == "Error: ";
      assert text[0] != "Completed"[0];
    } else {
      assert text[0] == digits[0];
    }
  }

  /** A running download is labelled with the decimal digits of its progress, read back exactly. */
  lemma LabelOfRunningDownload(p: nat)
    ensures Label(DownloadState(p, false, None)) == NatToString(p) + "%"
    ensures DecimalValue(Label(DownloadState(p, false, None))[..|NatToString(p)|]) == p
  {
    var digits := NatToString(p);
    assert (digits + "%")[..|digits|] == digits;
    NatToStringRoundTrip(p);
  }

  /**
   * What the row shows after each message for its file: a completion always
   * reads Completed; an error reads Error unless its message is empty; a
   * progress report reads Downloading only while no earlier error is kept.
   */
  lemma StatusAfterMessage(states: map<int, DownloadState>, msg: Message)
    ensures var s := Lookup(Receive(states, msg), msg.file);
      && (msg.kind == "downloadComplete" ==> StatusOf(s) == Completed && Label(s) == "Completed")
      && (msg.kind == "downloadError" ==> StatusOf(s) == (if Truthy(msg.message) then Failed else Downloading))
      && (msg.kind == "downloadProgress" ==>
            StatusOf(s) == (if Truthy(Lookup(states, msg.file).error) then Failed else Downloading))
  {
    ReceiveEffect(states, msg);
  }

  /** An error hides later progress: the bar keeps reading Error while reports arrive. */
  lemma ErrorHidesProgress()
    ensures var states := ReceiveAll(map[], [Message("downloadError", 3, 0, Some("timeout")), Message("downloadProgress", 3, 40, None)]);
      && states[3].progress == 40
      && Label(states[3]) == "Error: timeout"
      && RowChangesFor(states[3]) == RowChanges(40, "Error")
  {
    var m1 := Message("downloadError", 3, 0, Some("timeout"));
    var m2 := Message("downloadProgress", 3, 40, None);
    assert [m1, m2][..1] == [m1];
    assert [m1][..0] == [];
  }
}
