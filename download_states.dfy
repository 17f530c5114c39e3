/**
 * The renderer's table of download states (`ElectronService` in
 * src/app/services/electron.service.ts and `DownloadService` in
 * src/app/services/download.service.ts hold the same logic): a map from file
 * id to `{progress, completed, error?}`, updated in place by the messages the
 * main process sends over the WebSocket.
 */
module DownloadStates {
  import opened Text

  /** `DownloadState`; `error` is None when the key is absent or holds undefined. */
  datatype DownloadState = DownloadState(progress: int, completed: bool, error: Option<string>)

  /** The entry installed on the first touch of an id. */
  const Initial := DownloadState(0, false, None)

  /**
   * A `Partial<DownloadState>` object literal: None for a key it does not
   * have.  For `error`, Some(None) is a key that is present but holds
   * undefined, which the spread still copies.
   */
  datatype Patch = Patch(progress: Option<int>, completed: Option<bool>, error: Option<Option<string>>)

  /** A parsed message from the main process. */
  datatype Message = Message(kind: string, file: int, progress: int, message: Option<string>)

  /** `{ ...state, ...patch }`: every key the patch has wins. */
  function Merge(state: DownloadState, patch: Patch): (r: DownloadState)
    ensures r.progress == if patch.progress.Some? then patch.progress.value else state.progress
    ensures r.completed == if patch.completed.Some? then patch.completed.value else state.completed
    ensures r.error == if patch.error.Some? then patch.error.value else state.error
  {
    DownloadState(
      match patch.progress case Some(p) => p case None => state.progress,
      match patch.completed case Some(c) => c case None => state.completed,
      match patch.error case Some(e) => e case None => state.error)
  }

  /** The patch the `switch (msg.type)` hands to updateDownloadState, if any. */
  function PatchFor(msg: Message): Option<Patch>
  {
    if msg.kind == "downloadProgress" then Some(Patch(Some(msg.progress), Some(false), None))
    else if msg.kind == "downloadComplete" then Some(Patch(Some(100), Some(true), None))
    else if msg.kind == "downloadError" then Some(Patch(Some(0), Some(false), Some(msg.message)))
    else None
  }

  /** The entry for an id, or the initial one when there is none yet. */
  function Lookup(states: map<int, DownloadState>, id: int): DownloadState
  {
    if id in states then states[id] else Initial
  }

  /** `updateDownloadState`: install the initial entry if missing, then merge. */
  function Update(states: map<int, DownloadState>, id: int, patch: Patch): (r: map<int, DownloadState>)
    ensures r.Keys == states.Keys + {id}
    ensures r[id] == Merge(Lookup(states, id), patch)
    ensures forall other :: other in states && other != id ==> r[other] == states[other]
  {
    states[id := Merge(Lookup(states, id), patch)]
  }

  /** The table after one message. */
  function Receive(states: map<int, DownloadState>, msg: Message): map<int, DownloadState>
  {
    match PatchFor(msg)
    case None => states
    case Some(patch) => Update(states, msg.file, patch)
  }

  /** The table after a sequence of messages, in order. */
  function ReceiveAll(states: map<int, DownloadState>, msgs: seq<Message>): map<int, DownloadState>
  {
    if msgs == [] then states else Receive(ReceiveAll(states, msgs[..|msgs| - 1]), msgs[|msgs| - 1])
  }

  /** What each message kind does to the entry of its file, and that nothing else changes. */
  lemma ReceiveEffect(states: map<int, DownloadState>, msg: Message)
    ensures var r, before := Receive(states, msg), Lookup(states, msg.file);
      && (msg.kind == "downloadProgress" ==> r == states[msg.file := DownloadState(msg.progress, false, before.error)])
      && (msg.kind == "downloadComplete" ==> r == states[msg.file := DownloadState(100, true, before.error)])
      && (msg.kind == "downloadError" ==> r == states[msg.file := DownloadState(0, false, msg.message)])
      && (msg.kind !in {"downloadProgress", "downloadComplete", "downloadError"} ==> r == states)
  {
  }

  /** Only the entry of the message's file can change, and entries are never removed. */
  lemma ReceiveFrame(states: map<int, DownloadState>, msg: Message, id: int)
    requires id != msg.file
    ensures Lookup(Receive(states, msg), id) == Lookup(states, id)
    ensures id in Receive(states, msg) <==> id in states
    ensures states.Keys <= Receive(states, msg).Keys
  {
  }

  // ------------------------------------------------ histories of messages

  /** A message that the switch recognises, for the given file. */
  predicate Touches(msg: Message, id: int)
  {
    msg.file == id && PatchFor(msg).Some?
  }

  /** The last message of the sequence that touches the file. */
  function LastTouch(msgs: seq<Message>, id: int): (m: Option<Message>)
    ensures m.Some? ==> m.value in msgs && Touches(m.value, id)
    ensures m.None? ==> forall k :: 0 <= k < |msgs| ==> !Touches(msgs[k], id)
  {
    if msgs == [] then None
    else if Touches(msgs[|msgs| - 1], id) then Some(msgs[|msgs| - 1])
    else LastTouch(msgs[..|msgs| - 1], id)
  }

  /** The last downloadError message for the file. */
  function LastError(msgs: seq<Message>, id: int): (m: Option<Message>)
    ensures m.Some? ==> m.value in msgs && m.value.file == id && m.value.kind == "downloadError"
  {
    if msgs == [] then None
    else if msgs[|msgs| - 1].file == id && msgs[|msgs| - 1].kind == "downloadError" then Some(msgs[|msgs| - 1])
    else LastError(msgs[..|msgs| - 1], id)
  }

  /**
   * After a history of messages, an entry is decided by the last recognised
   * message for its file (progress and completed) and by the last error
   * message for it (error), whatever came in between; a file that no message
   * touched keeps its entry, or its absence.
   */
  lemma {:induction false} EntryAfterHistory(states: map<int, DownloadState>, msgs: seq<Message>, id: int)
    ensures var r := ReceiveAll(states, msgs);
      match LastTouch(msgs, id)
      case None => Lookup(r, id) == Lookup(states, id) && (id in r <==> id in states)
      case Some(m) =>
        && id in r
        && r[id].progress == PatchFor(m).value.progress.value
        && r[id].completed == PatchFor(m).value.completed.value
        && r[id].error == match LastError(msgs, id) case Some(e) => e.message case None => Lookup(states, id).error
  {
    if msgs != [] {
      var init, last := msgs[..|msgs| - 1], msgs[|msgs| - 1];
      EntryAfterHistory(states, init, id);
      if Touches(last, id) {
        ReceiveEffect(ReceiveAll(states, init), last);
        if LastTouch(init, id).None? {
          LastErrorNeedsTouch(init, id);
        }
      } else if last.file != id {
        ReceiveFrame(ReceiveAll(states, init), last, id);
      }
    }
  }

  /** An error message is a touch, so a history without touches has no error message. */
  lemma {:induction false} LastErrorNeedsTouch(msgs: seq<Message>, id: int)
    requires LastTouch(msgs, id).None?
    ensures LastError(msgs, id).None?
  {
    if msgs != [] {
      LastErrorNeedsTouch(msgs[..|msgs| - 1], id);
    }
  }

  /**
   * An error survives a later completion: the merge keeps `error`, so an
   * entry can be completed and carry an error at once.
   */
  lemma ErrorSurvivesCompletion()
    ensures ReceiveAll(map[], [Message("downloadError", 7, 0, Some("boom")), Message("downloadComplete", 7, 0, None)])
      == map[7 := DownloadState(100, true, Some("boom"))]
  {
    var m1 := Message("downloadError", 7, 0, Some("boom"));
    var m2 := Message("downloadComplete", 7, 0, None);
    assert [m1, m2][..1] == [m1];
    assert [m1][..0] == [];
  }

  /**
   * The state table of one service.  `downloadStateSubjects` holds the ids
   * that have an RxJS subject; the subjects themselves and what they emit
   * are not modelled.
   */
  class DownloadStateTable {
    var downloadStates: map<int, DownloadState>
    var downloadStateSubjects: set<int>

    /** Every entry has a subject and every subject an entry. */
    ghost predicate Valid()
      reads this
    {
      downloadStateSubjects == downloadStates.Keys
    }

    constructor ()
      ensures Valid() && downloadStates == map[]
    {
      downloadStates := map[];
      downloadStateSubjects := {};
    }

    /** `updateDownloadState(fileId, state)`. */
    method UpdateDownloadState(fileId: int, state: Patch)
      requires Valid()
      modifies this
      ensures Valid()
      ensures downloadStates == Update(old(downloadStates), fileId, state)
    {
      if fileId !in downloadStates {
        downloadStates := downloadStates[fileId := Initial];
        downloadStateSubjects := downloadStateSubjects + {fileId};
      }
      downloadStates := downloadStates[fileId := Merge(downloadStates[fileId], state)];
    }

    /** The `onmessage` handler after JSON parsing: dispatch on `msg.type`. */
    method OnMessage(msg: Message)
      requires Valid()
      modifies this
      ensures Valid()
      ensures downloadStates == Receive(old(downloadStates), msg)
    {
      if msg.kind == "downloadProgress" {
        UpdateDownloadState(msg.file, Patch(Some(msg.progress), Some(false), None));
      } else if msg.kind == "downloadComplete" {
        UpdateDownloadState(msg.file, Patch(Some(100), Some(true), None));
      } else if msg.kind == "downloadError" {
        UpdateDownloadState(msg.file, Patch(Some(0), Some(false), Some(msg.message)));
      }
    }

    /**
     * `getDownloadState(fileId)`: an id without a subject gets one and the
     * initial entry; a known id is left as it is.
     */
    method GetDownloadState(fileId: int)
      requires Valid()
      modifies this
      ensures Valid()
      ensures fileId in downloadStates
      ensures downloadStates == if fileId in old(downloadStates) then old(downloadStates) else old(downloadStates)[fileId := Initial]
    {
      if fileId !in downloadStateSubjects {
        downloadStateSubjects := downloadStateSubjects + {fileId};
        downloadStates := downloadStates[fileId := Initial];
      }
    }
  }
}
