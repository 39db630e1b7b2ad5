/** The user-interface side of a sync run (src/app/sync_ops.rs): starting an
    upload or download, and draining the worker's messages into the status
    bar. The worker thread and its channel are not modelled as concurrency:
    the receiver holds the messages sent and not yet received, and `Deliver`
    stands for the worker sending more of them. */
module SyncOps {
  import opened Wrappers
  import opened Manifest
  import opened WebDav

  /** `SyncStatus`: what the status bar shows about sync. */
  datatype SyncStatus = Idle | InProgress(text: string) | Success(text: string) | Error(text: string)
  {
    /** A run is under way; no second one may start. */
    predicate IsBusy() {
      InProgress?
    }
  }

  /** The part of `App` that sync touches. */
  datatype SyncUi = SyncUi(status: SyncStatus, receiver: Option<seq<SyncMessage>>, errorMessage: Option<string>)

  const NotConfiguredText: string := "请先配置 WebDAV"
  const PreparingUploadText: string := "准备上传..."
  const PreparingDownloadText: string := "准备下载..."
  const UploadDoneText: string := "上传完成"
  const DownloadDoneText: string := "下载完成"

  // ---------------------------------------------------------------------------
  // Starting a run

  /** The guard and set-up shared by `trigger_sync` and `trigger_download`:
      nothing while a run is busy, an error note when sync is not configured,
      otherwise a fresh receiver and an in-progress status. */
  function Trigger(ui: SyncUi, config: WebDavConfig, preparing: string): (r: SyncUi)
    ensures ui.status.IsBusy() ==> r == ui
    ensures !ui.status.IsBusy() && !IsConfigured(config) ==>
      r.errorMessage == Some(NotConfiguredText) && r.status == ui.status && r.receiver == ui.receiver
    ensures !ui.status.IsBusy() && IsConfigured(config) ==>
      r.receiver == Some([]) && r.status == InProgress(preparing) && r.errorMessage == ui.errorMessage
  {
    if ui.status.IsBusy() then ui
    else if !IsConfigured(config) then ui.(errorMessage := Some(NotConfiguredText))
    else ui.(receiver := Some([]), status := InProgress(preparing))
  }

  /** `trigger_sync`: an upload run starts with the "preparing upload" note. */
  function TriggerSync(ui: SyncUi, config: WebDavConfig): (r: SyncUi)
    ensures ui.status.IsBusy() ==> r == ui
    ensures !ui.status.IsBusy() && !IsConfigured(config) ==> r == ui.(errorMessage := Some(NotConfiguredText))
    ensures !ui.status.IsBusy() && IsConfigured(config) ==>
      r == ui.(receiver := Some([]), status := InProgress(PreparingUploadText))
  {
    Trigger(ui, config, PreparingUploadText)
  }

  /** `trigger_download`: a download run starts with the "preparing download"
      note. */
  function TriggerDownload(ui: SyncUi, config: WebDavConfig): (r: SyncUi)
    ensures ui.status.IsBusy() ==> r == ui
    ensures !ui.status.IsBusy() && !IsConfigured(config) ==> r == ui.(errorMessage := Some(NotConfiguredText))
    ensures !ui.status.IsBusy() && IsConfigured(config) ==>
      r == ui.(receiver := Some([]), status := InProgress(PreparingDownloadText))
  {
    Trigger(ui, config, PreparingDownloadText)
  }

  /** Pressing the trigger again while the run is under way changes nothing,
      so at most one worker runs at a time. */
  lemma TriggerIsExclusive(ui: SyncUi, config: WebDavConfig, first: string, second: string)
    ensures var once := Trigger(ui, config, first);
      IsConfigured(config) || ui.status.IsBusy() ==> Trigger(once, config, second) == once
  {
  }

  /** With the default settings nothing starts: the error note is set and no
      receiver is installed. */
  lemma DefaultConfigRefuses(ui: SyncUi)
    requires ui.status == Idle && ui.receiver.None?
    ensures TriggerSync(ui, DefaultConfig).errorMessage == Some(NotConfiguredText)
    ensures TriggerSync(ui, DefaultConfig).receiver.None?
    ensures TriggerDownload(ui, DefaultConfig).receiver.None?
  {
  }

  // ---------------------------------------------------------------------------
  // Draining messages

  /** The worker sends `msgs`; once the receiver is dropped the sends are lost,
      which the worker ignores. */
  function Deliver(ui: SyncUi, msgs: seq<SyncMessage>): (r: SyncUi)
    ensures ui.receiver.Some? ==> r.receiver == Some(ui.receiver.value + msgs)
    ensures ui.receiver.None? ==> r == ui
    ensures r.status == ui.status && r.errorMessage == ui.errorMessage
  {
    match ui.receiver
    case None => ui
    case Some(q) => ui.(receiver := Some(q + msgs))
  }

  /** The status one message sets. */
  function StatusAfter(m: SyncMessage, describe: ProgressNote -> string, explain: SyncError -> string): (s: SyncStatus)
    ensures s.IsBusy() <==> m.Progress?
  {
    match m
    case Progress(note) => InProgress(describe(note))
    case UploadComplete => SyncStatus.Success(UploadDoneText)
    case DownloadComplete => SyncStatus.Success(DownloadDoneText)
    case Failed(e) => Error(explain(e))
  }

  /** The position of the first terminal message of `q`, if any. */
  function FirstTerminal(q: seq<SyncMessage>): (r: Option<nat>)
    ensures r.Some? ==> r.value < |q| && q[r.value].IsTerminal()
    ensures r.Some? ==> forall j :: 0 <= j < r.value ==> !q[j].IsTerminal()
    ensures r.None? ==> forall j :: 0 <= j < |q| ==> !q[j].IsTerminal()
    decreases |q|
  {
    if q == [] then None
    else
      var init := q[..|q| - 1];
      match FirstTerminal(init)
      case Some(t) => Some(t)
      case None => if q[|q| - 1].IsTerminal() then Some(|q| - 1) else None
  }

  /** What a poll leaves, stated over the whole queue: up to the first terminal
      message every note overwrites the status; the terminal message sets the
      final status and drops the receiver (with whatever followed it); without
      one the queue is emptied and the receiver kept. The flag says whether
      the library is reloaded, which happens after a download. */
  function Polled(ui: SyncUi, describe: ProgressNote -> string, explain: SyncError -> string): (r: (SyncUi, bool))
    ensures r.0.errorMessage == ui.errorMessage
    ensures r.1 ==> ui.receiver.Some?
  {
    match ui.receiver
    case None => (ui, false)
    case Some(q) =>
      match FirstTerminal(q)
      case Some(t) => (ui.(status := StatusAfter(q[t], describe, explain), receiver := None), q[t] == DownloadComplete)
      case None =>
        var last := if q == [] then ui.status else StatusAfter(q[|q| - 1], describe, explain);
        (ui.(status := last, receiver := Some([])), false)
  }

  /** `poll_sync_status`: receive until the queue is empty or a terminal
      message arrives. */
  method PollSyncStatus(ui: SyncUi, describe: ProgressNote -> string, explain: SyncError -> string)
      returns (r: SyncUi, reload: bool)
    ensures (r, reload) == Polled(ui, describe, explain)
  {
    if ui.receiver.None? {
      return ui, false;
    }
    var q := ui.receiver.value;
    var status := ui.status;
    var i := 0;
    while i < |q|
      invariant 0 <= i <= |q|
      invariant forall j :: 0 <= j < i ==> !q[j].IsTerminal()
      invariant status == if i == 0 then ui.status else StatusAfter(q[i - 1], describe, explain)
    {
      match q[i] {
        case Progress(note) =>
          status := InProgress(describe(note));
        case UploadComplete =>
          FirstTerminalAt(q, i);
          return ui.(status := SyncStatus.Success(UploadDoneText), receiver := None), false;
        case DownloadComplete =>
          FirstTerminalAt(q, i);
          return ui.(status := SyncStatus.Success(DownloadDoneText), receiver := None), true;
        case Failed(e) =>
          FirstTerminalAt(q, i);
          return ui.(status := Error(explain(e)), receiver := None), false;
      }
      i := i + 1;
    }
    FirstTerminalNone(q);
    r, reload := ui.(status := status, receiver := Some([])), false;
  }

  /** A terminal message with none before it is the first. */
  lemma {:induction false} FirstTerminalAt(q: seq<SyncMessage>, i: nat)
    requires i < |q| && q[i].IsTerminal()
    requires forall j :: 0 <= j < i ==> !q[j].IsTerminal()
    ensures FirstTerminal(q) == Some(i)
    decreases |q|
  {
    if i < |q| - 1 {
      var init := q[..|q| - 1];
      FirstTerminalAt(init, i);
    } else {
      FirstTerminalNone(q[..|q| - 1]);
    }
  }

  /** Without terminal messages there is no first one. */
  lemma FirstTerminalNone(q: seq<SyncMessage>)
    requires forall j :: 0 <= j < |q| ==> !q[j].IsTerminal()
    ensures FirstTerminal(q) == None
  {
  }

  /** The first terminal message of a queue that grew behind a run of notes. */
  lemma {:induction false} FirstTerminalAfterNotes(q: seq<SyncMessage>, more: seq<SyncMessage>)
    requires FirstTerminal(q).None?
    ensures FirstTerminal(more).Some? ==> FirstTerminal(q + more) == Some(|q| + FirstTerminal(more).value)
    ensures FirstTerminal(more).None? ==> FirstTerminal(q + more).None?
  {
    var all := q + more;
    if FirstTerminal(more).Some? {
      var t := FirstTerminal(more).value;
      assert all[|q| + t] == more[t];
      forall j | 0 <= j < |q| + t ensures !all[j].IsTerminal() {
        if j < |q| { assert all[j] == q[j]; } else { assert all[j] == more[j - |q|]; }
      }
      FirstTerminalAt(all, |q| + t);
    } else {
      forall j | 0 <= j < |all| ensures !all[j].IsTerminal() {
        if j < |q| { assert all[j] == q[j]; } else { assert all[j] == more[j - |q|]; }
      }
      FirstTerminalNone(all);
    }
  }

  /** Polling does not depend on how the worker's messages were split across
      polls: polling after a first batch without a terminal message, then after
      the rest (possibly nothing new, the idle poll), ends where a single poll
      after everything ends. */
  lemma PollInBatches(ui: SyncUi, first: seq<SyncMessage>, rest: seq<SyncMessage>,
                      describe: ProgressNote -> string, explain: SyncError -> string)
    requires ui.receiver == Some([])
    requires FirstTerminal(first).None?
    ensures Polled(Deliver(Polled(Deliver(ui, first), describe, explain).0, rest), describe, explain)
         == Polled(Deliver(ui, first + rest), describe, explain)
  {
    var mid := Polled(Deliver(ui, first), describe, explain).0;
    assert [] + first == first;
    if rest == [] {
      assert first + rest == first;
      assert Deliver(mid, rest) == mid;
      PollIdleKeeps(mid, describe, explain);
    } else {
      PollAfterNotes(ui, mid, first, rest, describe, explain);
    }
  }

  /** A poll that finds nothing new changes nothing and reloads nothing. */
  lemma PollIdleKeeps(ui: SyncUi, describe: ProgressNote -> string, explain: SyncError -> string)
    requires ui.receiver == Some([])
    ensures Polled(ui, describe, explain) == (ui, false)
  {
    assert FirstTerminal([]) == None;
  }

  /** The second poll of `PollInBatches` when more messages did arrive: only
      their last note, or their first terminal message, decides the result. */
  lemma PollAfterNotes(ui: SyncUi, mid: SyncUi, first: seq<SyncMessage>, rest: seq<SyncMessage>,
                       describe: ProgressNote -> string, explain: SyncError -> string)
    requires ui.receiver == Some([]) && FirstTerminal(first).None? && rest != []
    requires mid == Polled(Deliver(ui, first), describe, explain).0
    ensures Polled(Deliver(mid, rest), describe, explain) == Polled(Deliver(ui, first + rest), describe, explain)
  {
    var q := first + rest;
    assert [] + first == first && [] + rest == rest && [] + q == q;
    assert mid == ui.(status := mid.status);
    assert Deliver(mid, rest) == mid.(receiver := Some(rest));
    FirstTerminalAfterNotes(first, rest);
    if FirstTerminal(rest).Some? {
      var t := FirstTerminal(rest).value;
      assert q[|first| + t] == rest[t];
    } else {
      assert q[|q| - 1] == rest[|rest| - 1];
    }
  }

  /** A whole run delivered to a freshly started receiver ends in the status
      of its terminal message, with the receiver dropped, so a new run may
      start. */
  lemma RunEndsIdleForNextTrigger(ui: SyncUi, config: WebDavConfig, preparing: string, msgs: seq<SyncMessage>,
                                  describe: ProgressNote -> string, explain: SyncError -> string)
    requires !ui.status.IsBusy() && IsConfigured(config)
    requires |msgs| > 0 && msgs[|msgs| - 1].IsTerminal()
    requires forall i :: 0 <= i < |msgs| - 1 ==> !msgs[i].IsTerminal()
    ensures var (after, reload) := Polled(Deliver(Trigger(ui, config, preparing), msgs), describe, explain);
      && after.status == StatusAfter(msgs[|msgs| - 1], describe, explain)
      && after.receiver.None?
      && !after.status.IsBusy()
      && (reload <==> msgs[|msgs| - 1] == DownloadComplete)
  {
    assert [] + msgs == msgs;
    FirstTerminalAt(msgs, |msgs| - 1);
  }
}
