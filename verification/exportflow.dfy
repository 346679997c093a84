/** The export run behind the download button (`handleDownload`) and the
    progress dialog it drives (`ExportProgress`). A run opens the dialog,
    processes the images one by one, builds the archive, downloads it and
    reports completion; whatever is thrown on the way ends the run with an
    error. The run is modelled by the sequence of dialog states it sets, the
    images it processed and the archive it built; where it fails is a
    parameter, since the failures come from the browser. */
module Export {
  import opened Wrappers
  import opened Elements
  import Workspace
  import Compositing
  import Archive

  datatype Status = Processing | Compressing | Downloading | Completed | Failed

  /** What the `catch` receives: an `Error` with its message, or any other
      value. */
  datatype Thrown = ErrorObject(message: string) | OtherValue

  const UnknownError: string := "Неизвестная ошибка"

  /** `error instanceof Error ? error.message : "Неизвестная ошибка"`. */
  function ErrorText(t: Thrown): (r: string)
    ensures t.ErrorObject? ==> r == t.message
    ensures t.OtherValue? ==> r == UnknownError
  {
    match t
    case ErrorObject(m) => m
    case OtherValue => UnknownError
  }

  /** The dialog state held by the app. */
  datatype DialogState = DialogState(
    isOpen: bool, currentImage: string, currentIndex: int, total: int,
    status: Status, error: Option<string>)

  /** The state before any export. */
  const Closed := DialogState(false, "", 0, 0, Processing, None)

  /** Where a run fails: while processing an image, while building the
      archive, or while downloading it. */
  datatype Fault =
    | ImageFault(index: nat, thrown: Thrown)
    | ArchiveFault(thrown: Thrown)
    | DownloadFault(thrown: Thrown)

  /** A processed image: its output name and what was drawn. */
  datatype Processed = Processed(name: string, commands: seq<Compositing.Draw>)

  /** The outcome of a run: every dialog state it set, in order, the images
      it processed, the archive it built, and whether the download ran. */
  datatype Run = Run(trace: seq<DialogState>, processed: seq<Processed>,
                     archive: Option<seq<Archive.Entry>>, downloaded: bool)

  /** `processImageWithDots(image, texts, standaloneDots)`. */
  function Process(img: Workspace.Image, texts: seq<Text>, dots: seq<Dot>): (r: Processed)
    ensures |r.name| >= 4 && r.name[|r.name| - 4..] == ".png"
    ensures |r.commands| >= 1 && r.commands[0] == Compositing.Backdrop
    ensures r.commands == Compositing.ExportCommands(img, [], [])
  {
    Processed(Archive.OutputName(img.name), Compositing.ExportCommands(img, texts, dots))
  }

  function ProcessAll(images: seq<Workspace.Image>, k: nat, texts: seq<Text>, dots: seq<Dot>): (r: seq<Processed>)
    requires k <= |images|
    ensures |r| == k && forall i :: 0 <= i < k ==> r[i] == Process(images[i], texts, dots)
  {
    seq(k, i requires 0 <= i < k => Process(images[i], texts, dots))
  }

  function Names(ps: seq<Processed>): (r: seq<string>)
    ensures |r| == |ps| && forall i :: 0 <= i < |ps| ==> r[i] == ps[i].name
  {
    seq(|ps|, i requires 0 <= i < |ps| => ps[i].name)
  }

  /** The state that opens the dialog on a run over `n` images. */
  function Open(n: nat): DialogState {
    DialogState(true, "", 1, n, Processing, None)
  }

  /** The state set before image `i` is processed. */
  function Before(images: seq<Workspace.Image>, i: nat): DialogState
    requires i < |images|
  {
    Open(|images|).(currentImage := images[i].name, currentIndex := i + 1)
  }

  /** The states set while processing the first `k` images. */
  function Steps(images: seq<Workspace.Image>, k: nat): (r: seq<DialogState>)
    requires k <= |images|
    ensures |r| == k && forall i :: 0 <= i < k ==> r[i] == Before(images, i)
  {
    seq(k, i requires 0 <= i < k => Before(images, i))
  }

  /** The `catch`: keep the rest, record the error. */
  function Fail(st: DialogState, t: Thrown): DialogState {
    st.(status := Failed, error := Some(ErrorText(t)))
  }

  /** A fault that can happen: an image fault names an image of the run. */
  predicate Possible(images: seq<Workspace.Image>, fault: Option<Fault>) {
    fault.Some? && fault.value.ImageFault? ==> fault.value.index < |images|
  }

  /** How many images the run starts: all of them, unless one fails. */
  function Reached(images: seq<Workspace.Image>, fault: Option<Fault>): (m: nat)
    requires |images| > 0 && Possible(images, fault)
    ensures 1 <= m <= |images|
    ensures fault.None? || !fault.value.ImageFault? ==> m == |images|
  {
    if fault.Some? && fault.value.ImageFault? then fault.value.index + 1 else |images|
  }

  /** How many images the run finishes. */
  function Finished(images: seq<Workspace.Image>, fault: Option<Fault>): (m: nat)
    requires Possible(images, fault)
    ensures m <= |images|
    ensures fault.None? || !fault.value.ImageFault? ==> m == |images|
  {
    if fault.Some? && fault.value.ImageFault? then fault.value.index else |images|
  }

  /** `st` differs from `last` at most in its status and error. */
  predicate Keeps(st: DialogState, last: DialogState) {
    && st.isOpen == last.isOpen && st.currentImage == last.currentImage
    && st.currentIndex == last.currentIndex && st.total == last.total
  }

  /** The states set after the last image was started: the error state on
      an image fault; otherwise compressing, then downloading, then either
      the error state or completion. Only the status and the error change. */
  function Ending(last: DialogState, fault: Option<Fault>): (r: seq<DialogState>)
    ensures 1 <= |r| <= 3
    ensures forall j :: 0 <= j < |r| ==> Keeps(r[j], last)
    ensures fault.None? <==> r[|r| - 1].status == Completed
    ensures fault.Some? ==> r[|r| - 1] == Fail(r[|r| - 1], fault.value.thrown)
    ensures forall j :: 0 <= j < |r| - 1 ==> r[j].status == Compressing || r[j].status == Downloading
    ensures |r| > 1 ==> r[0].status == Compressing
    ensures |r| > 2 ==> r[1].status == Downloading
    ensures |r| == 1 <==> fault.Some? && fault.value.ImageFault?
    ensures |r| == 2 <==> fault.Some? && fault.value.ArchiveFault?
    ensures fault.None? || fault.value.DownloadFault? ==> |r| == 3
  {
    if fault.Some? && fault.value.ImageFault? then [Fail(last, fault.value.thrown)]
    else
      var compressing := last.(status := Compressing);
      if fault.Some? && fault.value.ArchiveFault? then [compressing, Fail(compressing, fault.value.thrown)]
      else
        var downloading := compressing.(status := Downloading);
        if fault.Some? then [compressing, downloading, Fail(downloading, fault.value.thrown)]
        else [compressing, downloading, downloading.(status := Completed)]
  }

  /** `handleDownload`, given the images, the editor's texts and dots (passed
      on and ignored), and the fault, if any: nothing happens without images;
      otherwise the dialog opens, the images are processed in order up to
      the failing one, and the archive is built and downloaded unless the
      run failed before. */
  function Download(images: seq<Workspace.Image>, texts: seq<Text>, dots: seq<Dot>,
                    fault: Option<Fault>): (r: Run)
    requires Possible(images, fault)
    ensures |images| == 0 ==> r == Run([], [], None, false)
    ensures r.downloaded <==> |images| > 0 && fault.None?
    ensures r.archive.Some? <==> |images| > 0 && (fault.None? || fault.value.DownloadFault?)
    ensures |images| > 0 ==> |r.trace| > 0 && r.trace[0] == Open(|images|)
    ensures |r.processed| <= |images|
    ensures forall i :: 0 <= i < |r.processed| ==> r.processed[i] == Process(images[i], texts, dots)
  {
    if |images| == 0 then Run([], [], None, false)
    else
      var steps := Steps(images, Reached(images, fault));
      var processed := ProcessAll(images, Finished(images, fault), texts, dots);
      Run([Open(|images|)] + steps + Ending(steps[|steps| - 1], fault),
          processed,
          if fault.None? || fault.value.DownloadFault? then Some(Archive.Archive(Names(processed))) else None,
          fault.None?)
  }

  /** The three phases of a run's trace. */
  lemma TraceParts(images: seq<Workspace.Image>, texts: seq<Text>, dots: seq<Dot>, fault: Option<Fault>)
    requires |images| > 0 && Possible(images, fault)
    ensures var steps := Steps(images, Reached(images, fault));
            Download(images, texts, dots, fault).trace
              == [Open(|images|)] + steps + Ending(steps[|steps| - 1], fault)
  {
  }

  /** Indexing into the three phases. */
  lemma Phases<T>(t: seq<T>, first: T, steps: seq<T>, end: seq<T>)
    requires t == [first] + steps + end
    ensures |t| == 1 + |steps| + |end| && t[0] == first
    ensures forall j :: 0 <= j < |steps| ==> t[j + 1] == steps[j]
    ensures forall j :: 0 <= j < |end| ==> t[1 + |steps| + j] == end[j]
  {
  }

  /** Every state a run sets keeps the dialog open on a real image count. */
  predicate Consistent(st: DialogState, n: nat) {
    st.isOpen && st.total == n && 1 <= st.currentIndex <= n
  }

  /** Every state of a trace is consistent with `n` images. */
  predicate AllConsistent(t: seq<DialogState>, n: nat) {
    forall j :: 0 <= j < |t| ==> Consistent(t[j], n)
  }

  lemma ConsistentParts(t: seq<DialogState>, first: DialogState, steps: seq<DialogState>,
                        end: seq<DialogState>, n: nat)
    requires t == [first] + steps + end
    requires Consistent(first, n) && AllConsistent(steps, n) && AllConsistent(end, n)
    ensures AllConsistent(t, n)
  {
    Phases(t, first, steps, end);
    forall j | 0 <= j < |t|
      ensures Consistent(t[j], n)
    {
      if 0 < j <= |steps| {
        assert t[(j - 1) + 1] == steps[j - 1];
      } else if j > |steps| {
        assert t[1 + |steps| + (j - 1 - |steps|)] == end[j - 1 - |steps|];
      }
    }
  }

  lemma PhasesConsistent(images: seq<Workspace.Image>, fault: Option<Fault>)
    requires |images| > 0 && Possible(images, fault)
    ensures var steps := Steps(images, Reached(images, fault));
            AllConsistent([Open(|images|)] + steps + Ending(steps[|steps| - 1], fault), |images|)
  {
    var n := |images|;
    var steps := Steps(images, Reached(images, fault));
    var last := steps[|steps| - 1];
    var end := Ending(last, fault);
    assert AllConsistent(steps, n) by {
      forall j | 0 <= j < |steps|
        ensures Consistent(steps[j], n)
      {
        assert steps[j] == Before(images, j);
      }
    }
    assert AllConsistent(end, n) by {
      assert Consistent(last, n);
      forall j | 0 <= j < |end|
        ensures Consistent(end[j], n)
      {
        assert Keeps(end[j], last);
      }
    }
    ConsistentParts([Open(n)] + steps + end, Open(n), steps, end, n);
  }

  lemma RunConsistent(images: seq<Workspace.Image>, texts: seq<Text>, dots: seq<Dot>, fault: Option<Fault>)
    requires Possible(images, fault)
    ensures AllConsistent(Download(images, texts, dots, fault).trace, |images|)
  {
    if |images| > 0 {
      TraceParts(images, texts, dots, fault);
      PhasesConsistent(images, fault);
    }
  }

  /** The trace a run without faults sets. */
  predicate SuccessShape(t: seq<DialogState>, images: seq<Workspace.Image>) {
    var n := |images|;
    && |t| == n + 4
    && (forall j :: 0 <= j <= n ==> t[j].status == Processing)
    && t[0].currentIndex == 1
    && (forall j :: 1 <= j <= n ==> t[j].currentIndex == j && t[j].currentImage == images[j - 1].name)
    && t[n + 1].status == Compressing
    && t[n + 2].status == Downloading
    && t[n + 3].status == Completed
  }

  lemma SuccessParts(t: seq<DialogState>, steps: seq<DialogState>, end: seq<DialogState>,
                     images: seq<Workspace.Image>)
    requires |images| > 0 && t == [Open(|images|)] + steps + end
    requires |steps| == |images| && forall j :: 0 <= j < |steps| ==> steps[j] == Before(images, j)
    requires |end| == 3 && end[0].status == Compressing && end[1].status == Downloading
    requires end[2].status == Completed
    ensures SuccessShape(t, images)
  {
    var n := |images|;
    Phases(t, Open(n), steps, end);
    assert t[1 + n + 0] == end[0] && t[1 + n + 1] == end[1] && t[1 + n + 2] == end[2];
    forall j | 1 <= j <= n
      ensures t[j].status == Processing && t[j].currentIndex == j && t[j].currentImage == images[j - 1].name
    {
      assert t[(j - 1) + 1] == steps[j - 1];
    }
  }

  lemma SuccessPhases(images: seq<Workspace.Image>)
    requires |images| > 0
    ensures var steps := Steps(images, |images|);
            SuccessShape([Open(|images|)] + steps + Ending(steps[|images| - 1], None), images)
  {
    var steps := Steps(images, |images|);
    var end := Ending(steps[|images| - 1], None);
    SuccessParts([Open(|images|)] + steps + end, steps, end, images);
  }

  /** A run without faults: the dialog opens on the first image, shows each
      image in turn with its 1-based position, then compressing, downloading
      and completed. */
  lemma SuccessfulRun(images: seq<Workspace.Image>, texts: seq<Text>, dots: seq<Dot>)
    requires |images| > 0
    ensures SuccessShape(Download(images, texts, dots, None).trace, images)
  {
    var n := |images|;
    var steps := Steps(images, n);
    assert Download(images, texts, dots, None).trace
        == [Open(n)] + steps + Ending(steps[n - 1], None) by {
      assert Reached(images, None) == n;
      TraceParts(images, texts, dots, None);
    }
    SuccessPhases(images);
  }

  /** A run without faults processes every image once, in order, archives
      the processed images under their output names and downloads the
      archive. */
  lemma SuccessfulOutput(images: seq<Workspace.Image>, texts: seq<Text>, dots: seq<Dot>)
    requires |images| > 0
    ensures var r := Download(images, texts, dots, None);
            && |r.processed| == |images|
            && (forall i :: 0 <= i < |images| ==> r.processed[i] == Process(images[i], texts, dots))
            && r.archive == Some(Archive.Archive(Names(r.processed)))
            && r.downloaded
  {
  }

  /** The trace of a failing run: it ends in the error state with the
      thrown message, no earlier state is an error, and none completes. */
  predicate FailureShape(t: seq<DialogState>, f: Fault) {
    && |t| > 0
    && t[|t| - 1].status == Failed
    && t[|t| - 1].error == Some(ErrorText(f.thrown))
    && (forall j :: 0 <= j < |t| - 1 ==> t[j].status != Failed)
    && (forall j :: 0 <= j < |t| ==> t[j].status != Completed)
  }

  lemma FailureParts(t: seq<DialogState>, steps: seq<DialogState>, end: seq<DialogState>,
                     images: seq<Workspace.Image>, f: Fault)
    requires t == [Open(|images|)] + steps + end
    requires |steps| <= |images| && forall j :: 0 <= j < |steps| ==> steps[j] == Before(images, j)
    requires |end| > 0 && end[|end| - 1] == Fail(end[|end| - 1], f.thrown)
    requires forall j :: 0 <= j < |end| - 1 ==> end[j].status == Compressing || end[j].status == Downloading
    ensures FailureShape(t, f)
  {
    Phases(t, Open(|images|), steps, end);
    assert t[|t| - 1] == end[|end| - 1];
    forall j | 0 <= j < |t|
      ensures j < |t| - 1 ==> t[j].status != Failed
      ensures t[j].status != Completed
    {
      if 0 < j <= |steps| {
        assert t[(j - 1) + 1] == steps[j - 1];
      } else if j > |steps| {
        assert t[1 + |steps| + (j - 1 - |steps|)] == end[j - 1 - |steps|];
      }
    }
  }

  lemma FailurePhases(images: seq<Workspace.Image>, f: Fault)
    requires |images| > 0 && Possible(images, Some(f))
    ensures var steps := Steps(images, Reached(images, Some(f)));
            FailureShape([Open(|images|)] + steps + Ending(steps[|steps| - 1], Some(f)), f)
  {
    var steps := Steps(images, Reached(images, Some(f)));
    var end := Ending(steps[|steps| - 1], Some(f));
    FailureParts([Open(|images|)] + steps + end, steps, end, images, f);
  }

  /** A failing run ends in the error state with the thrown message, never
      reaches completion and never downloads; no state before the last is
      an error. */
  lemma FailedRun(images: seq<Workspace.Image>, texts: seq<Text>, dots: seq<Dot>, f: Fault)
    requires |images| > 0 && Possible(images, Some(f))
    ensures FailureShape(Download(images, texts, dots, Some(f)).trace, f)
    ensures !Download(images, texts, dots, Some(f)).downloaded
  {
    TraceParts(images, texts, dots, Some(f));
    FailurePhases(images, f);
  }

  /** The trace of a run that fails on image `k`: every state is about the
      images, and the last one still names image `k`. */
  predicate StopsAt(tr: seq<DialogState>, images: seq<Workspace.Image>, k: nat)
    requires k < |images|
  {
    && |tr| > 0
    && (forall j :: 0 <= j < |tr| ==> tr[j].status == Processing || tr[j].status == Failed)
    && tr[|tr| - 1].currentIndex == k + 1
    && tr[|tr| - 1].currentImage == images[k].name
  }

  lemma StopPhases(images: seq<Workspace.Image>, k: nat, t: Thrown)
    requires k < |images|
    ensures var steps := Steps(images, k + 1);
            StopsAt([Open(|images|)] + steps + Ending(steps[k], Some(ImageFault(k, t))), images, k)
  {
    var steps := Steps(images, k + 1);
    var end := Ending(steps[k], Some(ImageFault(k, t)));
    assert end == [Fail(Before(images, k), t)];
    var tr := [Open(|images|)] + steps + end;
    Phases(tr, Open(|images|), steps, end);
    assert tr[1 + (k + 1) + 0] == end[0];
    forall j | 0 <= j < |tr|
      ensures tr[j].status == Processing || tr[j].status == Failed
    {
      if 0 < j <= k + 1 {
        assert tr[(j - 1) + 1] == steps[j - 1];
      }
    }
  }

  /** A failure on image `k` skips the later images and every later phase,
      and the error state still names image `k`. */
  lemma ImageFailureStopsRun(images: seq<Workspace.Image>, texts: seq<Text>, dots: seq<Dot>, k: nat, t: Thrown)
    requires k < |images|
    ensures var r := Download(images, texts, dots, Some(ImageFault(k, t)));
            |r.processed| == k && r.archive.None? && StopsAt(r.trace, images, k)
  {
    TraceParts(images, texts, dots, Some(ImageFault(k, t)));
    StopPhases(images, k, t);
  }

  /** A new run clears the error of the previous one. */
  lemma RunStartsClean(images: seq<Workspace.Image>, texts: seq<Text>, dots: seq<Dot>, fault: Option<Fault>)
    requires |images| > 0 && Possible(images, fault)
    ensures Download(images, texts, dots, fault).trace[0] == DialogState(true, "", 1, |images|, Processing, None)
  {
    TraceParts(images, texts, dots, fault);
  }

  /** Without images nothing happens: no state is set and nothing is built. */
  lemma EmptyRun(texts: seq<Text>, dots: seq<Dot>, fault: Option<Fault>)
    requires Possible([], fault)
    ensures Download([], texts, dots, fault) == Run([], [], None, false)
  {
  }

  // ---------------------------------------------------------------------
  // The dialog

  /** `getProgressPercentage()`. */
  function Progress(st: DialogState): (p: real)
    requires st.total > 0
    ensures st.status == Compressing ==> p == 90.0
    ensures st.status == Downloading ==> p == 95.0
    ensures st.status == Completed ==> p == 100.0
  {
    match st.status
    case Compressing => 90.0
    case Downloading => 95.0
    case Completed => 100.0
    case _ => Share(st.currentIndex, st.total)
  }

  /** The image phase fills the first 80 percent. */
  function Share(i: int, n: int): real
    requires n > 0
  {
    (i as real / n as real) * 80.0
  }

  /** While an image is processed, and after a failure, the bar shows a
      share of the first 80 percent that is never empty. */
  lemma ProgressInRange(st: DialogState)
    requires st.total > 0 && 1 <= st.currentIndex <= st.total
    requires st.status == Processing || st.status == Failed
    ensures 0.0 < Progress(st) <= 80.0
  {
    ShareBounds(st.currentIndex, st.total);
  }

  lemma ShareBounds(i: int, n: int)
    requires n > 0
    ensures 1 <= i <= n ==> 0.0 < Share(i, n) <= 80.0
  {
    if 1 <= i <= n {
      assert i as real / n as real <= 1.0;
    }
  }

  lemma ShareMonotone(a: int, b: int, n: int)
    requires n > 0 && a <= b
    ensures Share(a, n) <= Share(b, n)
  {
  }

  /** The bar never moves backwards along a trace. */
  predicate NeverFalls(t: seq<DialogState>) {
    forall j :: 0 <= j < |t| - 1 ==> Rises(t[j], t[j + 1])
  }

  /** The bar does not move backwards from `a` to `b`. */
  predicate Rises(a: DialogState, b: DialogState) {
    a.total > 0 && b.total > 0 && Progress(a) <= Progress(b)
  }

  /** The shape of a successful run's states makes the bar rise. */
  lemma RisingShares(trace: seq<DialogState>, n: nat)
    requires n > 0 && |trace| == n + 4
    requires forall j :: 0 <= j < |trace| ==> trace[j].total == n
    requires forall j :: 0 <= j < |trace| ==> 1 <= trace[j].currentIndex <= n
    requires forall j :: 0 <= j <= n ==> trace[j].status == Processing
    requires trace[0].currentIndex == 1
    requires forall j :: 1 <= j <= n ==> trace[j].currentIndex == j
    requires trace[n + 1].status == Compressing && trace[n + 2].status == Downloading
    requires trace[n + 3].status == Completed
    ensures NeverFalls(trace)
  {
    forall j | 0 <= j < |trace| - 1
      ensures Rises(trace[j], trace[j + 1])
    {
      var a, b := trace[j], trace[j + 1];
      if j < n {
        ShareMonotone(a.currentIndex, b.currentIndex, n);
      } else if j == n {
        ShareBounds(a.currentIndex, n);
      }
    }
  }

  /** On a run without faults the bar never moves backwards. */
  lemma ProgressNeverFalls(images: seq<Workspace.Image>, texts: seq<Text>, dots: seq<Dot>)
    requires |images| > 0
    ensures NeverFalls(Download(images, texts, dots, None).trace)
  {
    var r := Download(images, texts, dots, None);
    var t, n := r.trace, |images|;
    SuccessfulRun(images, texts, dots);
    RunConsistent(images, texts, dots, None);
    forall j | 0 <= j < |t|
      ensures t[j].total == n && 1 <= t[j].currentIndex <= n
    {
      assert Consistent(t[j], n);
    }
    RisingShares(t, n);
  }

  /** The error state after the last image shows the full image share. */
  lemma FullShare(st: DialogState, n: nat)
    requires n > 0 && st.total == n && st.currentIndex == n && st.status == Failed
    ensures Progress(st) == 80.0
  {
    assert n as real / n as real == 1.0;
  }

  /** A failure after the images were processed sends the bar back from the
      archive phase to the image share. */
  lemma ArchiveFailureDropsProgress(images: seq<Workspace.Image>, texts: seq<Text>, dots: seq<Dot>, t: Thrown)
    requires |images| > 0
    ensures var r := Download(images, texts, dots, Some(ArchiveFault(t)));
            var n := |r.trace|;
            && Progress(r.trace[n - 2]) == 90.0
            && Progress(r.trace[n - 1]) == 80.0
  {
    var n := |images|;
    var steps := Steps(images, n);
    var end := Ending(steps[n - 1], Some(ArchiveFault(t)));
    assert Download(images, texts, dots, Some(ArchiveFault(t))).trace == [Open(n)] + steps + end by {
      assert Reached(images, Some(ArchiveFault(t))) == n;
      TraceParts(images, texts, dots, Some(ArchiveFault(t)));
    }
    LastTwo([Open(n)] + steps, end);
    FullShare(end[1], n);
  }

  lemma LastTwo<T>(a: seq<T>, e: seq<T>)
    requires |e| == 2
    ensures var t := a + e;
            t[|t| - 2] == e[0] && t[|t| - 1] == e[1]
  {
  }

  /** The buttons of the action row. */
  datatype Action = Cancel | Finish | Dismiss

  /** What the dialog shows. */
  datatype View = View(progress: real, closeEnabled: bool, showsImage: bool,
                       message: Option<string>, actions: seq<Action>)

  /** The message of the error box: `error || "Неизвестная ошибка"`. */
  function ErrorMessage(st: DialogState): (m: string)
    ensures st.error.Some? && st.error.value != "" ==> m == st.error.value
    ensures st.error.None? || st.error.value == "" ==> m == UnknownError
  {
    if st.error.Some? && st.error.value != "" then st.error.value else UnknownError
  }

  /** `ExportProgress`: nothing while closed; otherwise the bar, the X
      button enabled only while processing, the current image's name while
      processing, the error box on error, and one button for processing,
      completion and error and none while compressing or downloading. */
  function Dialog(st: DialogState): (r: Option<View>)
    requires st.isOpen ==> st.total > 0
    ensures r.None? <==> !st.isOpen
    ensures r.Some? ==> r.value.progress == Progress(st)
    ensures r.Some? ==> (r.value.closeEnabled <==> st.status == Processing)
    ensures r.Some? ==> (r.value.message.Some? <==> st.status == Failed)
    ensures r.Some? ==> (|r.value.actions| == 1 <==> st.status in {Processing, Completed, Failed})
    ensures r.Some? ==> (|r.value.actions| == 0 <==> st.status in {Compressing, Downloading})
  {
    if !st.isOpen then None
    else
      Some(View(
        Progress(st),
        st.status == Processing,
        st.currentImage != "" && st.status == Processing,
        if st.status == Failed then Some(ErrorMessage(st)) else None,
        match st.status
        case Processing => [Cancel]
        case Completed => [Finish]
        case Failed => [Dismiss]
        case _ => []))
  }

  /** `closeExportModal`, which every button of the dialog calls: only the
      open flag changes, and the dialog disappears. */
  function Close(st: DialogState): (r: DialogState)
    ensures !r.isOpen && Dialog(r).None?
    ensures r.(isOpen := st.isOpen) == st
  {
    st.(isOpen := false)
  }

  /** Until the first run, nothing is shown. */
  lemma NothingBeforeExport()
    ensures Dialog(Closed).None?
  {
  }

  /** A thrown `Error` with an empty message still shows a message. */
  lemma EmptyErrorMessage(st: DialogState)
    requires st.isOpen && st.total > 0
    ensures Dialog(Fail(st, ErrorObject(""))).value.message == Some(UnknownError)
    ensures Dialog(Fail(st, OtherValue)).value.message == Some(UnknownError)
  {
  }
}
