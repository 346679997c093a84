/** The application state around the editor: the uploaded images, each with
    its own layer history and loose annotations, which image is active, the
    mode buttons, clearing everything, and dropping files onto the window.
    Decoding files into images happens outside the model: uploads receive
    the resulting image records as a parameter. */
module Workspace {
  import opened Wrappers
  import opened Geometry
  import opened Elements
  import opened Layers
  import Collections

  /** An uploaded image (`ImageData`) without its file, URL and dimensions. */
  datatype Image = Image(
    id: string, name: string, history: seq<Layer>,
    currentTexts: seq<Text>, currentDots: seq<Dot>)

  function ImageId(img: Image): string { img.id }

  datatype State = State(images: seq<Image>, activeId: Option<string>, editor: Editor)

  /** The initial canvas state. */
  const InitialEditor := Editor(
    area := false, textMode := false, dotMode := false, points := [], amount := "",
    size := 13.0, gap := 10.0, padding := 0.0, rotation := 0.0,
    editIndex := -1, results := [Point(0.0, 0.0)],
    texts := EmptyTextStore, dots := EmptyDotStore)

  const Initial := State([], None, InitialEditor)

  /** `if (!activeImageId)` fails for null and for the empty id alike. */
  predicate HasActive(s: State) {
    s.activeId.Some? && s.activeId.value != ""
  }

  /** `imageHistory.find(img => img.id === activeImageId)?.editHistory || []`. */
  function ActiveHistory(s: State): seq<Layer> {
    if s.activeId.None? then []
    else match Collections.FindById(s.images, s.activeId.value, ImageId)
      case None => []
      case Some(img) => img.history
  }

  /** The session the editor works on. */
  function ActiveSession(s: State): Session {
    Session(s.editor, ActiveHistory(s))
  }

  /** The state is consistent when the edited position names a layer of the
      active image, or nothing is being edited. */
  predicate Valid(s: State) {
    EditIndexValid(ActiveSession(s))
  }

  /** Apply `f` to the images carrying the active id; no-op without one. */
  function UpdateActive(s: State, f: Image -> Image): (r: State)
    ensures r.activeId == s.activeId && r.editor == s.editor && |r.images| == |s.images|
    ensures !HasActive(s) ==> r == s
    ensures forall i :: 0 <= i < |s.images| && (!HasActive(s) || s.images[i].id != s.activeId.value) ==>
              r.images[i] == s.images[i]
    ensures HasActive(s) ==>
              forall i :: 0 <= i < |s.images| && s.images[i].id == s.activeId.value ==>
                r.images[i] == f(s.images[i])
  {
    if !HasActive(s) then s
    else s.(images := Collections.UpdateById(s.images, s.activeId.value, ImageId, f))
  }

  /** `updateActiveImageHistory(h)`: replaces the history of the active image only. */
  function UpdateActiveHistory(s: State, h: seq<Layer>): (r: State)
    ensures r.activeId == s.activeId && r.editor == s.editor && |r.images| == |s.images|
    ensures forall i :: 0 <= i < |s.images| && (!HasActive(s) || s.images[i].id != s.activeId.value) ==>
              r.images[i] == s.images[i]
    ensures HasActive(s) ==>
              forall i :: 0 <= i < |s.images| && s.images[i].id == s.activeId.value ==>
                r.images[i] == s.images[i].(history := h)
    ensures HasActive(s) && Collections.FindById(s.images, s.activeId.value, ImageId).Some? ==>
              ActiveHistory(r) == h
  {
    var f := (img: Image) => img.(history := h);
    if HasActive(s) then
      Collections.FindAfterUpdate(s.images, s.activeId.value, ImageId, f);
      UpdateActive(s, f)
    else UpdateActive(s, f)
  }

  /** `updateActiveImageTexts(t)`: replaces the loose texts of the active image only. */
  function UpdateActiveTexts(s: State, texts: seq<Text>): (r: State)
    ensures r.activeId == s.activeId && r.editor == s.editor && |r.images| == |s.images|
    ensures forall i :: 0 <= i < |s.images| && (!HasActive(s) || s.images[i].id != s.activeId.value) ==>
              r.images[i] == s.images[i]
    ensures HasActive(s) ==>
              forall i :: 0 <= i < |s.images| && s.images[i].id == s.activeId.value ==>
                r.images[i] == s.images[i].(currentTexts := texts)
    ensures ActiveHistory(r) == ActiveHistory(s)
  {
    var f := (img: Image) => img.(currentTexts := texts);
    if HasActive(s) then
      Collections.FindAfterUpdate(s.images, s.activeId.value, ImageId, f);
      UpdateActive(s, f)
    else UpdateActive(s, f)
  }

  /** `updateActiveImageDots(d)`: replaces the loose dots of the active image only. */
  function UpdateActiveDots(s: State, dots: seq<Dot>): (r: State)
    ensures r.activeId == s.activeId && r.editor == s.editor && |r.images| == |s.images|
    ensures forall i :: 0 <= i < |s.images| && (!HasActive(s) || s.images[i].id != s.activeId.value) ==>
              r.images[i] == s.images[i]
    ensures HasActive(s) ==>
              forall i :: 0 <= i < |s.images| && s.images[i].id == s.activeId.value ==>
                r.images[i] == s.images[i].(currentDots := dots)
    ensures ActiveHistory(r) == ActiveHistory(s)
  {
    var f := (img: Image) => img.(currentDots := dots);
    if HasActive(s) then
      Collections.FindAfterUpdate(s.images, s.activeId.value, ImageId, f);
      UpdateActive(s, f)
    else UpdateActive(s, f)
  }

  /** `handleImageSelect(id)`: activate the image and drop any area, edit
      and generated dots. */
  function SelectImage(s: State, id: string): (r: State)
    ensures r.activeId == Some(id) && r.images == s.images
    ensures r.editor.editIndex == -1 && !r.editor.area && r.editor.points == []
    ensures r.editor.results == [Point(0.0, 0.0)]
    ensures Valid(r)
  {
    s.(activeId := Some(id),
       editor := s.editor.(editIndex := -1, area := false, points := [], results := [Point(0.0, 0.0)]))
  }

  /** `handleImagesUpload(files)`: the images decoded from `files` (given as
      `added`) go after the existing ones, and the first of them becomes
      active if no image was. An empty file list changes nothing. */
  function Upload(s: State, fileCount: nat, added: seq<Image>): (r: State)
    ensures fileCount == 0 ==> r == s
    ensures fileCount > 0 ==> r.images == s.images + added && r.editor == s.editor
    ensures fileCount > 0 && !HasActive(s) && |added| > 0 ==> r.activeId == Some(added[0].id)
    ensures fileCount == 0 || HasActive(s) || |added| == 0 ==> r.activeId == s.activeId
  {
    if fileCount == 0 then s
    else
      State(s.images + added,
            if !HasActive(s) && |added| > 0 then Some(added[0].id) else s.activeId,
            s.editor)
  }

  /** Uploading keeps the state consistent: an active image stays active
      with the same history, and a newly activated one starts while nothing
      is being edited. */
  lemma UploadKeepsValid(s: State, fileCount: nat, added: seq<Image>)
    requires Valid(s) && s.activeId != Some("")
    ensures Valid(Upload(s, fileCount, added))
  {
    var r := Upload(s, fileCount, added);
    if fileCount > 0 && HasActive(s) {
      var id := s.activeId.value;
      if Collections.FindById(s.images, id, ImageId).Some? {
        Collections.FindInPrefix(s.images, added, id, ImageId);
      } else {
        Collections.FindPastPrefix(s.images, added, id, ImageId);
        assert ActiveHistory(s) == [];
      }
    }
  }

  /** The commit button on the active image: the committed history is
      written back to the active image, which then shows it, and every
      other image is left alone. */
  function CommitActive(s: State): (r: State)
    requires s.editor.editIndex <= |ActiveHistory(s)|
    ensures r.editor == Commit(ActiveSession(s)).editor
    ensures r.activeId == s.activeId && |r.images| == |s.images|
    ensures HasActive(s) && Collections.FindById(s.images, s.activeId.value, ImageId).Some? ==>
              ActiveHistory(r) == Commit(ActiveSession(s)).history
    ensures HasActive(s) && Collections.FindById(s.images, s.activeId.value, ImageId).Some?
            && (s.editor.area || s.editor.textMode) && s.editor.editIndex == -1 ==>
              ActiveHistory(r) == ActiveHistory(s) + [NewLayer(s.editor)]
    ensures forall i :: 0 <= i < |s.images| && (!HasActive(s) || s.images[i].id != s.activeId.value) ==>
              r.images[i] == s.images[i]
    ensures HasActive(s) ==>
              forall i :: 0 <= i < |s.images| && s.images[i].id == s.activeId.value ==>
                r.images[i].(history := s.images[i].history) == s.images[i]
  {
    var c := Commit(ActiveSession(s));
    UpdateActiveHistory(s, c.history).(editor := c.editor)
  }

  /** Committing keeps the state consistent. */
  lemma CommitKeepsValid(s: State)
    requires Valid(s)
    ensures Valid(CommitActive(s))
  {
    var c := Commit(ActiveSession(s));
    if HasActive(s) && Collections.FindById(s.images, s.activeId.value, ImageId).Some? {
      assert ActiveHistory(UpdateActiveHistory(s, c.history)) == c.history;
    } else if HasActive(s) {
      Collections.FindAfterUpdate(s.images, s.activeId.value, ImageId, (img: Image) => img.(history := c.history));
    }
  }

  /** The clear button as written: only with an active image, it drops every
      image and the loose texts and dots, but keeps the edited position. */
  function ClearAll(s: State): (r: State)
    ensures !HasActive(s) ==> r == s
    ensures HasActive(s) ==>
              && r.images == [] && r.activeId.None?
              && r.editor.texts == Clear(s.editor.texts) && r.editor.dots == Clear(s.editor.dots)
              && r.editor.editIndex == s.editor.editIndex
  {
    if !HasActive(s) then s
    else State([], None, s.editor.(texts := Clear(s.editor.texts), dots := Clear(s.editor.dots)))
  }

  /** With the second layer of the active image being edited, clearing and
      uploading a fresh image leaves the edited position past the end of the
      new image's empty history: the next commit writes at index 1 of an
      empty list and leaves a hole at index 0. */
  lemma ClearLeavesStaleEdit(s: State, newImage: Image)
    requires HasActive(s) && s.editor.editIndex == 1 && newImage.history == []
    ensures var r := Upload(ClearAll(s), 1, [newImage]);
            && ActiveHistory(r) == [] && r.editor.editIndex == 1 && !Valid(r)
  {
    var r := Upload(ClearAll(s), 1, [newImage]);
    assert r.images == [newImage];
    assert Collections.FindById(r.images, newImage.id, ImageId) == Some(newImage);
  }

  /** The clear button with the edit ended as well. */
  function ClearAllEndingEdit(s: State): (r: State)
    ensures !HasActive(s) ==> r == s
    ensures HasActive(s) ==> r == ClearAll(s).(editor := ClearAll(s).editor.(editIndex := -1))
    ensures Valid(r) || r == s
  {
    if !HasActive(s) then s
    else
      var c := ClearAll(s);
      c.(editor := c.editor.(editIndex := -1))
  }

  /** With the corrected clear, clearing and uploading stays consistent. */
  lemma ClearThenUploadStaysValid(s: State, fileCount: nat, added: seq<Image>)
    requires Valid(s) && s.activeId != Some("")
    ensures Valid(Upload(ClearAllEndingEdit(s), fileCount, added))
  {
    UploadKeepsValid(ClearAllEndingEdit(s), fileCount, added);
  }

  // ---------------------------------------------------------------------
  // Mode buttons

  datatype Mode = LassoMode | TextMode | DotMode

  /** Whether the button of `m` is enabled with image `hasImage` loaded. */
  predicate ModeEnabled(e: Editor, hasImage: bool, m: Mode) {
    hasImage &&
    match m
    case LassoMode => e.textMode || e.dotMode
    case TextMode => !e.textMode
    case DotMode => !e.dotMode
  }

  /** A mode button: every one drops the area; text and dot modes exclude
      each other and lasso clears both. */
  function SwitchMode(e: Editor, m: Mode): (r: Editor)
    ensures !r.area && !(r.textMode && r.dotMode)
    ensures r.textMode <==> m == TextMode
    ensures r.dotMode <==> m == DotMode
    ensures r.(area := e.area, textMode := e.textMode, dotMode := e.dotMode) == e
  {
    match m
    case LassoMode => e.(textMode := false, dotMode := false, area := false)
    case TextMode => e.(textMode := true, dotMode := false, area := false)
    case DotMode => e.(dotMode := true, textMode := false, area := false)
  }

  /** An enabled mode button always changes the mode. */
  lemma EnabledModeChangesMode(e: Editor, m: Mode)
    requires ModeEnabled(e, true, m)
    ensures (SwitchMode(e, m).textMode, SwitchMode(e, m).dotMode) != (e.textMode, e.dotMode)
  {
  }

  // ---------------------------------------------------------------------
  // Dropping files

  /** A dropped file, known by its MIME type. */
  datatype File = File(mimeType: string)

  predicate StartsWith(s: string, prefix: string) {
    |s| >= |prefix| && s[..|prefix|] == prefix
  }

  predicate IsImage(f: File) { StartsWith(f.mimeType, "image/") }

  /** `r` holds every image file of `files` as often as `files` does, and
      nothing else. */
  ghost predicate SameImages(r: seq<File>, files: seq<File>) {
    forall f :: multiset(r)[f] == if IsImage(f) then multiset(files)[f] else 0
  }

  /** `files.filter(file => file.type.startsWith("image/"))`. */
  function ImageFiles(files: seq<File>): (r: seq<File>)
    ensures |r| <= |files|
    ensures forall k :: 0 <= k < |r| ==> IsImage(r[k]) && r[k] in files
    ensures forall i :: 0 <= i < |files| && IsImage(files[i]) ==> files[i] in r
    ensures SameImages(r, files)
  {
    if |files| == 0 then []
    else
      var n := |files| - 1;
      var rest := ImageFiles(files[..n]);
      var last := if IsImage(files[n]) then [files[n]] else [];
      SplitLast(files);
      SameImagesSnoc(rest, files[..n], files[n]);
      ImagesFromCounts(rest + last, files);
      rest + last
  }

  /** Matching counts mean the same image files, both ways. */
  lemma ImagesFromCounts(r: seq<File>, files: seq<File>)
    requires SameImages(r, files)
    ensures forall k :: 0 <= k < |r| ==> IsImage(r[k]) && r[k] in files
    ensures forall i :: 0 <= i < |files| && IsImage(files[i]) ==> files[i] in r
  {
    forall k | 0 <= k < |r|
      ensures IsImage(r[k]) && r[k] in files
    {
      assert multiset(r)[r[k]] > 0;
    }
    forall i | 0 <= i < |files| && IsImage(files[i])
      ensures files[i] in r
    {
      assert multiset(files)[files[i]] > 0;
    }
  }

  /** A non-empty list is its front followed by its last element. */
  lemma SplitLast<T>(s: seq<T>)
    requires |s| > 0
    ensures s == s[..|s| - 1] + [s[|s| - 1]]
  {
  }

  /** Filtering one more file keeps the counts right. */
  lemma SameImagesSnoc(r: seq<File>, files: seq<File>, f: File)
    requires SameImages(r, files)
    ensures SameImages(r + (if IsImage(f) then [f] else []), files + [f])
  {
    var last := if IsImage(f) then [f] else [];
    assert multiset(r + last) == multiset(r) + multiset(last);
    assert multiset(files + [f]) == multiset(files) + multiset{f};
  }

  /** The filter keeps the order of the dropped files: filtering a list in
      two parts gives the two filtered parts one after the other. */
  lemma {:induction false} ImageFilesConcat(a: seq<File>, b: seq<File>)
    ensures ImageFiles(a + b) == ImageFiles(a) + ImageFiles(b)
    decreases |b|
  {
    if |b| == 0 {
      assert a + b == a;
    } else {
      var n := |b| - 1;
      var last := if IsImage(b[n]) then [b[n]] else [];
      assert (a + b)[..|a + b| - 1] == a + b[..n] && (a + b)[|a + b| - 1] == b[n];
      assert ImageFiles(a + b) == ImageFiles(a + b[..n]) + last;
      assert ImageFiles(b) == ImageFiles(b[..n]) + last;
      ImageFilesConcat(a, b[..n]);
      AppendLast(ImageFiles(a + b), ImageFiles(a + b[..n]), ImageFiles(a), ImageFiles(b[..n]), last);
    }
  }

  /** Appending to a list made of two parts appends to its second part. */
  lemma AppendLast<T>(x: seq<T>, y: seq<T>, p: seq<T>, q: seq<T>, last: seq<T>)
    requires x == y + last && y == p + q
    ensures x == p + (q + last)
  {
  }

  /** A single file is kept exactly when it is an image. */
  lemma ImageFilesSingle(f: File)
    ensures ImageFiles([f]) == if IsImage(f) then [f] else []
  {
    assert [f][..0] == [];
  }

  /** `onDrop`: only image files are uploaded, and a drop without any
      changes nothing. */
  function Drop(s: State, files: seq<File>, added: seq<Image>): (r: State)
    ensures |ImageFiles(files)| == 0 ==> r == s
    ensures |ImageFiles(files)| > 0 ==> r == Upload(s, |ImageFiles(files)|, added)
  {
    var images := ImageFiles(files);
    if |images| == 0 then s else Upload(s, |images|, added)
  }
}
