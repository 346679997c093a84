/** Naming the exported files and laying them out in the zip archive
    (`createImageArchive`). A file whose name contains the page marker
    `_страница_` goes into a folder named after the part before the first
    marker, renamed to start at `страница_`; every other file sits at the
    root under its own name. Folders appear in the order their first page
    was met, and the archive library itself is not modelled: the archive is
    the list of files handed to it. */
module Archive {
  import opened Wrappers

  /** The page marker and what a page is renamed to start with. */
  const Marker: string := "_страница_"
  const PagePrefix: string := "страница_"

  // ---------------------------------------------------------------------
  // String operations

  /** `pat` occurs in `s` starting at `i`. */
  predicate OccursAt(s: string, pat: string, i: nat) {
    i + |pat| <= |s| && s[i..i + |pat|] == pat
  }

  /** The first occurrence of `pat` at or after `from`. */
  function IndexOf(s: string, pat: string, from: nat): (r: Option<nat>)
    ensures r.Some? ==> from <= r.value && OccursAt(s, pat, r.value)
    ensures r.Some? ==> forall j :: from <= j < r.value ==> !OccursAt(s, pat, j)
    ensures r.None? ==> forall j: nat :: from <= j ==> !OccursAt(s, pat, j)
    decreases |s| - from
  {
    if from + |pat| > |s| then None
    else if OccursAt(s, pat, from) then Some(from)
    else IndexOf(s, pat, from + 1)
  }

  /** `s.includes(pat)`. */
  predicate Includes(s: string, pat: string) {
    IndexOf(s, pat, 0).Some?
  }

  /** `s.split(pat)[0]`: the part before the first occurrence. */
  function Before(s: string, pat: string): string {
    match IndexOf(s, pat, 0)
    case None => s
    case Some(i) => s[..i]
  }

  /** `s.replace(pat, rep)` with a string pattern: the first occurrence only. */
  function ReplaceFirst(s: string, pat: string, rep: string): string {
    match IndexOf(s, pat, 0)
    case None => s
    case Some(i) => s[..i] + rep + s[i + |pat|..]
  }

  /** An occurrence at the very start is the first one. */
  lemma IndexOfAtStart(s: string, pat: string)
    requires OccursAt(s, pat, 0)
    ensures IndexOf(s, pat, 0) == Some(0)
  {
  }

  /** A marked name is its folder, the marker, and the rest; the rename
      keeps the rest behind the page prefix. */
  lemma PageName(name: string)
    requires Includes(name, Marker)
    ensures var p := Before(name, Marker);
            var rest := name[|p| + |Marker|..];
            && name == p + Marker + rest
            && ReplaceFirst(name, p + Marker, PagePrefix) == PagePrefix + rest
  {
    var i := IndexOf(name, Marker, 0).value;
    var p := name[..i];
    var rest := name[i + |Marker|..];
    assert name == p + name[i..i + |Marker|] + rest;
    assert name == p + Marker + rest;
    assert OccursAt(name, p + Marker, 0) by {
      assert name[0..|p + Marker|] == p + Marker;
    }
    IndexOfAtStart(name, p + Marker);
  }

  /** Folder, separator and the renamed page give back the original name. */
  lemma MarkerSplits()
    ensures Marker == "_" + PagePrefix
  {
  }

  // ---------------------------------------------------------------------
  // Output names

  /** The regular expression `\.[^/.]+$` matches at `i`: a dot followed by at
      least one character, none of them a dot or a slash, up to the end. */
  predicate ExtensionAt(s: string, i: nat) {
    i + 1 < |s| && s[i] == '.' && forall j :: i < j < |s| ==> s[j] != '.' && s[j] != '/'
  }

  /** The position of the last dot. */
  function LastDot(s: string): (r: Option<nat>)
    ensures r.Some? ==> r.value < |s| && s[r.value] == '.' && forall j :: r.value < j < |s| ==> s[j] != '.'
    ensures r.None? ==> forall j :: 0 <= j < |s| ==> s[j] != '.'
  {
    if |s| == 0 then None
    else if s[|s| - 1] == '.' then Some(|s| - 1)
    else LastDot(s[..|s| - 1])
  }

  /** `name.replace(/\.[^/.]+$/, "")`: drop the final extension if there is
      one. */
  function StripExt(s: string): (r: string)
    ensures forall i: nat :: ExtensionAt(s, i) ==> r == s[..i]
    ensures (forall i: nat :: !ExtensionAt(s, i)) ==> r == s
  {
    match LastDot(s)
    case None => s
    case Some(k) =>
      if k + 1 < |s| && forall j :: k < j < |s| ==> s[j] != '/' then
        assert ExtensionAt(s, k);
        s[..k]
      else
        assert forall i: nat :: ExtensionAt(s, i) ==> i == k;
        s
  }

  /** The name of an exported image. */
  function OutputName(name: string): (r: string)
    ensures |r| >= 4 && r[|r| - 4..] == ".png"
  {
    StripExt(name) + ".png"
  }

  /** Stripping an extension undoes adding it. */
  lemma StripAddedExt(base: string, ext: string)
    requires |ext| > 0 && forall j :: 0 <= j < |ext| ==> ext[j] != '.' && ext[j] != '/'
    ensures StripExt(base + "." + ext) == base
  {
    var s := base + "." + ext;
    assert ExtensionAt(s, |base|) by {
      forall j | |base| < j < |s| ensures s[j] != '.' && s[j] != '/' {
        assert s[j] == ext[j - |base| - 1];
      }
    }
    assert s[..|base|] == base;
  }

  /** Exporting an already exported name changes nothing. */
  lemma OutputNameIdempotent(name: string)
    ensures OutputName(OutputName(name)) == OutputName(name)
  {
    StripAddedExt(StripExt(name), "png");
    assert OutputName(name) == StripExt(name) + "." + "png";
  }

  /** Two inputs differing only in their extension get the same name. */
  lemma ExtensionsCollide()
    ensures OutputName("scan.jpg") == OutputName("scan.png") == "scan.png"
  {
    StripAddedExt("scan", "jpg");
    StripAddedExt("scan", "png");
    assert "scan.jpg" == "scan" + "." + "jpg";
    assert "scan.png" == "scan" + "." + "png";
  }

  // ---------------------------------------------------------------------
  // Grouping

  /** The files at the root and the page folders, as indexes into the list
      of processed images; folders in first-seen order. */
  datatype Groups = Groups(standalone: seq<nat>, folders: seq<(string, seq<nat>)>)

  /** `pdfGroups.get(key).push(i)`, creating the folder at the end when the
      key is new. */
  function AddToFolder(fs: seq<(string, seq<nat>)>, key: string, i: nat): (r: seq<(string, seq<nat>)>)
    ensures |r| == |fs| || |r| == |fs| + 1
    ensures forall j :: 0 <= j < |fs| ==> r[j].0 == fs[j].0
    ensures forall j :: 0 <= j < |fs| ==> r[j].1 == fs[j].1 || (fs[j].0 == key && r[j].1 == fs[j].1 + [i])
    ensures |r| == |fs| + 1 <==> forall j :: 0 <= j < |fs| ==> fs[j].0 != key
    ensures |r| == |fs| + 1 ==> r[|fs|] == (key, [i])
  {
    if |fs| == 0 then [(key, [i])]
    else if fs[0].0 == key then [(key, fs[0].1 + [i])] + fs[1..]
    else
      var rest := AddToFolder(fs[1..], key, i);
      assert forall j :: 1 <= j < |fs| ==> fs[j] == fs[1..][j - 1];
      [fs[0]] + rest
  }

  /** The indexes kept at the root name images without the marker. */
  predicate AtRoot(names: seq<string>, idx: seq<nat>) {
    forall k :: 0 <= k < |idx| ==> idx[k] < |names| && !Includes(names[idx[k]], Marker)
  }

  /** The `forEach` over the processed images. */
  function Collect(names: seq<string>): (g: Groups)
    ensures AtRoot(names, g.standalone)
    decreases |names|
  {
    if |names| == 0 then Groups([], [])
    else
      var n := |names| - 1;
      var g := Collect(names[..n]);
      if Includes(names[n], Marker) then g.(folders := AddToFolder(g.folders, Before(names[n], Marker), n))
      else g.(standalone := g.standalone + [n])
  }

  /** Every index recorded names an image: root files are unmarked, and a
      folder holds only marked names whose part before the marker is the
      folder's name. */
  ghost predicate Labelled(names: seq<string>, g: Groups) {
    && (forall k :: 0 <= k < |g.standalone| ==>
          g.standalone[k] < |names| && !Includes(names[g.standalone[k]], Marker))
    && (forall j, k :: 0 <= j < |g.folders| && 0 <= k < |g.folders[j].1| ==>
          g.folders[j].1[k] < |names|
          && Includes(names[g.folders[j].1[k]], Marker)
          && Before(names[g.folders[j].1[k]], Marker) == g.folders[j].0)
  }

  lemma {:induction false} CollectLabelled(names: seq<string>)
    ensures Labelled(names, Collect(names))
    decreases |names|
  {
    if |names| > 0 {
      var n := |names| - 1;
      var prev := names[..n];
      CollectLabelled(prev);
      var g := Collect(prev);
      assert forall k :: 0 <= k < n ==> prev[k] == names[k];
      if Includes(names[n], Marker) {
        var key := Before(names[n], Marker);
        var fs := AddToFolder(g.folders, key, n);
        forall j, k | 0 <= j < |fs| && 0 <= k < |fs[j].1|
          ensures fs[j].1[k] < |names| && Includes(names[fs[j].1[k]], Marker)
                  && Before(names[fs[j].1[k]], Marker) == fs[j].0
        {
          if j < |g.folders| && k < |g.folders[j].1| {
            assert fs[j].1[k] == g.folders[j].1[k];
            assert g.folders[j].1[k] < n;
          } else {
            assert fs[j].1[k] == n && fs[j].0 == key;
          }
        }
        assert Collect(names) == g.(folders := fs);
      } else {
        assert Collect(names) == g.(standalone := g.standalone + [n]);
      }
    }
  }

  /** Strictly increasing: input order. */
  predicate Increasing(s: seq<nat>) {
    forall a, b :: 0 <= a < b < |s| ==> s[a] < s[b]
  }

  /** Root files and every folder keep input order, folders are non-empty
      and named once each, and they come in the order of their first page. */
  ghost predicate Ordered(g: Groups) {
    && Increasing(g.standalone)
    && (forall j :: 0 <= j < |g.folders| ==> |g.folders[j].1| > 0 && Increasing(g.folders[j].1))
    && (forall a, b :: 0 <= a < b < |g.folders| ==>
          g.folders[a].0 != g.folders[b].0 && g.folders[a].1[0] < g.folders[b].1[0])
  }

  lemma IncreasingSnoc(s: seq<nat>, n: nat)
    requires Increasing(s) && forall k :: 0 <= k < |s| ==> s[k] < n
    ensures Increasing(s + [n])
  {
  }

  lemma {:induction false} CollectOrdered(names: seq<string>)
    ensures Ordered(Collect(names))
    decreases |names|
  {
    if |names| > 0 {
      var n := |names| - 1;
      var prev := names[..n];
      CollectOrdered(prev);
      CollectLabelled(prev);
      var g := Collect(prev);
      if Includes(names[n], Marker) {
        var fs := AddToFolder(g.folders, Before(names[n], Marker), n);
        forall j | 0 <= j < |fs|
          ensures |fs[j].1| > 0 && Increasing(fs[j].1)
        {
          if j < |g.folders| {
            if fs[j].1 != g.folders[j].1 {
              IncreasingSnoc(g.folders[j].1, n);
            }
          } else {
            assert fs[j].1 == [n];
          }
        }
        forall a, b | 0 <= a < b < |fs|
          ensures fs[a].0 != fs[b].0 && fs[a].1[0] < fs[b].1[0]
        {
          assert fs[a].1[0] == g.folders[a].1[0];
          if b < |g.folders| {
            assert fs[b].1[0] == g.folders[b].1[0];
          } else {
            assert g.folders[a].1[0] < n;
          }
        }
        assert Collect(names) == g.(folders := fs);
      } else {
        IncreasingSnoc(g.standalone, n);
        assert Collect(names) == g.(standalone := g.standalone + [n]);
      }
    }
  }

  /** All the indexes of the folders, folder after folder. */
  function Flatten(fs: seq<(string, seq<nat>)>): seq<nat> {
    if |fs| == 0 then [] else fs[0].1 + Flatten(fs[1..])
  }

  /** Adding to a folder adds one index to the whole. */
  lemma {:induction false} AddToFolderCount(fs: seq<(string, seq<nat>)>, key: string, i: nat)
    ensures multiset(Flatten(AddToFolder(fs, key, i))) == multiset(Flatten(fs)) + multiset{i}
    decreases |fs|
  {
    if |fs| > 0 && fs[0].0 != key {
      AddToFolderCount(fs[1..], key, i);
      var r := AddToFolder(fs, key, i);
      assert r[0] == fs[0] && r[1..] == AddToFolder(fs[1..], key, i);
    } else if |fs| > 0 {
      var r := AddToFolder(fs, key, i);
      assert r[1..] == fs[1..];
    }
  }

  function Range(n: nat): (r: seq<nat>)
    ensures |r| == n && forall i :: 0 <= i < n ==> r[i] == i
  {
    seq(n, i requires 0 <= i < n => i)
  }

  lemma RangeSnoc(n: nat)
    ensures multiset(Range(n + 1)) == multiset(Range(n)) + multiset{n}
  {
    assert Range(n + 1) == Range(n) + [n];
  }

  /** Every image is recorded exactly once, at the root or in one folder. */
  lemma {:induction false} CollectOnce(names: seq<string>)
    ensures multiset(Collect(names).standalone) + multiset(Flatten(Collect(names).folders))
            == multiset(Range(|names|))
    decreases |names|
  {
    if |names| > 0 {
      var n: nat := |names| - 1;
      CollectOnce(names[..n]);
      CollectStep(names);
      RangeSnoc(n);
    }
  }

  /** The last image adds its own index, at the root or in a folder. */
  lemma CollectStep(names: seq<string>)
    requires |names| > 0
    ensures var n: nat := |names| - 1;
            var g := Collect(names[..n]);
            multiset(Collect(names).standalone) + multiset(Flatten(Collect(names).folders))
            == multiset(g.standalone) + multiset(Flatten(g.folders)) + multiset{n}
  {
    var n := |names| - 1;
    var g := Collect(names[..n]);
    if Includes(names[n], Marker) {
      var fs := AddToFolder(g.folders, Before(names[n], Marker), n);
      assert Collect(names) == g.(folders := fs);
      AddToFolderCount(g.folders, Before(names[n], Marker), n);
    } else {
      assert Collect(names) == g.(standalone := g.standalone + [n]);
    }
  }

  // ---------------------------------------------------------------------
  // The archive

  /** A file in the archive: which image it holds, its folder, and its name
      within that folder. */
  datatype Entry = Entry(source: nat, folder: Option<string>, path: string)

  function RootEntries(names: seq<string>, idx: seq<nat>): (r: seq<Entry>)
    requires forall k :: 0 <= k < |idx| ==> idx[k] < |names|
    ensures |r| == |idx|
    ensures forall k :: 0 <= k < |idx| ==> r[k] == Entry(idx[k], None, names[idx[k]])
  {
    seq(|idx|, k requires 0 <= k < |idx| => Entry(idx[k], None, names[idx[k]]))
  }

  function FolderEntries(names: seq<string>, key: string, idx: seq<nat>): (r: seq<Entry>)
    requires forall k :: 0 <= k < |idx| ==> idx[k] < |names|
    ensures |r| == |idx|
    ensures forall k :: 0 <= k < |idx| ==>
              r[k] == Entry(idx[k], Some(key), ReplaceFirst(names[idx[k]], key + Marker, PagePrefix))
  {
    seq(|idx|, k requires 0 <= k < |idx| =>
      Entry(idx[k], Some(key), ReplaceFirst(names[idx[k]], key + Marker, PagePrefix)))
  }

  function AllFolderEntries(names: seq<string>, fs: seq<(string, seq<nat>)>): seq<Entry>
    requires forall j, k :: 0 <= j < |fs| && 0 <= k < |fs[j].1| ==> fs[j].1[k] < |names|
  {
    if |fs| == 0 then []
    else
      assert forall j :: 1 <= j < |fs| ==> fs[1..][j - 1] == fs[j];
      FolderEntries(names, fs[0].0, fs[0].1) + AllFolderEntries(names, fs[1..])
  }

  /** `createImageArchive`: root files first, then each folder's pages. */
  function Archive(names: seq<string>): (r: seq<Entry>)
    ensures forall k :: 0 <= k < |r| ==>
              (r[k].folder.None? <==> k < |Collect(names).standalone|)
  {
    var g := Collect(names);
    CollectLabelled(names);
    FolderEntriesRestore(names, g.folders);
    RootEntries(names, g.standalone) + AllFolderEntries(names, g.folders)
  }

  function Sources(es: seq<Entry>): (r: seq<nat>)
    ensures |r| == |es| && forall k :: 0 <= k < |es| ==> r[k] == es[k].source
  {
    seq(|es|, k requires 0 <= k < |es| => es[k].source)
  }

  lemma {:induction false} FolderSources(names: seq<string>, fs: seq<(string, seq<nat>)>)
    requires forall j, k :: 0 <= j < |fs| && 0 <= k < |fs[j].1| ==> fs[j].1[k] < |names|
    ensures Sources(AllFolderEntries(names, fs)) == Flatten(fs)
    decreases |fs|
  {
    if |fs| > 0 {
      assert forall j :: 1 <= j < |fs| ==> fs[1..][j - 1] == fs[j];
      FolderSources(names, fs[1..]);
      var head := FolderEntries(names, fs[0].0, fs[0].1);
      var tail := AllFolderEntries(names, fs[1..]);
      assert Sources(head + tail) == Sources(head) + Sources(tail);
      assert Sources(head) == fs[0].1;
    }
  }

  lemma SourcesConcat(a: seq<Entry>, b: seq<Entry>)
    ensures Sources(a + b) == Sources(a) + Sources(b)
  {
  }

  /** Every processed image yields exactly one file in the archive. */
  lemma ArchiveHoldsEachImageOnce(names: seq<string>)
    ensures |Archive(names)| == |names|
    ensures multiset(Sources(Archive(names))) == multiset(Range(|names|))
  {
    var g := Collect(names);
    CollectLabelled(names);
    CollectOnce(names);
    var root := RootEntries(names, g.standalone);
    var rest := AllFolderEntries(names, g.folders);
    var a := Archive(names);
    assert a == root + rest;
    FolderSources(names, g.folders);
    assert Sources(root) == g.standalone;
    SourcesConcat(root, rest);
    var src := Sources(a);
    assert src == g.standalone + Flatten(g.folders);
    assert multiset(src) == multiset(Range(|names|));
    calc {
      |a|;
      |src|;
      |multiset(src)|;
      |multiset(Range(|names|))|;
      |Range(|names|)|;
    }
  }

  /** Moving the brackets of a four-part concatenation. */
  lemma Regroup(a: string, b: string, c: string, d: string)
    ensures a + b + (c + d) == a + (b + c) + d
  {
  }

  /** A page's folder, `_` and its new name give back its original name. */
  lemma PageRestores(name: string, key: string)
    requires Includes(name, Marker) && Before(name, Marker) == key
    ensures key + "_" + ReplaceFirst(name, key + Marker, PagePrefix) == name
  {
    PageName(name);
    var rest := name[|key| + |Marker|..];
    MarkerSplits();
    Regroup(key, "_", PagePrefix, rest);
  }

  /** Every page file names its source and can be traced back to it. */
  lemma {:induction false} FolderEntriesRestore(names: seq<string>, fs: seq<(string, seq<nat>)>)
    requires forall j, k :: 0 <= j < |fs| && 0 <= k < |fs[j].1| ==>
               fs[j].1[k] < |names| && Includes(names[fs[j].1[k]], Marker)
               && Before(names[fs[j].1[k]], Marker) == fs[j].0
    ensures forall e :: e in AllFolderEntries(names, fs) ==>
              e.source < |names| && e.folder.Some? && e.folder.value == Before(names[e.source], Marker)
              && e.folder.value + "_" + e.path == names[e.source]
    decreases |fs|
  {
    if |fs| > 0 {
      assert forall j :: 1 <= j < |fs| ==> fs[1..][j - 1] == fs[j];
      FolderEntriesRestore(names, fs[1..]);
      var head := FolderEntries(names, fs[0].0, fs[0].1);
      var tail := AllFolderEntries(names, fs[1..]);
      forall e | e in head
        ensures e.source < |names| && e.folder.Some? && e.folder.value == Before(names[e.source], Marker)
                && e.folder.value + "_" + e.path == names[e.source]
      {
        var k :| 0 <= k < |head| && head[k] == e;
        PageRestores(names[fs[0].1[k]], fs[0].0);
      }
      assert AllFolderEntries(names, fs) == head + tail;
    }
  }

  /** Where each image lands: unmarked names at the root under their own
      name; marked names in the folder of their prefix, under a name that
      with the folder and `_` in front gives back the original. */
  lemma ArchiveRestoresNames(names: seq<string>)
    ensures forall e :: e in Archive(names) ==>
              && e.source < |names|
              && (e.folder.None? <==> !Includes(names[e.source], Marker))
              && (e.folder.None? ==> e.path == names[e.source])
              && (e.folder.Some? ==> e.folder.value == Before(names[e.source], Marker)
                                     && e.folder.value + "_" + e.path == names[e.source])
  {
    var g := Collect(names);
    CollectLabelled(names);
    FolderEntriesRestore(names, g.folders);
    var root := RootEntries(names, g.standalone);
    forall e | e in root
      ensures e.source < |names| && e.folder.None? && !Includes(names[e.source], Marker)
              && e.path == names[e.source]
    {
      var k :| 0 <= k < |root| && root[k] == e;
    }
  }

  /** With no marked name, the archive is the images in input order, each
      under its own name. */
  lemma {:induction false} NoPagesAllAtRoot(names: seq<string>)
    requires forall i :: 0 <= i < |names| ==> !Includes(names[i], Marker)
    ensures Collect(names) == Groups(Range(|names|), [])
    decreases |names|
  {
    if |names| > 0 {
      var n := |names| - 1;
      assert forall i :: 0 <= i < n ==> names[..n][i] == names[i];
      NoPagesAllAtRoot(names[..n]);
      assert Range(n + 1) == Range(n) + [n];
    }
  }
}
