/** The page-selection dialog for a multi-page file: the set of selected
    page indexes, toggling one page, selecting or deselecting all, and
    confirming, which hands over the selected pages in document order.
    Rendering the pages is not modelled; the dialog receives them as a list. */
module Pages {

  /** Every selected index names a page: the dialog's own operations keep
      this, since pages are only offered by index. */
  predicate Valid(n: nat, sel: set<nat>) {
    forall i: nat :: i in sel ==> i < n
  }

  /** `togglePageSelection(i)`. */
  function Toggle(sel: set<nat>, i: nat): (r: set<nat>)
    ensures i in r <==> i !in sel
    ensures forall j :: j != i ==> (j in r <==> j in sel)
  {
    if i in sel then sel - {i} else sel + {i}
  }

  /** Clicking a page twice restores the selection. */
  lemma ToggleTwice(sel: set<nat>, i: nat)
    ensures Toggle(Toggle(sel, i), i) == sel
  {
  }

  lemma ToggleKeepsValid(n: nat, sel: set<nat>, i: nat)
    requires Valid(n, sel) && i < n
    ensures Valid(n, Toggle(sel, i))
  {
  }

  /** The indexes below `n`: what loading and "select all" set. */
  function AllPages(n: nat): (r: set<nat>)
    ensures forall i: nat :: i in r <==> i < n
    ensures |r| == n
    decreases n
  {
    if n == 0 then {}
    else
      var rest := AllPages(n - 1);
      assert n - 1 !in rest;
      rest + {n - 1}
  }

  /** `deselectAllPages`. */
  function NoPages(): (r: set<nat>)
    ensures |r| == 0
  {
    {}
  }

  /** `pages.filter((_, index) => selected.has(index))`. */
  function Confirm<P>(pages: seq<P>, sel: set<nat>): (r: seq<P>)
    ensures |r| <= |pages|
    ensures forall k :: 0 <= k < |r| ==> r[k] in pages
    ensures forall i :: 0 <= i < |pages| && i in sel ==> pages[i] in r
  {
    if |pages| == 0 then []
    else Confirm(pages[..|pages| - 1], sel) + (if |pages| - 1 in sel then [pages[|pages| - 1]] else [])
  }

  /** The selected indexes that name a page of `n`, in increasing order. */
  function SelectedIndexes(n: nat, sel: set<nat>): (r: seq<nat>)
    ensures forall k :: 0 <= k < |r| ==> r[k] < n && r[k] in sel
    ensures forall i: nat :: i < n && i in sel ==> i in r
    ensures forall j, k :: 0 <= j < k < |r| ==> r[j] < r[k]
  {
    if n == 0 then [] else SelectedIndexes(n - 1, sel) + (if n - 1 in sel then [n - 1] else [])
  }

  /** Confirming hands over the page of every selected index and nothing
      else, in page order. */
  lemma {:induction false} ConfirmPicksSelected<P>(pages: seq<P>, sel: set<nat>)
    ensures var idx := SelectedIndexes(|pages|, sel);
            && |Confirm(pages, sel)| == |idx|
            && forall k :: 0 <= k < |idx| ==> Confirm(pages, sel)[k] == pages[idx[k]]
    decreases |pages|
  {
    if |pages| > 0 {
      var last := |pages| - 1;
      var init := pages[..last];
      ConfirmPicksSelected(init, sel);
      assert forall i :: 0 <= i < last ==> init[i] == pages[i];
    }
  }

  /** Confirming everything hands over every page, in order. */
  lemma {:induction false} ConfirmAll<P>(pages: seq<P>)
    ensures Confirm(pages, AllPages(|pages|)) == pages
    decreases |pages|
  {
    if |pages| > 0 {
      var last := |pages| - 1;
      var init, all := pages[..last], AllPages(|pages|);
      assert Confirm(pages, all) == Confirm(init, all) + [pages[last]] by {
        assert last in all;
      }
      assert Confirm(init, all) == init by {
        ConfirmOutside(init, all, AllPages(last));
        ConfirmAll(init);
      }
      LastSplit(pages);
    }
  }

  lemma LastSplit<P>(s: seq<P>)
    requires |s| > 0
    ensures s[..|s| - 1] + [s[|s| - 1]] == s
  {
  }

  /** Only the selected indexes below the length matter. */
  lemma {:induction false} ConfirmOutside<P>(pages: seq<P>, a: set<nat>, b: set<nat>)
    requires forall i: nat :: i < |pages| ==> (i in a <==> i in b)
    ensures Confirm(pages, a) == Confirm(pages, b)
    decreases |pages|
  {
    if |pages| > 0 {
      ConfirmOutside(pages[..|pages| - 1], a, b);
    }
  }

  /** With a valid selection, exactly as many pages are handed over as the
      confirm button announces (`selectedPages.size`). */
  lemma {:induction false} ConfirmCount<P>(pages: seq<P>, sel: set<nat>)
    requires Valid(|pages|, sel)
    ensures |Confirm(pages, sel)| == |sel|
    decreases |pages|
  {
    if |pages| > 0 {
      var last := |pages| - 1;
      var below := sel - {last};
      ConfirmOutside(pages[..last], sel, below);
      ConfirmCount(pages[..last], below);
      if last in sel {
        assert sel == below + {last};
      } else {
        assert sel == below;
      }
    }
  }

  /** The confirm button is enabled with something selected and nothing
      loading. */
  predicate ConfirmEnabled(sel: set<nat>, loading: bool) {
    |sel| > 0 && !loading
  }

  /** An enabled confirm always hands over at least one page. */
  lemma EnabledConfirmNonEmpty<P>(pages: seq<P>, sel: set<nat>, loading: bool)
    requires Valid(|pages|, sel) && ConfirmEnabled(sel, loading)
    ensures |Confirm(pages, sel)| > 0
  {
    ConfirmCount(pages, sel);
  }
}
