/** What `CopyEditCommand.copy` computes (copy_edit.py:26-48): one fragment
    per selection region, collapsed to a single fragment when all are equal,
    and the clipboard text built from the stored fragments. */
module Copy {
  import opened Host
  import opened Text
  import opened Optional

  /** One captured piece of text, and whether it was captured as a whole line
      from an empty region. */
  datatype Fragment = Fragment(text: string, wholeLine: bool)

  /** The `line_endings` table (copy_edit.py:5). */
  function LineEndingString(e: LineEnding): (s: string)
    ensures 1 <= |s| <= 2
  {
    match e
    case CR => "\r"
    case Unix => "\n"
    case Windows => "\r\n"
  }

  function Texts(frags: seq<Fragment>): (ts: seq<string>)
    ensures |ts| == |frags|
    ensures forall k :: 0 <= k < |frags| ==> ts[k] == frags[k].text
  {
    seq(|frags|, k requires 0 <= k < |frags| => frags[k].text)
  }

  /** The fragment a region yields: its text, or for an empty region the
      full line holding the caret, flagged as whole-line. */
  function FragmentOf(buf: string, r: Region): (f: Fragment)
    ensures f.wholeLine <==> r.Size() == 0
    ensures r.End() <= |buf| ==> r.Size() <= |f.text|
  {
    if r.Size() > 0 then Fragment(Substr(buf, r), false)
    else Fragment(Substr(buf, FullLine(buf, r)), true)
  }

  /** The list the loop at copy_edit.py:31-36 builds: empty regions are
      skipped unless `copy_with_empty_selection` is set. */
  function Captured(buf: string, sel: seq<Region>, copyEmpty: bool): (r: seq<Fragment>)
    ensures |r| <= |sel|
    decreases |sel|
  {
    if sel == [] then []
    else
      var last := sel[|sel| - 1];
      Captured(buf, sel[..|sel| - 1], copyEmpty)
        + (if last.Size() > 0 || copyEmpty then [FragmentOf(buf, last)] else [])
  }

  /** The regions that yield a fragment, in selection order. */
  function CapturedRegions(sel: seq<Region>, copyEmpty: bool): (r: seq<Region>)
    ensures |r| <= |sel|
    decreases |sel|
  {
    if sel == [] then []
    else
      var last := sel[|sel| - 1];
      CapturedRegions(sel[..|sel| - 1], copyEmpty)
        + (if last.Size() > 0 || copyEmpty then [last] else [])
  }

  /** With `copy_with_empty_selection` every region is captured; without it
      only non-empty ones are, and every non-empty one is. */
  lemma {:induction false} CapturedRegionsFacts(sel: seq<Region>, copyEmpty: bool)
    ensures copyEmpty ==> CapturedRegions(sel, copyEmpty) == sel
    ensures forall k :: 0 <= k < |CapturedRegions(sel, copyEmpty)| ==> copyEmpty || CapturedRegions(sel, copyEmpty)[k].Size() > 0
    ensures forall k :: 0 <= k < |sel| && sel[k].Size() > 0 ==> sel[k] in CapturedRegions(sel, copyEmpty)
    decreases |sel|
  {
    if sel != [] {
      var init, last := sel[..|sel| - 1], sel[|sel| - 1];
      CapturedRegionsFacts(init, copyEmpty);
      var ri := CapturedRegions(init, copyEmpty);
      var tail: seq<Region> := if last.Size() > 0 || copyEmpty then [last] else [];
      assert CapturedRegions(sel, copyEmpty) == ri + tail;
      assert init + [last] == sel;
      CapturedSnoc(ri, tail, last, copyEmpty);
      forall k | 0 <= k < |sel| && sel[k].Size() > 0 ensures sel[k] in ri + tail {
        if k < |init| {
          assert sel[k] == init[k];
        }
      }
    }
  }

  lemma CapturedSnoc(ri: seq<Region>, tail: seq<Region>, last: Region, copyEmpty: bool)
    requires forall k :: 0 <= k < |ri| ==> copyEmpty || ri[k].Size() > 0
    requires tail == if last.Size() > 0 || copyEmpty then [last] else []
    ensures forall k :: 0 <= k < |ri + tail| ==> copyEmpty || (ri + tail)[k].Size() > 0
  {
    var regs := ri + tail;
    forall k | 0 <= k < |regs| ensures copyEmpty || regs[k].Size() > 0 {
      if k < |ri| {
        assert regs[k] == ri[k];
      } else {
        assert regs[k] == last;
      }
    }
  }

  /** So without that setting, no fragment is a whole line. */
  lemma CapturedPlain(buf: string, sel: seq<Region>)
    ensures forall k :: 0 <= k < |Captured(buf, sel, false)| ==> !Captured(buf, sel, false)[k].wholeLine
  {
    CapturedRegionsFacts(sel, false);
    CapturedFromRegions(buf, sel, false);
  }

  /** The k-th captured fragment is the fragment of the k-th capturing
      region; so when every region is non-empty, fragment k is the text of
      region k. */
  lemma {:induction false} CapturedFromRegions(buf: string, sel: seq<Region>, copyEmpty: bool)
    ensures |Captured(buf, sel, copyEmpty)| == |CapturedRegions(sel, copyEmpty)|
    ensures forall k :: 0 <= k < |Captured(buf, sel, copyEmpty)| ==>
              Captured(buf, sel, copyEmpty)[k] == FragmentOf(buf, CapturedRegions(sel, copyEmpty)[k])
    decreases |sel|
  {
    if sel != [] {
      CapturedFromRegions(buf, sel[..|sel| - 1], copyEmpty);
    }
  }

  /** With no empty region, every region is captured. */
  lemma {:induction false} CapturedRegionsAllNonEmpty(sel: seq<Region>, copyEmpty: bool)
    requires forall k :: 0 <= k < |sel| ==> sel[k].Size() > 0
    ensures CapturedRegions(sel, copyEmpty) == sel
    decreases |sel|
  {
    if sel != [] {
      CapturedRegionsAllNonEmpty(sel[..|sel| - 1], copyEmpty);
      assert sel[..|sel| - 1] + [sel[|sel| - 1]] == sel;
    }
  }

  /** Skipping empty regions keeps the captured regions in selection order. */
  lemma {:induction false} CapturedRegionsSorted(sel: seq<Region>, copyEmpty: bool, n: nat)
    requires Sorted(sel, n)
    ensures Sorted(CapturedRegions(sel, copyEmpty), n)
    ensures LastEndsBy(CapturedRegions(sel, copyEmpty), sel)
    decreases |sel|
  {
    if sel != [] {
      SortedInit(sel, n);
      CapturedRegionsSorted(sel[..|sel| - 1], copyEmpty, n);
      CapturedSortedStep(sel, copyEmpty, n);
    }
  }

  /** The last region of regs ends no later than the last region of sel. */
  predicate LastEndsBy(regs: seq<Region>, sel: seq<Region>) {
    regs != [] ==> sel != [] && regs[|regs| - 1].End() <= sel[|sel| - 1].End()
  }

  lemma SortedInit(sel: seq<Region>, n: nat)
    requires Sorted(sel, n) && sel != []
    ensures Sorted(sel[..|sel| - 1], n)
    ensures |sel| > 1 ==> sel[|sel| - 2].End() <= sel[|sel| - 1].Begin()
  {
  }

  lemma CapturedSortedStep(sel: seq<Region>, copyEmpty: bool, n: nat)
    requires Sorted(sel, n) && sel != []
    requires Sorted(CapturedRegions(sel[..|sel| - 1], copyEmpty), n)
    requires LastEndsBy(CapturedRegions(sel[..|sel| - 1], copyEmpty), sel[..|sel| - 1])
    ensures Sorted(CapturedRegions(sel, copyEmpty), n)
    ensures LastEndsBy(CapturedRegions(sel, copyEmpty), sel)
  {
    var init, last := sel[..|sel| - 1], sel[|sel| - 1];
    var ri := CapturedRegions(init, copyEmpty);
    var tail: seq<Region> := if last.Size() > 0 || copyEmpty then [last] else [];
    assert CapturedRegions(sel, copyEmpty) == ri + tail;
    SortedInit(sel, n);
    SnocSorted(ri, tail, init, last, n);
  }

  lemma SnocSorted(regs: seq<Region>, tail: seq<Region>, init: seq<Region>, r: Region, n: nat)
    requires Sorted(regs, n) && LastEndsBy(regs, init) && r.End() <= n
    requires init != [] ==> init[|init| - 1].End() <= r.Begin()
    requires tail == [] || tail == [r]
    ensures Sorted(regs + tail, n) && LastEndsBy(regs + tail, init + [r])
  {
    if tail == [] {
      assert regs + tail == regs;
    }
  }

  /** Every pair of fragments is equal: `all(s == l[0] for s in l)`. */
  predicate AllSame(frags: seq<Fragment>) {
    forall j, k :: 0 <= j < |frags| && 0 <= k < |frags| ==> frags[j] == frags[k]
  }

  /** copy_edit.py:39-40 as written. `all` over an empty list is true, so the
      index `[0]` runs on the empty list and raises; `None` stands for that
      IndexError. */
  function CollapseAsWritten(frags: seq<Fragment>): (r: Option<seq<Fragment>>)
    ensures r.None? <==> frags == []
  {
    if AllSame(frags) then
      if frags == [] then None else Some([frags[0]])
    else Some(frags)
  }

  /** copy_edit.py:39-40 as intended: the guard at line 42 handles the empty
      list, so it passes through unchanged. A non-empty list collapses to one
      fragment exactly when all its fragments are equal. */
  function Collapse(frags: seq<Fragment>): (r: seq<Fragment>)
    ensures |r| == 0 <==> |frags| == 0
    ensures |r| <= |frags|
    ensures |r| == 1 || r == frags
    ensures |frags| > 1 ==> (|r| == 1 <==> AllSame(frags))
  {
    if frags != [] && AllSame(frags) then [frags[0]] else frags
  }

  /** Collapsing loses nothing: the collapsed store, cycled over the
      original count, gives back fragment k. */
  lemma CollapseAt(frags: seq<Fragment>, k: nat)
    requires k < |frags|
    ensures Collapse(frags)[k % |Collapse(frags)|] == frags[k]
  {
    if |Collapse(frags)| == 1 {
      assert k % 1 == 0;
    } else {
      assert k % |frags| == k;
    }
  }

  /** Where the capture is not empty, as-written and intended agree. */
  lemma CollapseAgrees(frags: seq<Fragment>)
    requires frags != []
    ensures CollapseAsWritten(frags) == Some(Collapse(frags))
  {
  }
}
