/** A reference definition of multi-region replacement, independent of the
    order in which the editor performs the edits: the text with each region
    replaced by a given string. Cut (every replacement empty) and paste
    without whole-line fragments are proved against it. */
module Splice {
  import opened Host

  /** orig from offset t on, with region k replaced by blocks[k]. */
  function SpliceFrom(orig: string, t: nat, regs: seq<Region>, blocks: seq<string>): string
    requires t <= |orig| && SortedFrom(regs, t, |orig|) && |blocks| == |regs|
    decreases |regs|
  {
    if regs == [] then orig[t..]
    else
      SortedTail(regs, t, |orig|);
      orig[t..regs[0].Begin()] + blocks[0] + SpliceFrom(orig, regs[0].End(), regs[1..], blocks[1..])
  }

  lemma SortedTail(regs: seq<Region>, t: nat, n: nat)
    requires SortedFrom(regs, t, n) && regs != []
    ensures t <= regs[0].Begin() <= regs[0].End() <= n
    ensures SortedFrom(regs[1..], regs[0].End(), n)
  {
    var rest := regs[1..];
    assert forall i :: 0 <= i < |rest| ==> rest[i] == regs[i + 1];
  }

  /** `n` empty replacements: what a cut puts in place of each region. */
  function Empties(n: nat): (e: seq<string>)
    ensures |e| == n && forall k :: 0 <= k < n ==> e[k] == ""
  {
    seq(n, k => "")
  }

  /** The text of each region. */
  function RegionTexts(orig: string, regs: seq<Region>): (ts: seq<string>)
    ensures |ts| == |regs|
    ensures forall k :: 0 <= k < |regs| ==> ts[k] == Substr(orig, regs[k])
  {
    seq(|regs|, k requires 0 <= k < |regs| => Substr(orig, regs[k]))
  }

  /** Replacing every region by its own text changes nothing. */
  lemma {:induction false} SpliceIdentity(orig: string, t: nat, regs: seq<Region>)
    requires t <= |orig| && SortedFrom(regs, t, |orig|)
    ensures SpliceFrom(orig, t, regs, RegionTexts(orig, regs)) == orig[t..]
    decreases |regs|
  {
    if regs != [] {
      SortedTail(regs, t, |orig|);
      var r := regs[0];
      assert RegionTexts(orig, regs)[1..] == RegionTexts(orig, regs[1..]);
      SpliceIdentity(orig, r.End(), regs[1..]);
      assert orig[t..] == orig[t..r.Begin()] + orig[r.Begin()..r.End()] + orig[r.End()..];
    }
  }

  /** A splice ignores text after its last region. */
  lemma {:induction false} SpliceFrame(x: string, y: string, t: nat, regs: seq<Region>, blocks: seq<string>)
    requires t <= |x| && SortedFrom(regs, t, |x|) && |blocks| == |regs|
    ensures SortedFrom(regs, t, |x + y|)
    ensures SpliceFrom(x + y, t, regs, blocks) == SpliceFrom(x, t, regs, blocks) + y
    decreases |regs|
  {
    if regs != [] {
      SortedTail(regs, t, |x|);
      SpliceFrame(x, y, regs[0].End(), regs[1..], blocks[1..]);
      assert (x + y)[t..regs[0].Begin()] == x[t..regs[0].Begin()];
    } else {
      assert (x + y)[t..] == x[t..] + y;
    }
  }

  /** Peeling the last region off a splice. */
  lemma {:induction false} SpliceSnoc(orig: string, t: nat, regs: seq<Region>, r: Region, blocks: seq<string>, b: string)
    requires SortedFrom(regs + [r], t, |orig|) && SortedFrom(regs, t, r.Begin())
    requires t <= r.Begin() <= r.End() <= |orig| && |blocks| == |regs|
    ensures SpliceFrom(orig, t, regs + [r], blocks + [b])
         == SpliceFrom(orig[..r.Begin()], t, regs, blocks) + b + orig[r.End()..]
    decreases |regs|
  {
    if regs == [] {
      SpliceOne(orig, t, r, b);
    } else {
      var all := regs + [r];
      SortedTail(all, t, |orig|);
      SortedTail(regs, t, r.Begin());
      assert all[1..] == regs[1..] + [r];
      assert (blocks + [b])[1..] == blocks[1..] + [b];
      SpliceSnoc(orig, regs[0].End(), regs[1..], r, blocks[1..], b);
      SpliceSnocStep(orig, t, regs, r, blocks, b);
    }
  }

  lemma SpliceOne(orig: string, t: nat, r: Region, b: string)
    requires t <= r.Begin() <= r.End() <= |orig|
    ensures SortedFrom([r], t, |orig|)
    ensures SpliceFrom(orig, t, [r], [b]) == orig[..r.Begin()][t..] + b + orig[r.End()..]
  {
    assert [r][1..] == [] && [b][1..] == [];
    assert orig[..r.Begin()][t..] == orig[t..r.Begin()];
  }

  /** The inductive step of `SpliceSnoc`: one leading region, given the
      result for the rest. */
  lemma SpliceSnocStep(orig: string, t: nat, regs: seq<Region>, r: Region, blocks: seq<string>, b: string)
    requires SortedFrom(regs + [r], t, |orig|) && SortedFrom(regs, t, r.Begin())
    requires t <= r.Begin() <= r.End() <= |orig| && |blocks| == |regs| && regs != []
    requires t <= regs[0].Begin() <= regs[0].End() <= r.Begin()
    requires SortedFrom(regs[1..] + [r], regs[0].End(), |orig|) && SortedFrom(regs[1..], regs[0].End(), r.Begin())
    requires SpliceFrom(orig, regs[0].End(), regs[1..] + [r], blocks[1..] + [b])
          == SpliceFrom(orig[..r.Begin()], regs[0].End(), regs[1..], blocks[1..]) + b + orig[r.End()..]
    ensures SpliceFrom(orig, t, regs + [r], blocks + [b])
         == SpliceFrom(orig[..r.Begin()], t, regs, blocks) + b + orig[r.End()..]
  {
    var pre := orig[..r.Begin()];
    SnocHead(orig, t, regs, r, blocks, b);
    SpliceHead(pre, t, regs, blocks);
    SlicePrefix(orig, r.Begin(), t, regs[0].Begin());
    Regroup(SpliceFrom(orig, t, regs + [r], blocks + [b]), SpliceFrom(pre, t, regs, blocks),
            orig[t..regs[0].Begin()] + blocks[0], SpliceFrom(pre, regs[0].End(), regs[1..], blocks[1..]),
            SpliceFrom(orig, regs[0].End(), regs[1..] + [r], blocks[1..] + [b]), b, orig[r.End()..]);
  }

  /** `SpliceFrom` over `regs + [r]` peeled at its first region. */
  lemma SnocHead(orig: string, t: nat, regs: seq<Region>, r: Region, blocks: seq<string>, b: string)
    requires SortedFrom(regs + [r], t, |orig|) && |blocks| == |regs| && regs != [] && t <= |orig|
    ensures SortedFrom(regs[1..] + [r], regs[0].End(), |orig|) && regs[0].End() <= |orig|
    ensures SpliceFrom(orig, t, regs + [r], blocks + [b])
         == orig[t..regs[0].Begin()] + blocks[0] + SpliceFrom(orig, regs[0].End(), regs[1..] + [r], blocks[1..] + [b])
  {
    var all, bs := regs + [r], blocks + [b];
    assert all[0] == regs[0] && bs[0] == blocks[0];
    assert all[1..] == regs[1..] + [r] && bs[1..] == blocks[1..] + [b];
    SpliceHead(orig, t, all, bs);
  }

  lemma Associate(x: string, y: string, z: string, w: string)
    ensures x + (y + z + w) == x + y + z + w
  {
  }

  /** Slicing inside a prefix is slicing the whole. */
  lemma SlicePrefix(s: string, e: nat, i: nat, j: nat)
    requires i <= j <= e <= |s|
    ensures s[..e][i..j] == s[i..j]
  {
  }

  /** Regrouping the pieces of a splice with one more region at its end. */
  lemma Regroup(whole: string, front: string, head: string, mid: string, tail: string, b: string, rest: string)
    requires whole == head + tail && tail == mid + b + rest && front == head + mid
    ensures whole == front + b + rest
  {
  }

  /** `SpliceFrom` peeled at its first region. */
  lemma SpliceHead(orig: string, t: nat, regs: seq<Region>, blocks: seq<string>)
    requires t <= |orig| && SortedFrom(regs, t, |orig|) && |blocks| == |regs| && regs != []
    ensures t <= regs[0].Begin() <= regs[0].End() <= |orig| && SortedFrom(regs[1..], regs[0].End(), |orig|)
    ensures SpliceFrom(orig, t, regs, blocks)
         == orig[t..regs[0].Begin()] + blocks[0] + SpliceFrom(orig, regs[0].End(), regs[1..], blocks[1..])
  {
    SortedTail(regs, t, |orig|);
  }


  /** Regions ascending and non-overlapping, with no bound on the buffer. */
  predicate Ascending(regs: seq<Region>) {
    forall i, j :: 0 <= i < |regs| && 0 <= j < |regs| && j == i + 1 ==> regs[i].End() <= regs[j].Begin()
  }

  /** Total width of the regions. */
  function SumSizes(regs: seq<Region>): nat
    decreases |regs|
  {
    if regs == [] then 0 else SumSizes(regs[..|regs| - 1]) + regs[|regs| - 1].Size()
  }

  /** Ascending regions are no wider in total than the offset their last one ends at. */
  lemma {:induction false} SumSizesBound(regs: seq<Region>)
    requires Ascending(regs) && regs != []
    ensures SumSizes(regs) <= regs[|regs| - 1].End()
    decreases |regs|
  {
    var init := regs[..|regs| - 1];
    if init != [] {
      assert Ascending(init);
      SumSizesBound(init);
      assert init[|init| - 1] == regs[|regs| - 2];
    }
  }

  /** Where each region's caret ends up once every region is erased: its start,
      less the width of the regions before it. */
  function CutCarets(regs: seq<Region>): (cs: seq<Region>)
    requires Ascending(regs)
    ensures |cs| == |regs|
    decreases |regs|
  {
    if regs == [] then []
    else
      var init := regs[..|regs| - 1];
      var last := regs[|regs| - 1];
      InitFits(regs);
      CutCarets(init) + [Caret(last.Begin() - SumSizes(init))]
  }

  /** The regions before the last one. */
  function DropLast(regs: seq<Region>): seq<Region>
    requires regs != []
  {
    regs[..|regs| - 1]
  }

  /** The last region. */
  function Last(regs: seq<Region>): Region
    requires regs != []
  {
    regs[|regs| - 1]
  }

  /** `CutCarets` peeled at the last region. */
  lemma CutCaretsSnoc(regs: seq<Region>)
    requires Ascending(regs) && regs != []
    ensures Ascending(DropLast(regs))
    ensures SumSizes(DropLast(regs)) <= Last(regs).Begin()
    ensures CutCarets(regs) == CutCarets(DropLast(regs)) + [Caret(Last(regs).Begin() - SumSizes(DropLast(regs)))]
    ensures SumSizes(regs) == SumSizes(DropLast(regs)) + Last(regs).Size()
  {
    InitFits(regs);
  }

  /** The regions before the last one ascend and fit before its start. */
  lemma InitFits(regs: seq<Region>)
    requires Ascending(regs) && regs != []
    ensures Ascending(regs[..|regs| - 1])
    ensures SumSizes(regs[..|regs| - 1]) <= regs[|regs| - 1].Begin()
  {
    var init := regs[..|regs| - 1];
    assert Ascending(init);
    if init != [] {
      SumSizesBound(init);
      assert init[|init| - 1] == regs[|regs| - 2];
    }
  }

  lemma EmptiesSnoc(n: nat)
    ensures Empties(n + 1) == Empties(n) + [""]
  {
  }

  /** Splitting a selection into the regions before its last one and that one. */
  lemma SplitLast(regs: seq<Region>, t: nat, n: nat)
    requires SortedFrom(regs, t, n) && regs != []
    ensures var init := regs[..|regs| - 1];
            var r := regs[|regs| - 1];
            && regs == init + [r]
            && t <= r.Begin() <= r.End() <= n
            && SortedFrom(init, t, r.Begin())
            && Ascending(init)
  {
    var init := regs[..|regs| - 1];
    var r := regs[|regs| - 1];
    assert regs == init + [r];
    forall i | 0 <= i < |init| ensures init[i].End() <= r.Begin() {
      SortedPairwise(regs, n, i, |regs| - 1);
    }
    if init != [] {
      SortedPairwise(regs, n, 0, |regs| - 1);
    }
  }

  /** Deleting every region removes exactly their total width. */
  lemma {:induction false} SpliceEmptiesLength(orig: string, t: nat, regs: seq<Region>)
    requires t <= |orig| && SortedFrom(regs, t, |orig|)
    ensures |SpliceFrom(orig, t, regs, Empties(|regs|))| == |orig| - t - SumSizes(regs)
    decreases |regs|
  {
    if regs != [] {
      SplitLast(regs, t, |orig|);
      var init := regs[..|regs| - 1];
      var r := regs[|regs| - 1];
      SpliceEmptiesLength(orig[..r.Begin()], t, init);
      EmptiesLengthStep(orig, t, regs);
    }
  }

  lemma EmptiesLengthStep(orig: string, t: nat, regs: seq<Region>)
    requires t <= |orig| && SortedFrom(regs, t, |orig|) && regs != []
    requires var init, r := regs[..|regs| - 1], regs[|regs| - 1];
             && SortedFrom(init, t, r.Begin()) && t <= r.Begin() <= r.End() <= |orig|
             && |SpliceFrom(orig[..r.Begin()], t, init, Empties(|init|))| == r.Begin() - t - SumSizes(init)
    ensures |SpliceFrom(orig, t, regs, Empties(|regs|))| == |orig| - t - SumSizes(regs)
  {
    CutSplitBuffer(orig, t, regs);
  }

  /** Deleting the regions and then replacing each resulting caret is the same
      as replacing the regions themselves: the carets a cut leaves are where a
      paste puts the text back. */
  lemma {:induction false} SpliceIntoCutCarets(orig: string, regs: seq<Region>, blocks: seq<string>)
    requires SortedFrom(regs, 0, |orig|) && |blocks| == |regs|
    ensures SortedFrom(CutCarets(regs), 0, |SpliceFrom(orig, 0, regs, Empties(|regs|))|)
    ensures SpliceFrom(SpliceFrom(orig, 0, regs, Empties(|regs|)), 0, CutCarets(regs), blocks)
         == SpliceFrom(orig, 0, regs, blocks)
    decreases |regs|
  {
    if regs != [] {
      SplitLast(regs, 0, |orig|);
      var r := regs[|regs| - 1];
      SpliceIntoCutCarets(orig[..r.Begin()], regs[..|regs| - 1], blocks[..|blocks| - 1]);
      CutCaretsStep(orig, regs, blocks);
    }
  }

  /** The inductive step of `SpliceIntoCutCarets`: one more region at the end. */
  lemma CutCaretsStep(orig: string, regs: seq<Region>, blocks: seq<string>)
    requires SortedFrom(regs, 0, |orig|) && |blocks| == |regs| && regs != []
    requires var init, r := regs[..|regs| - 1], regs[|regs| - 1];
             && SortedFrom(init, 0, r.Begin()) && r.Begin() <= r.End() <= |orig| && Ascending(init)
             && SortedFrom(CutCarets(init), 0, |SpliceFrom(orig[..r.Begin()], 0, init, Empties(|init|))|)
             && SpliceFrom(SpliceFrom(orig[..r.Begin()], 0, init, Empties(|init|)), 0, CutCarets(init), blocks[..|blocks| - 1])
                == SpliceFrom(orig[..r.Begin()], 0, init, blocks[..|blocks| - 1])
    ensures SortedFrom(CutCarets(regs), 0, |SpliceFrom(orig, 0, regs, Empties(|regs|))|)
    ensures SpliceFrom(SpliceFrom(orig, 0, regs, Empties(|regs|)), 0, CutCarets(regs), blocks)
         == SpliceFrom(orig, 0, regs, blocks)
  {
    var init, r := regs[..|regs| - 1], regs[|regs| - 1];
    var bi, bl := blocks[..|blocks| - 1], blocks[|blocks| - 1];
    CutCaretsLeft(orig, regs, blocks);
    assert blocks == bi + [bl] && regs == init + [r];
    SpliceSnoc(orig, 0, init, r, bi, bl);
  }

  /** Pasting into the carets of a cut, peeled at the last caret. */
  lemma CutCaretsLeft(orig: string, regs: seq<Region>, blocks: seq<string>)
    requires SortedFrom(regs, 0, |orig|) && |blocks| == |regs| && regs != []
    requires var init, r := regs[..|regs| - 1], regs[|regs| - 1];
             && SortedFrom(init, 0, r.Begin()) && r.Begin() <= r.End() <= |orig| && Ascending(init)
             && SortedFrom(CutCarets(init), 0, |SpliceFrom(orig[..r.Begin()], 0, init, Empties(|init|))|)
    ensures SortedFrom(CutCarets(regs), 0, |SpliceFrom(orig, 0, regs, Empties(|regs|))|)
    ensures var init, r := regs[..|regs| - 1], regs[|regs| - 1];
            SpliceFrom(SpliceFrom(orig, 0, regs, Empties(|regs|)), 0, CutCarets(regs), blocks)
            == SpliceFrom(SpliceFrom(orig[..r.Begin()], 0, init, Empties(|init|)), 0, CutCarets(init), blocks[..|blocks| - 1])
               + blocks[|blocks| - 1] + orig[r.End()..]
  {
    var init, r := regs[..|regs| - 1], regs[|regs| - 1];
    var bi, bl := blocks[..|blocks| - 1], blocks[|blocks| - 1];
    var x0 := SpliceFrom(orig[..r.Begin()], 0, init, Empties(|init|));
    CutSplit(orig, regs);
    assert blocks == bi + [bl];
    CaretSnoc(x0, orig[r.End()..], CutCarets(init), bi, bl);
  }

  /** `SpliceSnoc` for a caret at the end of a prefix. */
  lemma CaretSnoc(x0: string, rest: string, cs: seq<Region>, bi: seq<string>, bl: string)
    requires SortedFrom(cs, 0, |x0|) && |bi| == |cs|
    ensures SortedFrom(cs + [Caret(|x0|)], 0, |x0 + rest|)
    ensures SpliceFrom(x0 + rest, 0, cs + [Caret(|x0|)], bi + [bl]) == SpliceFrom(x0, 0, cs, bi) + bl + rest
  {
    var x := x0 + rest;
    CaretAppendSorted(cs, |x0|, |x|);
    assert x[..|x0|] == x0 && x[|x0|..] == rest;
    SpliceSnoc(x, 0, cs, Caret(|x0|), bi, bl);
  }

  /** Deleting the last region of a selection, and where its caret lands. */
  lemma CutSplit(orig: string, regs: seq<Region>)
    requires SortedFrom(regs, 0, |orig|) && regs != []
    requires var init, r := regs[..|regs| - 1], regs[|regs| - 1];
             SortedFrom(init, 0, r.Begin()) && r.Begin() <= r.End() <= |orig| && Ascending(init)
    ensures var init, r := regs[..|regs| - 1], regs[|regs| - 1];
            var x0 := SpliceFrom(orig[..r.Begin()], 0, init, Empties(|init|));
            && regs == init + [r]
            && SpliceFrom(orig, 0, regs, Empties(|regs|)) == x0 + orig[r.End()..]
            && CutCarets(regs) == CutCarets(init) + [Caret(|x0|)]
  {
    var init, r := regs[..|regs| - 1], regs[|regs| - 1];
    assert regs == init + [r];
    CutSplitBuffer(orig, 0, regs);
    CutSplitCaret(orig, regs);
  }

  /** Deleting one more region at the end. */
  lemma CutSplitBuffer(orig: string, t: nat, regs: seq<Region>)
    requires t <= |orig| && SortedFrom(regs, t, |orig|) && regs != []
    requires var init, r := regs[..|regs| - 1], regs[|regs| - 1];
             SortedFrom(init, t, r.Begin()) && t <= r.Begin() <= r.End() <= |orig|
    ensures var init, r := regs[..|regs| - 1], regs[|regs| - 1];
            SpliceFrom(orig, t, regs, Empties(|regs|))
            == SpliceFrom(orig[..r.Begin()], t, init, Empties(|init|)) + orig[r.End()..]
  {
    var init, r := regs[..|regs| - 1], regs[|regs| - 1];
    assert regs == init + [r];
    EmptiesSnoc(|init|);
    SpliceSnoc(orig, t, init, r, Empties(|init|), "");
    AppendEmpty(SpliceFrom(orig[..r.Begin()], t, init, Empties(|init|)), orig[r.End()..]);
  }

  lemma AppendEmpty(x: string, y: string)
    ensures x + "" + y == x + y
  {
    assert x + "" == x;
  }

  lemma CutSplitCaret(orig: string, regs: seq<Region>)
    requires regs != [] && Ascending(regs)
    requires var init, r := regs[..|regs| - 1], regs[|regs| - 1];
             SortedFrom(init, 0, r.Begin()) && r.Begin() <= |orig| && Ascending(init)
    ensures var init, r := regs[..|regs| - 1], regs[|regs| - 1];
            CutCarets(regs) == CutCarets(init) + [Caret(|SpliceFrom(orig[..r.Begin()], 0, init, Empties(|init|))|)]
  {
    var init, r := regs[..|regs| - 1], regs[|regs| - 1];
    SpliceEmptiesLength(orig[..r.Begin()], 0, init);
    assert |SpliceFrom(orig[..r.Begin()], 0, init, Empties(|init|))| == r.Begin() - SumSizes(init);
  }

  lemma CaretAppendSorted(cs: seq<Region>, p: nat, n: nat)
    requires SortedFrom(cs, 0, p) && p <= n
    ensures SortedFrom(cs + [Caret(p)], 0, n)
    ensures SortedFrom(cs, 0, Caret(p).Begin())
  {
  }
}
