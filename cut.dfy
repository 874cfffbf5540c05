/** The erasing half of `CutEditCommand.run` (copy_edit.py:54-60): each
    captured fragment's region is erased, last region first, as a whole line
    when the fragment was captured as one. */
module Cut {
  import opened Host
  import opened Copy
  import opened Splice

  /** The buffer and the selection after some edits. */
  datatype Edited = Edited(buf: string, sel: seq<Region>)

  /** No fragment was captured as a whole line. */
  predicate NoWholeLine(frags: seq<Fragment>) {
    forall k :: 0 <= k < |frags| ==> !frags[k].wholeLine
  }

  /** Every region ends inside a buffer of length n. */
  predicate Within(regs: seq<Region>, n: nat) {
    forall k :: 0 <= k < |regs| ==> regs[k].End() <= n
  }

  /** The range erased for a region and its fragment (copy_edit.py:60): the
      region itself, or the full lines it touches. Either way it covers the
      region and stays inside the buffer. */
  function EraseRange(buf: string, r: Region, f: Fragment): (range: Region)
    ensures !f.wholeLine ==> range == r
    ensures r.End() <= |buf| ==> range.Begin() <= r.Begin() && r.End() <= range.End() <= |buf|
  {
    if f.wholeLine then FullLine(buf, r) else r
  }

  /** The loop at copy_edit.py:59-60: the pairs are erased from the last one
      to the first, and the host moves the live selection after each erase. */
  function CutErase(buf: string, sel: seq<Region>, regs: seq<Region>, frags: seq<Fragment>): (e: Edited)
    requires |regs| == |frags|
    ensures |e.sel| == |sel| && |e.buf| <= |buf|
    decreases |regs|
  {
    if regs == [] then Edited(buf, sel)
    else
      var range := EraseRange(buf, regs[|regs| - 1], frags[|frags| - 1]);
      CutErase(Erase(buf, range), AdjustAfterErase(sel, buf, range), regs[..|regs| - 1], frags[..|frags| - 1])
  }

  /** The selection stays a valid selection of the buffer, whatever is erased. */
  lemma {:induction false} CutEraseSorted(buf: string, sel: seq<Region>, regs: seq<Region>, frags: seq<Fragment>)
    requires |regs| == |frags| && Sorted(sel, |buf|)
    ensures Sorted(CutErase(buf, sel, regs, frags).sel, |CutErase(buf, sel, regs, frags).buf|)
    decreases |regs|
  {
    if regs != [] {
      var range := EraseRange(buf, regs[|regs| - 1], frags[|frags| - 1]);
      AdjustKeepsSorted(sel, buf, range);
      CutEraseSorted(Erase(buf, range), AdjustAfterErase(sel, buf, range), regs[..|regs| - 1], frags[..|frags| - 1]);
    }
  }

  /** The ranges the erase loop would erase if each were measured in the
      buffer as it was before the cut. */
  function Ranges(buf: string, regs: seq<Region>, frags: seq<Fragment>): (rs: seq<Region>)
    requires |regs| == |frags|
  {
    seq(|regs|, k requires 0 <= k < |regs| => EraseRange(buf, regs[k], frags[k]))
  }

  /** Erasing x..y, after every range, leaves each range where it was. */
  lemma RangesAfterErase(buf: string, regs: seq<Region>, frags: seq<Fragment>, x: nat, y: nat)
    requires |regs| == |frags| && Within(regs, |buf|) && x <= y <= |buf|
    requires forall k :: 0 <= k < |regs| ==> Ranges(buf, regs, frags)[k].End() <= x
    ensures Ranges(buf[..x] + buf[y..], regs, frags) == Ranges(buf, regs, frags)
    ensures Within(regs, |buf[..x] + buf[y..]|)
  {
    var rest := buf[..x] + buf[y..];
    forall k | 0 <= k < |regs|
      ensures EraseRange(rest, regs[k], frags[k]) == EraseRange(buf, regs[k], frags[k])
      ensures regs[k].End() <= |rest|
    {
      assert Ranges(buf, regs, frags)[k] == EraseRange(buf, regs[k], frags[k]);
      if frags[k].wholeLine {
        FullLineAfterErase(buf, regs[k], x, y);
      }
    }
  }

  /** When the ranges, each measured before the cut, are in order and do not
      overlap, the cut erases exactly them. Looking a full line up again on
      the shortened buffer finds the same line, since only text after it
      has gone. */
  lemma {:induction false} CutEraseRanges(buf: string, sel: seq<Region>, regs: seq<Region>, frags: seq<Fragment>)
    requires |regs| == |frags| && Within(regs, |buf|) && SortedFrom(Ranges(buf, regs, frags), 0, |buf|)
    ensures CutErase(buf, sel, regs, frags).buf == SpliceFrom(buf, 0, Ranges(buf, regs, frags), Empties(|regs|))
    decreases |regs|
  {
    var rs := Ranges(buf, regs, frags);
    if regs == [] {
      assert buf[0..] == buf;
    } else {
      SplitLast(rs, 0, |buf|);
      var n := |regs| - 1;
      var init, finit, range := regs[..n], frags[..n], rs[n];
      var x, y := range.Begin(), range.End();
      assert Ranges(buf, init, finit) == rs[..n];
      RangesAfterErase(buf, init, finit, x, y);
      assert Erase(buf, range) == buf[..x] + buf[y..];
      SpliceFrame(buf[..x], buf[y..], 0, rs[..n], Empties(n));
      CutEraseRanges(buf[..x] + buf[y..], AdjustAfterErase(sel, buf, range), init, finit);
      CutSplitBuffer(buf, 0, rs);
    }
  }

  /** Without whole-line fragments a cut deletes exactly the regions: the
      buffer is the splice with every region replaced by nothing. */
  lemma CutEraseBuffer(buf: string, sel: seq<Region>, regs: seq<Region>, frags: seq<Fragment>)
    requires |regs| == |frags| && SortedFrom(regs, 0, |buf|) && NoWholeLine(frags)
    ensures CutErase(buf, sel, regs, frags).buf == SpliceFrom(buf, 0, regs, Empties(|regs|))
  {
    assert Ranges(buf, regs, frags) == regs;
    CutEraseRanges(buf, sel, regs, frags);
  }

  /** Regions slid back by d, as the host slides those after an erased range. */
  function ShiftAll(post: seq<Region>, d: nat): (r: seq<Region>)
    ensures |r| == |post|
  {
    seq(|post|, i requires 0 <= i < |post| => Shifted(post[i], -(d as int)))
  }

  /** Every endpoint of the regions lies at or after lo. */
  predicate From(post: seq<Region>, lo: nat) {
    forall i :: 0 <= i < |post| ==> lo <= post[i].a && lo <= post[i].b
  }

  /** Erasing the last of some regions collapses it to a caret at its start,
      leaves the regions before it alone and slides those after it back by
      its width. */
  lemma AdjustLast(init: seq<Region>, r: Region, post: seq<Region>, buf: string)
    requires r.End() <= |buf| && From(post, r.End())
    requires forall i :: 0 <= i < |init| ==> init[i].End() <= r.Begin()
    ensures AdjustAfterErase(init + [r] + post, buf, r) == init + ([Caret(r.Begin())] + ShiftAll(post, r.Size()))
  {
    var sel := init + [r] + post;
    var lhs := AdjustAfterErase(sel, buf, r);
    var rhs := init + ([Caret(r.Begin())] + ShiftAll(post, r.Size()));
    var x, y := r.Begin(), r.End();
    forall i | 0 <= i < |sel| ensures lhs[i] == rhs[i] {
      if i < |init| {
        assert sel[i] == init[i] && rhs[i] == init[i];
      } else if i == |init| {
        assert sel[i] == r && rhs[i] == Caret(x);
      } else {
        assert sel[i] == post[i - |init| - 1] && rhs[i] == ShiftAll(post, r.Size())[i - |init| - 1];
      }
    }
  }

  /** The selection after erasing every region of regs, followed by regions
      after them: each erased region is a caret where `CutCarets` puts it,
      and the regions after them slide back by the total width erased. */
  lemma {:induction false} CutEraseCarets(buf: string, regs: seq<Region>, post: seq<Region>, frags: seq<Fragment>)
    requires |regs| == |frags| && SortedFrom(regs, 0, |buf|) && NoWholeLine(frags)
    requires From(post, if regs == [] then 0 else regs[|regs| - 1].End())
    ensures Ascending(regs)
    ensures CutErase(buf, regs + post, regs, frags).sel == CutCarets(regs) + ShiftAll(post, SumSizes(regs))
    decreases |regs|
  {
    if regs == [] {
      assert [] + post == post;
      assert ShiftAll(post, 0) == post;
    } else {
      SplitLast(regs, 0, |buf|);
      var init, r := regs[..|regs| - 1], regs[|regs| - 1];
      var post' := [Caret(r.Begin())] + ShiftAll(post, r.Size());
      CutEraseUnfold(buf, regs, post, frags);
      SpliceFrame(buf[..r.Begin()], buf[r.End()..], 0, init, Empties(|init|));
      PostAfter(init, r, post);
      CutEraseCarets(Erase(buf, r), init, post', frags[..|frags| - 1]);
      CaretsCombine(regs, post);
    }
  }

  /** One turn of the erase loop on a selection that is the regions
      themselves followed by later ones. */
  lemma CutEraseUnfold(buf: string, regs: seq<Region>, post: seq<Region>, frags: seq<Fragment>)
    requires |regs| == |frags| && regs != [] && NoWholeLine(frags)
    requires regs[|regs| - 1].End() <= |buf| && From(post, regs[|regs| - 1].End())
    requires SortedFrom(regs[..|regs| - 1], 0, regs[|regs| - 1].Begin())
    ensures NoWholeLine(frags[..|frags| - 1])
    ensures Erase(buf, regs[|regs| - 1]) == buf[..regs[|regs| - 1].Begin()] + buf[regs[|regs| - 1].End()..]
    ensures CutErase(buf, regs + post, regs, frags)
         == CutErase(Erase(buf, regs[|regs| - 1]),
                     regs[..|regs| - 1] + ([Caret(regs[|regs| - 1].Begin())] + ShiftAll(post, regs[|regs| - 1].Size())),
                     regs[..|regs| - 1], frags[..|frags| - 1])
  {
    var init, r := regs[..|regs| - 1], regs[|regs| - 1];
    assert !frags[|frags| - 1].wholeLine;
    assert regs + post == init + [r] + post;
    AdjustLast(init, r, post, buf);
  }

  /** The carets of the shorter cut, extended by the caret of the last
      region and the slid later regions, are the carets of the whole cut. */
  lemma {:induction false} CaretsCombine(regs: seq<Region>, post: seq<Region>)
    requires regs != [] && Ascending(regs) && From(post, regs[|regs| - 1].End())
    ensures Ascending(DropLast(regs))
    ensures CutCarets(DropLast(regs))
            + ShiftAll([Caret(Last(regs).Begin())] + ShiftAll(post, Last(regs).Size()), SumSizes(DropLast(regs)))
         == CutCarets(regs) + ShiftAll(post, SumSizes(regs))
  {
    var init, r := DropLast(regs), Last(regs);
    CutCaretsSnoc(regs);
    ShiftCons(CutCarets(init), r.Begin(), r.Size(), SumSizes(init), post);
  }

  lemma ShiftCons(pre: seq<Region>, b: nat, w: nat, s: nat, post: seq<Region>)
    requires s <= b && From(post, b + w)
    ensures pre + ShiftAll([Caret(b)] + ShiftAll(post, w), s) == pre + [Caret(b - s)] + ShiftAll(post, s + w)
  {
    ShiftAllTwice(post, w, s, b + w);
    assert ShiftAll([Caret(b)] + ShiftAll(post, w), s) == [Caret(b - s)] + ShiftAll(post, s + w);
  }

  /** After the last region is erased, the caret left at its start and the
      slid regions lie after every earlier region. */
  lemma PostAfter(init: seq<Region>, r: Region, post: seq<Region>)
    requires From(post, r.End())
    requires init != [] ==> init[|init| - 1].End() <= r.Begin()
    ensures From([Caret(r.Begin())] + ShiftAll(post, r.Size()), if init == [] then 0 else init[|init| - 1].End())
  {
  }

  lemma ShiftAllTwice(post: seq<Region>, d1: nat, d2: nat, lo: nat)
    requires From(post, lo) && d1 + d2 <= lo
    ensures ShiftAll(ShiftAll(post, d1), d2) == ShiftAll(post, d2 + d1)
  {
  }

  /** So, when every region of the selection is erased, the selection ends
      as the carets of the cut. */
  lemma CutEraseSelection(buf: string, regs: seq<Region>, frags: seq<Fragment>)
    requires |regs| == |frags| && Sorted(regs, |buf|) && NoWholeLine(frags)
    ensures CutErase(buf, regs, regs, frags).sel == CutCarets(regs)
  {
    assert regs + [] == regs;
    CutEraseCarets(buf, regs, [], frags);
  }

  /** The pairs copy_edit.py:59 erases, as written: the live selection zipped
      with the returned fragments, up to the shorter of the two. */
  function CutAsWritten(buf: string, sel: seq<Region>, frags: seq<Fragment>): Edited {
    var k := if |sel| <= |frags| then |sel| else |frags|;
    CutErase(buf, sel, sel[..k], frags[..k])
  }

  /** The pairs as intended: each fragment with the region it came from. */
  function CutFixed(buf: string, sel: seq<Region>, copyEmpty: bool): Edited {
    CapturedFromRegions(buf, sel, copyEmpty);
    CutErase(buf, sel, CapturedRegions(sel, copyEmpty), Captured(buf, sel, copyEmpty))
  }

  /** The two agree when every region yields a fragment: with
      `copy_with_empty_selection` set, or with no empty region. */
  lemma CutAgrees(buf: string, sel: seq<Region>, copyEmpty: bool)
    requires copyEmpty || forall k :: 0 <= k < |sel| ==> sel[k].Size() > 0
    ensures CutAsWritten(buf, sel, Captured(buf, sel, copyEmpty)) == CutFixed(buf, sel, copyEmpty)
  {
    CapturedFromRegions(buf, sel, copyEmpty);
    CapturedRegionsFacts(sel, copyEmpty);
    if !copyEmpty {
      CapturedRegionsAllNonEmpty(sel, copyEmpty);
    }
    var frags := Captured(buf, sel, copyEmpty);
    assert sel[..|sel|] == sel && frags[..|frags|] == frags;
  }

  /** A cut with the setting off deletes exactly the non-empty regions and
      leaves a caret in place of each region. */
  lemma CutFixedPlain(buf: string, sel: seq<Region>)
    requires Sorted(sel, |buf|)
    ensures Sorted(CapturedRegions(sel, false), |buf|)
         && CutFixed(buf, sel, false).buf == SpliceFrom(buf, 0, CapturedRegions(sel, false), Empties(|CapturedRegions(sel, false)|))
    ensures Sorted(CutFixed(buf, sel, false).sel, |CutFixed(buf, sel, false).buf|)
  {
    CapturedFromRegions(buf, sel, false);
    CapturedPlain(buf, sel);
    CapturedRegionsSorted(sel, false, |buf|);
    CutEraseBuffer(buf, sel, CapturedRegions(sel, false), Captured(buf, sel, false));
    CutEraseSorted(buf, sel, CapturedRegions(sel, false), Captured(buf, sel, false));
  }

  /** Every region is a caret. */
  predicate AllCarets(regs: seq<Region>) {
    forall k :: 0 <= k < |regs| ==> regs[k].a == regs[k].b
  }

  /** Every fragment was captured as a whole line. */
  predicate AllWhole(frags: seq<Fragment>) {
    forall k :: 0 <= k < |frags| ==> frags[k].wholeLine
  }

  /** The full line of each region. */
  function Lines(buf: string, regs: seq<Region>): (ls: seq<Region>) {
    seq(|regs|, k requires 0 <= k < |regs| => FullLine(buf, regs[k]))
  }

  /** Two pairs that would both erase the same line as a whole line. */
  predicate SameLine(buf: string, r1: Region, f1: Fragment, r2: Region, f2: Fragment) {
    f1.wholeLine && f2.wholeLine && FullLine(buf, r1) == FullLine(buf, r2)
  }

  /** Regions and the fragments captured from them, to be erased together. */
  datatype Pairs = Pairs(regs: seq<Region>, frags: seq<Fragment>)

  /** The pairs with each shared line kept once: a whole-line pair is
      dropped when the next pair erases the same line as a whole line. */
  function Once(buf: string, regs: seq<Region>, frags: seq<Fragment>): (p: Pairs)
    requires |regs| == |frags|
    ensures |p.regs| == |p.frags| <= |regs|
    decreases |regs|
  {
    if |regs| <= 1 then Pairs(regs, frags)
    else
      var rest := Once(buf, regs[1..], frags[1..]);
      if SameLine(buf, regs[0], frags[0], regs[1], frags[1]) then rest
      else Pairs([regs[0]] + rest.regs, [frags[0]] + rest.frags)
  }

  /** Pairs no neighbour of which shares a whole line pass through unchanged. */
  lemma {:induction false} OnceKeeps(buf: string, regs: seq<Region>, frags: seq<Fragment>)
    requires |regs| == |frags|
    requires forall k :: 0 <= k < |regs| - 1 ==> !SameLine(buf, regs[k], frags[k], regs[k + 1], frags[k + 1])
    ensures Once(buf, regs, frags) == Pairs(regs, frags)
    decreases |regs|
  {
    if |regs| > 1 {
      assert !SameLine(buf, regs[0], frags[0], regs[1], frags[1]);
      forall k | 0 <= k < |regs| - 2
        ensures !SameLine(buf, regs[1..][k], frags[1..][k], regs[1..][k + 1], frags[1..][k + 1])
      {
        assert !SameLine(buf, regs[k + 1], frags[k + 1], regs[k + 2], frags[k + 2]);
      }
      OnceKeeps(buf, regs[1..], frags[1..]);
      assert [regs[0]] + regs[1..] == regs && [frags[0]] + frags[1..] == frags;
    }
  }

  lemma RangesCons(buf: string, r: Region, f: Fragment, regs: seq<Region>, frags: seq<Fragment>)
    requires |regs| == |frags|
    ensures Ranges(buf, [r] + regs, [f] + frags) == [EraseRange(buf, r, f)] + Ranges(buf, regs, frags)
  {
  }

  /** What the pairs kept by `Once` erase, for carets captured as whole lines:
      ranges in order that do not overlap, among them the line of every
      caret, and no range that is not such a line. */
  predicate LinesOnce(buf: string, regs: seq<Region>, p: Pairs)
    requires |p.regs| == |p.frags|
  {
    var rs := Ranges(buf, p.regs, p.frags);
    && Within(p.regs, |buf|)
    && SortedFrom(rs, 0, |buf|)
    && (forall k :: 0 <= k < |regs| ==> FullLine(buf, regs[k]) in rs)
    && (forall j :: 0 <= j < |rs| ==> rs[j] in Lines(buf, regs))
  }

  /** Carets on the same line are neighbours in a sorted selection, so
      dropping neighbours that share a line erases each caret's line once. */
  lemma {:induction false} OnceLines(buf: string, regs: seq<Region>, frags: seq<Fragment>)
    requires |regs| == |frags| && Sorted(regs, |buf|) && AllCarets(regs) && AllWhole(frags)
    ensures LinesOnce(buf, regs, Once(buf, regs, frags))
    ensures regs != [] ==> var p := Once(buf, regs, frags);
              p.regs != [] && EraseRange(buf, p.regs[0], p.frags[0]) == FullLine(buf, regs[0])
    decreases |regs|
  {
    if |regs| <= 1 {
      assert Ranges(buf, regs, frags) == Lines(buf, regs);
    } else {
      var rest := Once(buf, regs[1..], frags[1..]);
      OnceLines(buf, regs[1..], frags[1..]);
      OnceStep(buf, regs, frags, rest);
    }
  }

  lemma OnceStep(buf: string, regs: seq<Region>, frags: seq<Fragment>, rest: Pairs)
    requires |regs| == |frags| && |regs| > 1 && Sorted(regs, |buf|) && AllCarets(regs) && AllWhole(frags)
    requires rest == Once(buf, regs[1..], frags[1..])
    requires LinesOnce(buf, regs[1..], rest)
    requires rest.regs != [] && EraseRange(buf, rest.regs[0], rest.frags[0]) == FullLine(buf, regs[1])
    ensures LinesOnce(buf, regs, Once(buf, regs, frags))
    ensures var p := Once(buf, regs, frags);
            p.regs != [] && EraseRange(buf, p.regs[0], p.frags[0]) == FullLine(buf, regs[0])
  {
    LinesTail(buf, regs);
    if SameLine(buf, regs[0], frags[0], regs[1], frags[1]) {
      OnceDrop(buf, regs, rest);
    } else {
      assert regs[0] == Caret(regs[0].a) && regs[1] == Caret(regs[1].a);
      CaretLines(buf, regs[0].a, regs[1].a);
      RangesCons(buf, regs[0], frags[0], rest.regs, rest.frags);
      OnceKeep(buf, regs, frags[0], rest);
    }
  }

  lemma LinesTail(buf: string, regs: seq<Region>)
    requires regs != []
    ensures Lines(buf, regs) == [FullLine(buf, regs[0])] + Lines(buf, regs[1..])
    ensures forall k :: 0 < k < |regs| ==> regs[k] == regs[1..][k - 1]
  {
  }

  /** A caret sharing its line with the next one adds no range. */
  lemma OnceDrop(buf: string, regs: seq<Region>, rest: Pairs)
    requires |regs| > 1 && |rest.regs| == |rest.frags|
    requires LinesOnce(buf, regs[1..], rest)
    requires FullLine(buf, regs[0]) == FullLine(buf, regs[1])
    requires Lines(buf, regs) == [FullLine(buf, regs[0])] + Lines(buf, regs[1..])
    requires forall k :: 0 < k < |regs| ==> regs[k] == regs[1..][k - 1]
    ensures LinesOnce(buf, regs, rest)
  {
    var rs := Ranges(buf, rest.regs, rest.frags);
    assert FullLine(buf, regs[1..][0]) in rs;
  }

  /** A caret on a line before the next one's adds its line in front. */
  lemma OnceKeep(buf: string, regs: seq<Region>, f: Fragment, rest: Pairs)
    requires |regs| > 1 && |rest.regs| == |rest.frags| && f.wholeLine && regs[0].End() <= |buf|
    requires LinesOnce(buf, regs[1..], rest)
    requires rest.regs != [] && Ranges(buf, rest.regs, rest.frags)[0] == FullLine(buf, regs[1])
    requires FullLine(buf, regs[0]).End() <= FullLine(buf, regs[1]).Begin()
    requires Lines(buf, regs) == [FullLine(buf, regs[0])] + Lines(buf, regs[1..])
    requires forall k :: 0 < k < |regs| ==> regs[k] == regs[1..][k - 1]
    requires Ranges(buf, [regs[0]] + rest.regs, [f] + rest.frags)
          == [EraseRange(buf, regs[0], f)] + Ranges(buf, rest.regs, rest.frags)
    ensures LinesOnce(buf, regs, Pairs([regs[0]] + rest.regs, [f] + rest.frags))
  {
    var rs' := Ranges(buf, rest.regs, rest.frags);
    var rs := [FullLine(buf, regs[0])] + rs';
    KeepSorted(FullLine(buf, regs[0]), rs', |buf|);
    KeepWithin(regs[0], rest.regs, |buf|);
    KeepCovers(buf, regs, rs');
    KeepOnly(FullLine(buf, regs[0]), rs', Lines(buf, regs[1..]));
  }

  lemma KeepSorted(l: Region, rs: seq<Region>, n: nat)
    requires SortedFrom(rs, 0, n) && rs != [] && l.End() <= rs[0].Begin()
    ensures SortedFrom([l] + rs, 0, n)
  {
    var all := [l] + rs;
    forall j | 0 < j < |all| ensures all[j - 1].End() <= all[j].Begin() {
      if j > 1 {
        assert all[j - 1] == rs[j - 2] && all[j] == rs[j - 1];
      }
    }
  }

  lemma KeepWithin(r: Region, regs: seq<Region>, n: nat)
    requires r.End() <= n && Within(regs, n)
    ensures Within([r] + regs, n)
  {
    var all := [r] + regs;
    forall k | 0 < k < |all| ensures all[k].End() <= n {
      assert all[k] == regs[k - 1];
    }
  }

  lemma KeepCovers(buf: string, regs: seq<Region>, rs: seq<Region>)
    requires regs != []
    requires forall k :: 0 <= k < |regs| - 1 ==> FullLine(buf, regs[1..][k]) in rs
    ensures forall k :: 0 <= k < |regs| ==> FullLine(buf, regs[k]) in [FullLine(buf, regs[0])] + rs
  {
    forall k | 0 < k < |regs| ensures FullLine(buf, regs[k]) in rs {
      assert regs[k] == regs[1..][k - 1];
    }
  }

  lemma KeepOnly(l: Region, rs: seq<Region>, ls: seq<Region>)
    requires forall j :: 0 <= j < |rs| ==> rs[j] in ls
    ensures forall j :: 0 <= j < |[l] + rs| ==> ([l] + rs)[j] in [l] + ls
  {
    forall j | 0 < j < |[l] + rs| ensures ([l] + rs)[j] in [l] + ls {
      assert ([l] + rs)[j] == rs[j - 1];
    }
  }

  /** The pairs the corrected cut erases: `CutFixed`'s pairs, with each line
      shared by neighbouring carets kept once. */
  function CutPairs(buf: string, sel: seq<Region>, copyEmpty: bool): (p: Pairs)
    ensures |p.regs| == |p.frags|
  {
    CapturedFromRegions(buf, sel, copyEmpty);
    Once(buf, CapturedRegions(sel, copyEmpty), Captured(buf, sel, copyEmpty))
  }

  /** The cut as intended: like `CutFixed`, but a line several carets share
      is erased once rather than once per caret. */
  function CutOnce(buf: string, sel: seq<Region>, copyEmpty: bool): Edited {
    var p := CutPairs(buf, sel, copyEmpty);
    CutErase(buf, sel, p.regs, p.frags)
  }

  /** Without `copy_with_empty_selection` nothing is a whole line, and the
      corrected cut is `CutFixed`. */
  lemma CutOnceAgrees(buf: string, sel: seq<Region>)
    ensures CutOnce(buf, sel, false) == CutFixed(buf, sel, false)
  {
    CapturedFromRegions(buf, sel, false);
    CapturedPlain(buf, sel);
    OnceKeeps(buf, CapturedRegions(sel, false), Captured(buf, sel, false));
  }

  /** With the setting on, a cut of carets erases the line of every caret
      once and nothing else: the buffer is the splice with those lines, in
      order and not overlapping, replaced by nothing. */
  lemma CutOnceLines(buf: string, sel: seq<Region>)
    requires Sorted(sel, |buf|) && AllCarets(sel)
    ensures var p := CutPairs(buf, sel, true);
            && LinesOnce(buf, sel, p)
            && CutOnce(buf, sel, true).buf == SpliceFrom(buf, 0, Ranges(buf, p.regs, p.frags), Empties(|p.regs|))
  {
    CarriedWhole(buf, sel);
    var frags := Captured(buf, sel, true);
    OnceLines(buf, sel, frags);
    var p := Once(buf, sel, frags);
    CutEraseRanges(buf, sel, p.regs, p.frags);
  }

  /** With the setting on, carets yield whole-line fragments of their own
      regions. */
  lemma CarriedWhole(buf: string, sel: seq<Region>)
    requires AllCarets(sel)
    ensures CapturedRegions(sel, true) == sel && |Captured(buf, sel, true)| == |sel|
    ensures AllWhole(Captured(buf, sel, true))
  {
    CapturedRegionsFacts(sel, true);
    CapturedFromRegions(buf, sel, true);
  }

  /** With the setting on and every caret on a line of its own, the cut as
      written is already right: it erases exactly the carets' lines. */
  lemma CutDistinctLines(buf: string, sel: seq<Region>)
    requires Sorted(sel, |buf|) && AllCarets(sel)
    requires forall k :: 0 <= k < |sel| - 1 ==> FullLine(buf, sel[k]) != FullLine(buf, sel[k + 1])
    ensures SortedFrom(Lines(buf, sel), 0, |buf|)
    ensures CutFixed(buf, sel, true).buf == SpliceFrom(buf, 0, Lines(buf, sel), Empties(|sel|))
  {
    DistinctKept(buf, sel);
    CutOnceLines(buf, sel);
  }

  lemma DistinctKept(buf: string, sel: seq<Region>)
    requires AllCarets(sel)
    requires forall k :: 0 <= k < |sel| - 1 ==> FullLine(buf, sel[k]) != FullLine(buf, sel[k + 1])
    ensures CutPairs(buf, sel, true) == Pairs(sel, Captured(buf, sel, true))
    ensures Ranges(buf, sel, Captured(buf, sel, true)) == Lines(buf, sel)
    ensures CutOnce(buf, sel, true) == CutFixed(buf, sel, true)
  {
    CarriedWhole(buf, sel);
    var frags := Captured(buf, sel, true);
    forall k | 0 <= k < |sel| - 1 ensures !SameLine(buf, sel[k], frags[k], sel[k + 1], frags[k + 1]) {
    }
    OnceKeeps(buf, sel, frags);
  }
}
