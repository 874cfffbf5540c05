/** The plugin's own acceptance scenarios (cut_copy_paste_tests.py), each on
    a small buffer, as facts about the model. */
module Scenarios {
  import opened Optional
  import opened Host
  import opened Text
  import opened Copy
  import opened Cut
  import opened PasteLoop
  import opened Paste
  import opened Status

  /** Scenario (1): two copied strings pasted into two carets go one to
      each, in order. */
  lemma PairwisePaste()
    ensures var store := Reconciled([Fragment("A", false), Fragment("B", false)], "A\nB");
            PasteOutcome("x-y", [Caret(1), Caret(2)], store) == Done(Pasted("xA-By", [2, 4]))
  {
    var store := [Fragment("A", false), Fragment("B", false)];
    assert Texts(store) == ["A", "B"];
    assert Join("\n", ["A", "B"]) == "A" + "\n" + "B";
    assert Reconciled(store, "A\nB") == store;
    BlocksByCase(store, 2, 0);
    BlocksByCase(store, 2, 1);
    assert Blocks(store, 2) == [[store[0]], [store[1]]];
    FirstCaret("x-y", 1, 2, store[0], store[1], "xA-y");
    LastCaret("xA-y", 3, 2, 3, store[1], "xA-By");
  }

  /** The first of two carets receiving one plain fragment. */
  lemma FirstCaret(buf: string, c1: nat, c2: nat, f1: Fragment, f2: Fragment, mid: string)
    requires c1 <= |buf| && !f1.wholeLine && mid == buf[..c1] + f1.text + buf[c1..]
    ensures PasteRegions(buf, |buf|, [Caret(c1), Caret(c2)], [[f1], [f2]])
         == Pasted(PasteRegions(mid, |buf|, [Caret(c2)], [[f2]]).buf,
                   [c1 + |f1.text|] + PasteRegions(mid, |buf|, [Caret(c2)], [[f2]]).carets)
  {
    assert Shifted(Caret(c1), 0) == Caret(c1) && Erase(buf, Caret(c1)) == buf;
    OneStep(buf, |buf|, [Caret(c1), Caret(c2)], [[f1], [f2]], f1, buf, c1, mid);
    assert [Caret(c1), Caret(c2)][1..] == [Caret(c2)] && [[f1], [f2]][1..] == [[f2]];
  }

  /** The last caret of a paste, at p once shifted, receiving one plain
      fragment. */
  lemma LastCaret(buf: string, origLen: nat, c: nat, p: nat, f: Fragment, out: string)
    requires c <= origLen <= |buf| && !f.wholeLine && p == c + (|buf| - origLen)
    requires out == buf[..p] + f.text + buf[p..]
    ensures PasteRegions(buf, origLen, [Caret(c)], [[f]]) == Pasted(out, [p + |f.text|])
  {
    assert Shifted(Caret(c), |buf| - origLen) == Caret(p) && Erase(buf, Caret(p)) == buf;
    OneStep(buf, origLen, [Caret(c)], [[f]], f, buf, p, out);
    assert [Caret(c)][1..] == [] && [[f]][1..] == [];
  }

  /** A block of one plain fragment is one insertion. */
  lemma OneFragment(buf: string, ip: nat, f: Fragment)
    requires ip <= |buf| && !f.wholeLine
    ensures InsertBlock(buf, ip, [f]) == buf[..ip] + f.text + buf[ip..]
  {
    assert [f][1..] == [];
  }

  /** Scenarios (4) and (5): two selections of the same text copy it once. */
  lemma EqualSelectionsCollapse()
    ensures Captured("aa", [Region(0, 1), Region(1, 2)], false) == [Fragment("a", false), Fragment("a", false)]
    ensures Collapse(Captured("aa", [Region(0, 1), Region(1, 2)], false)) == [Fragment("a", false)]
  {
    EqualCapture();
    var frags := [Fragment("a", false), Fragment("a", false)];
    assert AllSame(frags);
  }

  /** Two one-character selections of "aa" capture "a" twice. */
  lemma EqualCapture()
    ensures Captured("aa", [Region(0, 1), Region(1, 2)], false) == [Fragment("a", false), Fragment("a", false)]
  {
    var sel := [Region(0, 1), Region(1, 2)];
    assert sel[..1] == [Region(0, 1)] && [Region(0, 1)][..0] == [];
    assert Substr("aa", Region(0, 1)) == "a" && Substr("aa", Region(1, 2)) == "a";
    assert Captured("aa", [Region(0, 1)], false) == [Fragment("a", false)];
  }

  /** Scenario (4): one caret receives the collapsed string once. */
  lemma CollapsedIntoOne()
    ensures PasteOutcome("xy", [Caret(1)], [Fragment("a", false)]) == Done(Pasted("xay", [2]))
  {
    var store := [Fragment("a", false)];
    BlocksByCase(store, 1, 0);
    OneFragment("xy", 1, store[0]);
  }

  /** Scenario (5): two carets receive it once each. */
  lemma CollapsedIntoTwo()
    ensures PasteOutcome("xy", [Caret(1), Caret(2)], [Fragment("a", false)]) == Done(Pasted("xaya", [2, 4]))
  {
    var f := Fragment("a", false);
    TwoBlocks(f);
    FirstCaret("xy", 1, 2, f, f, "xay");
    LastCaret("xay", 2, 2, 3, f, "xaya");
  }

  /** Scenario (3): a string spanning lines goes whole into every caret. */
  lemma MultiLineBroadcast()
    ensures PasteOutcome("xy", [Caret(1), Caret(2)], [Fragment("T\nS", false)]) == Done(Pasted("xT\nSyT\nS", [4, 8]))
  {
    var f := Fragment("T\nS", false);
    TwoBlocks(f);
    FirstCaret("xy", 1, 2, f, f, "xT\nSy");
    LastCaret("xT\nSy", 2, 2, 5, f, "xT\nSyT\nS");
  }

  /** One stored string over two regions: each receives it. */
  lemma TwoBlocks(f: Fragment)
    ensures Blocks([f], 2) == [[f], [f]]
  {
    BlocksByCase([f], 2, 0);
    BlocksByCase([f], 2, 1);
  }

  /** Scenario (10): one string pasted over four one-character regions
      replaces each of them. */
  lemma FourRegions()
    ensures PasteOutcome("wxyz", [Region(0, 1), Region(1, 2), Region(2, 3), Region(3, 4)], [Fragment("ab", false)])
         == Done(Pasted("abababab", [2, 4, 6, 8]))
  {
    FourBlocks();
    Four1();
  }

  /** One stored fragment goes whole to each of four regions. */
  lemma FourBlocks()
    ensures var f := Fragment("ab", false); Blocks([f], 4) == [[f], [f], [f], [f]]
  {
    var store := [Fragment("ab", false)];
    forall i | 0 <= i < 4 ensures Blocks(store, 4)[i] == store {
      BlocksByCase(store, 4, i);
    }
  }

  /** The four regions of scenario (10), pasted one after the other. */
  lemma Four1()
    ensures var f := Fragment("ab", false);
            PasteRegions("wxyz", 4, [Region(0, 1), Region(1, 2), Region(2, 3), Region(3, 4)], [[f], [f], [f], [f]])
            == Pasted("abababab", [2, 4, 6, 8])
  {
    var f := Fragment("ab", false);
    var sel := [Region(0, 1), Region(1, 2), Region(2, 3), Region(3, 4)];
    var bs := [[f], [f], [f], [f]];
    Four2();
    Step1();
    assert Shifted(sel[0], 0) == sel[0];
    OneStep("wxyz", 4, sel, bs, f, "xyz", 0, "abxyz");
    assert sel[1..] == [Region(1, 2), Region(2, 3), Region(3, 4)] && bs[1..] == [[f], [f], [f]];
  }

  /** The last region's turn: only "z" is left to replace. */
  lemma Four4()
    ensures PasteRegions("abababz", 4, [Region(3, 4)], [[Fragment("ab", false)]]) == Pasted("abababab", [8])
  {
    var f := Fragment("ab", false);
    Step4();
    assert Shifted(Region(3, 4), 3) == Region(6, 7);
    OneStep("abababz", 4, [Region(3, 4)], [[f]], f, "ababab", 6, "abababab");
    assert [Region(3, 4)][1..] == [] && [[f]][1..] == [];
  }

  /** The last two regions' turns, once two have been replaced. */
  lemma Four3()
    ensures PasteRegions("ababyz", 4, [Region(2, 3), Region(3, 4)], [[Fragment("ab", false)], [Fragment("ab", false)]])
         == Pasted("abababab", [6, 8])
  {
    var f := Fragment("ab", false);
    Four4();
    Step3();
    assert Shifted(Region(2, 3), 2) == Region(4, 5);
    OneStep("ababyz", 4, [Region(2, 3), Region(3, 4)], [[f], [f]], f, "ababz", 4, "abababz");
    assert [Region(2, 3), Region(3, 4)][1..] == [Region(3, 4)] && [[f], [f]][1..] == [[f]];
  }

  /** The last three regions' turns, once the first has been replaced. */
  lemma Four2()
    ensures PasteRegions("abxyz", 4, [Region(1, 2), Region(2, 3), Region(3, 4)],
                         [[Fragment("ab", false)], [Fragment("ab", false)], [Fragment("ab", false)]])
         == Pasted("abababab", [4, 6, 8])
  {
    var f := Fragment("ab", false);
    Four3();
    Step2();
    assert Shifted(Region(1, 2), 1) == Region(2, 3);
    OneStep("abxyz", 4, [Region(1, 2), Region(2, 3), Region(3, 4)], [[f], [f], [f]], f, "abyz", 2, "ababyz");
    assert [Region(1, 2), Region(2, 3), Region(3, 4)][1..] == [Region(2, 3), Region(3, 4)];
    assert [[f], [f], [f]][1..] == [[f], [f]];
  }

  /** The erasures and insertions of scenario (10), one lemma per region,
      each at the region the host has slid. */
  lemma Step1()
    ensures Erase("wxyz", Region(0, 1)) == "xyz"
    ensures "xyz"[..0] + "ab" + "xyz"[0..] == "abxyz"
  {
  }

  lemma Step2()
    ensures Erase("abxyz", Region(2, 3)) == "abyz"
    ensures "abyz"[..2] + "ab" + "abyz"[2..] == "ababyz"
  {
  }

  lemma Step3()
    ensures Erase("ababyz", Region(4, 5)) == "ababz"
    ensures "ababz"[..4] + "ab" + "ababz"[4..] == "abababz"
  {
  }

  lemma Step4()
    ensures Erase("abababz", Region(6, 7)) == "ababab"
    ensures "ababab"[..6] + "ab" + "ababab"[6..] == "abababab"
  {
  }

  /** One region receiving a block of one plain fragment. */
  lemma OneStep(buf: string, origLen: nat, regs: seq<Region>, blocks: seq<seq<Fragment>>, f: Fragment,
                erased: string, ip: nat, next: string)
    requires regs != [] && |blocks| == |regs| && blocks[0] == [f] && !f.wholeLine
    requires erased == Erase(buf, Shifted(regs[0], |buf| - origLen))
    requires ip == Shifted(regs[0], |buf| - origLen).Begin() <= |erased|
    requires next == erased[..ip] + f.text + erased[ip..]
    ensures PasteRegions(buf, origLen, regs, blocks)
         == Pasted(PasteRegions(next, origLen, regs[1..], blocks[1..]).buf,
                   [ip + |f.text|] + PasteRegions(next, origLen, regs[1..], blocks[1..]).carets)
  {
    var reg := Shifted(regs[0], |buf| - origLen);
    assert Clamp(reg.Begin(), |erased|) == ip;
    OneFragment(erased, ip, f);
    assert [f][1..] == [];
    assert BlockCarets(ip, blocks[0]) == [ip + |f.text|];
  }

  /** Scenario (6): an empty selection copies its whole line, and pasting
      it puts that line above the caret's line, leaving the caret where it
      was in its own line. */
  lemma WholeLinePaste()
    ensures Captured("ab\ncd", [Caret(1)], true) == [Fragment("ab\n", true)]
    ensures PasteOutcome("ab\ncd", [Caret(4)], [Fragment("ab\n", true)]) == Done(Pasted("ab\nab\ncd", [7]))
  {
    WholeLineCapture();
    var f := Fragment("ab\n", true);
    BlocksByCase([f], 1, 0);
    WholeLineInsert();
    assert Shifted(Caret(4), 0) == Caret(4) && Erase("ab\ncd", Caret(4)) == "ab\ncd";
    assert [f][1..] == [] && [Caret(4)][1..] == [] && [[f]][1..] == [];
  }

  /** An empty selection in "ab\ncd" captures its line with the newline. */
  lemma WholeLineCapture()
    ensures Captured("ab\ncd", [Caret(1)], true) == [Fragment("ab\n", true)]
  {
    assert LineEnd("ab\ncd", 1) == 2;
    assert LineBegin("ab\ncd", 1) == 0;
    assert Substr("ab\ncd", Region(0, 3)) == "ab\n";
  }

  /** The whole line goes in at the start of the caret's line. */
  lemma WholeLineInsert()
    ensures InsertBlock("ab\ncd", 4, [Fragment("ab\n", true)]) == "ab\nab\ncd"
    ensures BlockCarets(4, [Fragment("ab\n", true)]) == [7]
  {
    var f := Fragment("ab\n", true);
    assert LineBegin("ab\ncd", 4) == 3;
    assert Insert("ab\ncd", 3, "ab\n") == "ab\nab\ncd";
    assert [f][1..] == [];
  }

  /** A paste with neither a store nor a clipboard divides by zero; with no
      selection region it does nothing. */
  lemma DegeneratePastes()
    ensures PasteOutcome("xy", [Caret(0)], Reconciled([], "")) == DivisionByZero
    ensures PasteOutcome("xy", [], [Fragment("a", false)]) == NoRegions
  {
    assert Texts([]) == [];
  }

  /** The first finding: a copy with only empty regions and the setting off
      captures nothing, and the collapse as written fails on it. */
  lemma EmptyCaptureFails()
    ensures Captured("ab", [Caret(0), Caret(2)], false) == []
    ensures CollapseAsWritten(Captured("ab", [Caret(0), Caret(2)], false)) == None
    ensures Collapse(Captured("ab", [Caret(0), Caret(2)], false)) == []
  {
    assert [Caret(0), Caret(2)][..1] == [Caret(0)];
  }

  /** The second finding: with the setting off, an empty region before a
      non-empty one shifts the pairing, so the cut as written erases the
      empty region in place of "b" and leaves the buffer unchanged; the
      corrected pairing erases "b". */
  lemma CutMisaligned()
    ensures Captured("ab", [Caret(0), Region(1, 2)], false) == [Fragment("b", false)]
    ensures CutAsWritten("ab", [Caret(0), Region(1, 2)], Captured("ab", [Caret(0), Region(1, 2)], false)).buf == "ab"
    ensures CutFixed("ab", [Caret(0), Region(1, 2)], false).buf == "a"
  {
    var sel := [Caret(0), Region(1, 2)];
    var frags := [Fragment("b", false)];
    MisalignedCapture();
    assert sel[..1] == [Caret(0)] && frags[..1] == frags;
    OneErase("ab", sel, Caret(0), frags[0]);
    assert Erase("ab", Caret(0)) == "ab";
    OneErase("ab", sel, Region(1, 2), frags[0]);
    assert Erase("ab", Region(1, 2)) == "a";
  }

  /** With the setting off only the non-empty region is captured. */
  lemma MisalignedCapture()
    ensures CapturedRegions([Caret(0), Region(1, 2)], false) == [Region(1, 2)]
    ensures Captured("ab", [Caret(0), Region(1, 2)], false) == [Fragment("b", false)]
  {
    var sel := [Caret(0), Region(1, 2)];
    assert sel[..1] == [Caret(0)] && [Caret(0)][..0] == [];
    assert Captured("ab", [Caret(0)], false) == [];
    assert Substr("ab", Region(1, 2)) == "b";
  }

  /** The third finding: with the setting on, two carets on the first line
      of "ab\ncd\n" capture that line twice, and the store keeps it once.
      The cut as written erases it for the second caret, then looks the
      first caret's line up again in the shortened buffer and erases "cd\n"
      too; the corrected cut erases "ab\n" once. */
  lemma CutSameLine()
    ensures Captured("ab\ncd\n", [Caret(0), Caret(1)], true) == [Fragment("ab\n", true), Fragment("ab\n", true)]
    ensures Collapse(Captured("ab\ncd\n", [Caret(0), Caret(1)], true)) == [Fragment("ab\n", true)]
    ensures CutAsWritten("ab\ncd\n", [Caret(0), Caret(1)], Captured("ab\ncd\n", [Caret(0), Caret(1)], true)).buf == ""
    ensures CutOnce("ab\ncd\n", [Caret(0), Caret(1)], true).buf == "cd\n"
  {
    var buf, sel := "ab\ncd\n", [Caret(0), Caret(1)];
    var f := Fragment("ab\n", true);
    SameLineCapture();
    assert AllSame([f, f]);
    SameLineAsWritten();
    SameLineOnce();
  }

  /** Both carets yield the first line, captured as a whole line. */
  lemma SameLineCapture()
    ensures FullLine("ab\ncd\n", Caret(0)) == Region(0, 3) && FullLine("ab\ncd\n", Caret(1)) == Region(0, 3)
    ensures Captured("ab\ncd\n", [Caret(0), Caret(1)], true) == [Fragment("ab\n", true), Fragment("ab\n", true)]
  {
    var buf := "ab\ncd\n";
    FirstLine();
    FirstLineText();
    assert [Caret(0), Caret(1)][..1] == [Caret(0)];
  }

  lemma FirstLineText()
    ensures Substr("ab\ncd\n", Region(0, 3)) == "ab\n"
  {
  }

  /** Erasing the first line leaves "cd\n", which is one full line. */
  lemma FirstLineErased()
    ensures Erase("ab\ncd\n", Region(0, 3)) == "cd\n"
    ensures FullLine("cd\n", Caret(0)) == Region(0, 3)
  {
    assert LineEnd("cd\n", 2) == 2;
    assert LineEnd("cd\n", 1) == 2;
  }

  lemma LastLineErased()
    ensures Erase("cd\n", Region(0, 3)) == ""
  {
  }

  /** The first line of "ab\ncd\n" runs from 0 to the '\n' at 2. */
  lemma FirstLine()
    ensures FullLine("ab\ncd\n", Caret(0)) == Region(0, 3) && FullLine("ab\ncd\n", Caret(1)) == Region(0, 3)
  {
    var buf := "ab\ncd\n";
    assert LineEnd(buf, 2) == 2;
    assert LineEnd(buf, 1) == 2;
    assert LineEnd(buf, 0) == 2;
    assert LineBegin(buf, 1) == 0;
  }

  /** The erase loop as written: "ab\n" goes for the second caret, and the
      first caret's line is then "cd\n". */
  lemma SameLineAsWritten()
    ensures FullLine("ab\ncd\n", Caret(1)) == Region(0, 3)
    ensures CutAsWritten("ab\ncd\n", [Caret(0), Caret(1)], [Fragment("ab\n", true), Fragment("ab\n", true)]).buf == ""
  {
    var buf, sel := "ab\ncd\n", [Caret(0), Caret(1)];
    var f := Fragment("ab\n", true);
    SameLineCapture();
    assert sel[..2] == sel && [f, f][..2] == [f, f];
    TwoErase(buf, sel, Caret(0), Caret(1), f, f);
    FirstLineErased();
    OneWholeErase("cd\n", AdjustAfterErase(sel, buf, Region(0, 3)), Caret(0), f);
    LastLineErased();
  }

  /** The corrected cut keeps one of the two pairs and erases "ab\n". */
  lemma SameLineOnce()
    ensures CutOnce("ab\ncd\n", [Caret(0), Caret(1)], true).buf == "cd\n"
  {
    var buf, sel := "ab\ncd\n", [Caret(0), Caret(1)];
    var f := Fragment("ab\n", true);
    SameLinePairs();
    OneWholeErase(buf, sel, Caret(1), f);
    FirstLine();
    FirstLineErased();
  }

  /** Of the two pairs sharing the line, the corrected cut keeps the last. */
  lemma SameLinePairs()
    ensures CutPairs("ab\ncd\n", [Caret(0), Caret(1)], true) == Pairs([Caret(1)], [Fragment("ab\n", true)])
  {
    var buf, sel := "ab\ncd\n", [Caret(0), Caret(1)];
    var f := Fragment("ab\n", true);
    SameLineCapture();
    CapturedRegionsFacts(sel, true);
    assert SameLine(buf, Caret(0), f, Caret(1), f);
    assert sel[1..] == [Caret(1)] && [f, f][1..] == [f];
  }

  /** Two pairs: the second is erased first. */
  lemma TwoErase(buf: string, sel: seq<Region>, r1: Region, r2: Region, f1: Fragment, f2: Fragment)
    ensures CutErase(buf, sel, [r1, r2], [f1, f2])
         == CutErase(Erase(buf, EraseRange(buf, r2, f2)), AdjustAfterErase(sel, buf, EraseRange(buf, r2, f2)), [r1], [f1])
  {
    assert [r1, r2][..1] == [r1] && [f1, f2][..1] == [f1];
  }

  /** Erasing one whole-line pair takes out the region's full line. */
  lemma OneWholeErase(buf: string, sel: seq<Region>, r: Region, f: Fragment)
    requires f.wholeLine
    ensures CutErase(buf, sel, [r], [f]).buf == Erase(buf, FullLine(buf, r))
  {
    assert [r][..0] == [] && [f][..0] == [];
  }

  /** Scenario (2): "A" and "B" selected in "A-B" are cut, pasted back into
      the carets the cut leaves, and pasted again: each region's text comes
      back, then doubles ("AA-BB"). */
  lemma CutPasteTwice()
    ensures var store := Collapse(Captured("A-B", [Region(0, 1), Region(2, 3)], false));
            && store == [Fragment("A", false), Fragment("B", false)]
            && Reconciled(store, Join(LineEndingString(Unix), Texts(store))) == store
            && CutOnce("A-B", [Region(0, 1), Region(2, 3)], false) == Edited("-", [Caret(0), Caret(1)])
            && PasteOutcome("-", [Caret(0), Caret(1)], store) == Done(Pasted("A-B", [1, 3]))
            && PasteOutcome("A-B", Carets([1, 3]), store) == Done(Pasted("AA-BB", [2, 5]))
  {
    CaptureAB();
    CutAB();
    PasteAB();
  }

  /** Both regions are captured; the store keeps them apart, and the Unix
      clipboard text the cut builds gives them back. */
  lemma CaptureAB()
    ensures Captured("A-B", [Region(0, 1), Region(2, 3)], false) == [Fragment("A", false), Fragment("B", false)]
    ensures var store := [Fragment("A", false), Fragment("B", false)];
            Collapse(store) == store && Reconciled(store, Join(LineEndingString(Unix), Texts(store))) == store
  {
    var sel := [Region(0, 1), Region(2, 3)];
    var store := [Fragment("A", false), Fragment("B", false)];
    assert sel[..1] == [Region(0, 1)] && [Region(0, 1)][..0] == [];
    assert Substr("A-B", Region(0, 1)) == "A" && Substr("A-B", Region(2, 3)) == "B";
    assert store[0].text[0] != store[1].text[0];
    assert !AllSame(store);
    assert Texts(store) == ["A", "B"];
    assert Join("\n", ["A", "B"]) == "A" + "\n" + "B";
  }

  /** The cut of scenario (2) leaves a caret where each region was. */
  lemma CutAB()
    ensures CutOnce("A-B", [Region(0, 1), Region(2, 3)], false) == Edited("-", [Caret(0), Caret(1)])
  {
    var sel := [Region(0, 1), Region(2, 3)];
    CaptureAB();
    CapturedRegionsAllNonEmpty(sel, false);
    CutOnceAgrees("A-B", sel);
    EraseAB();
  }

  lemma EraseAB()
    ensures var sel := [Region(0, 1), Region(2, 3)];
            CutErase("A-B", sel, sel, [Fragment("A", false), Fragment("B", false)]) == Edited("-", [Caret(0), Caret(1)])
  {
    var sel := [Region(0, 1), Region(2, 3)];
    var frags := [Fragment("A", false), Fragment("B", false)];
    TwoErase("A-B", sel, Region(0, 1), Region(2, 3), frags[0], frags[1]);
    AdjustAB();
    assert Erase("A-B", Region(2, 3)) == "A-";
    assert [Region(0, 1)][..0] == [] && [frags[0]][..0] == [];
    assert Erase("A-", Region(0, 1)) == "-";
  }

  lemma AdjustAB()
    ensures AdjustAfterErase([Region(0, 1), Region(2, 3)], "A-B", Region(2, 3)) == [Region(0, 1), Caret(2)]
    ensures AdjustAfterErase([Region(0, 1), Caret(2)], "A-", Region(0, 1)) == [Caret(0), Caret(1)]
  {
  }

  /** The two pastes of scenario (2). */
  lemma PasteAB()
    ensures var store := [Fragment("A", false), Fragment("B", false)];
            && PasteOutcome("-", [Caret(0), Caret(1)], store) == Done(Pasted("A-B", [1, 3]))
            && PasteOutcome("A-B", Carets([1, 3]), store) == Done(Pasted("AA-BB", [2, 5]))
  {
    PasteBackAB();
    PasteAgainAB();
    assert Carets([1, 3]) == [Caret(1), Caret(3)];
  }

  /** Two fragments over two regions: one each, in order. */
  lemma BlocksAB()
    ensures var store := [Fragment("A", false), Fragment("B", false)];
            Blocks(store, 2) == [[store[0]], [store[1]]]
  {
    var store := [Fragment("A", false), Fragment("B", false)];
    BlocksByCase(store, 2, 0);
    BlocksByCase(store, 2, 1);
  }

  lemma PasteBackAB()
    ensures PasteOutcome("-", [Caret(0), Caret(1)], [Fragment("A", false), Fragment("B", false)]) == Done(Pasted("A-B", [1, 3]))
  {
    BlocksAB();
    BackFirst();
    BackLast();
  }

  lemma BackFirst()
    ensures var rest := PasteRegions("A-", 1, [Caret(1)], [[Fragment("B", false)]]);
            PasteRegions("-", 1, [Caret(0), Caret(1)], [[Fragment("A", false)], [Fragment("B", false)]])
            == Pasted(rest.buf, [1] + rest.carets)
  {
    FirstCaret("-", 0, 1, Fragment("A", false), Fragment("B", false), "A-");
  }

  lemma BackLast()
    ensures PasteRegions("A-", 1, [Caret(1)], [[Fragment("B", false)]]) == Pasted("A-B", [3])
  {
    LastCaret("A-", 1, 1, 2, Fragment("B", false), "A-B");
  }

  lemma PasteAgainAB()
    ensures PasteOutcome("A-B", [Caret(1), Caret(3)], [Fragment("A", false), Fragment("B", false)]) == Done(Pasted("AA-BB", [2, 5]))
  {
    BlocksAB();
    AgainFirst();
    AgainLast();
  }

  lemma AgainFirst()
    ensures var rest := PasteRegions("AA-B", 3, [Caret(3)], [[Fragment("B", false)]]);
            PasteRegions("A-B", 3, [Caret(1), Caret(3)], [[Fragment("A", false)], [Fragment("B", false)]])
            == Pasted(rest.buf, [2] + rest.carets)
  {
    assert "A-B"[..1] == "A" && "A-B"[1..] == "-B";
    FirstCaret("A-B", 1, 3, Fragment("A", false), Fragment("B", false), "AA-B");
  }

  lemma AgainLast()
    ensures PasteRegions("AA-B", 3, [Caret(3)], [[Fragment("B", false)]]) == Pasted("AA-BB", [5])
  {
    LastCaret("AA-B", 3, 3, 4, Fragment("B", false), "AA-BB");
  }

  /** Erasing one plain pair takes out just that region. */
  lemma OneErase(buf: string, sel: seq<Region>, r: Region, f: Fragment)
    requires !f.wholeLine
    ensures CutErase(buf, sel, [r], [f]).buf == Erase(buf, r)
  {
    assert [r][..0] == [] && [f][..0] == [];
  }

  /** The status line after copying "ab" and "c" from two regions: "Copied 3
      characters over 2 selection regions", written as the pieces the message
      is assembled from. */
  lemma CopiedMessage()
    ensures StatusMessage("Copied", [Fragment("ab", false), Fragment("c", false)], 0)
         == "Copied" + " " + "3" + (" character" + "s" + (" over " + "2" + " selection regions"))
  {
    var store := [Fragment("ab", false), Fragment("c", false)];
    assert store[1..][1..] == [];
    assert NumChars(store) == 3;
    assert Decimal(3) == "3";
    assert Decimal(2) == "2";
  }
}
