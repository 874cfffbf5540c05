/** Cutting a selection and pasting straight back into the carets the cut
    leaves restores the buffer: the behaviour a user relies on when a cut is
    undone by a paste. Stated for a selection of non-empty regions, with the
    clipboard the cut builds. */
module RoundTrip {
  import opened Host
  import opened Text
  import opened Copy
  import opened Splice
  import opened Cut
  import opened PasteLoop
  import opened Paste

  /** When the cut's clipboard text is the stored texts joined by "\n" (Unix
      line endings, or a store collapsed to one fragment), the paste keeps
      the store. */
  lemma {:induction false} ClipboardKeepsStore(frags: seq<Fragment>, e: LineEnding)
    requires frags != []
    requires e == Unix || AllSame(frags)
    ensures Reconciled(Collapse(frags), Join(LineEndingString(e), Texts(Collapse(frags)))) == Collapse(frags)
  {
    var store := Collapse(frags);
    if e != Unix {
      assert |store| == 1;
      assert Texts(store) == [store[0].text];
    }
  }

  /** The cut leaves the buffer without the regions and a caret where each
      region was. */
  lemma {:induction false} CutShape(buf: string, sel: seq<Region>)
    requires Sorted(sel, |buf|)
    requires forall k :: 0 <= k < |sel| ==> sel[k].Size() > 0
    ensures CutOnce(buf, sel, false) == Edited(SpliceFrom(buf, 0, sel, Empties(|sel|)), CutCarets(sel))
  {
    CutOnceAgrees(buf, sel);
    CapturedRegionsAllNonEmpty(sel, false);
    CapturedFromRegions(buf, sel, false);
    CapturedPlain(buf, sel);
    CutFixedPlain(buf, sel);
    CutEraseSelection(buf, sel, Captured(buf, sel, false));
  }

  /** Each region receives back the text that was cut from it. */
  lemma {:induction false} BlocksGiveBack(buf: string, sel: seq<Region>)
    requires sel != []
    requires forall k :: 0 <= k < |sel| ==> sel[k].Size() > 0
    ensures BlockTexts(Blocks(Collapse(Captured(buf, sel, false)), |sel|)) == RegionTexts(buf, sel)
  {
    var frags := Captured(buf, sel, false);
    CapturedRegionsAllNonEmpty(sel, false);
    CapturedFromRegions(buf, sel, false);
    var store := Collapse(frags);
    var m := |sel|;
    var n := |store|;
    assert n == 1 || n == m;
    assert n <= m && m % n == 0;
    var ts := BlockTexts(Blocks(store, m));
    forall i | 0 <= i < m
      ensures ts[i] == RegionTexts(buf, sel)[i]
    {
      BlockGivesBack(buf, sel, frags, i);
    }
  }

  /** The block for region `i` is that region's own fragment. */
  lemma BlockGivesBack(buf: string, sel: seq<Region>, frags: seq<Fragment>, i: nat)
    requires i < |sel| == |frags|
    requires frags == Captured(buf, sel, false)
    requires forall k :: 0 <= k < |sel| ==> frags[k] == FragmentOf(buf, sel[k])
    requires sel[i].Size() > 0
    ensures BlockText(Blocks(Collapse(frags), |sel|)[i]) == Substr(buf, sel[i])
  {
    var store := Collapse(frags);
    BlocksByCase(store, |sel|, i);
    CollapseAt(frags, i);
    var f := store[i % |store|];
    assert Blocks(store, |sel|)[i] == [f];
    BlockTextOne(f);
  }

  /** Without the setting, the collapsed store holds no whole line. */
  lemma StorePlain(buf: string, sel: seq<Region>)
    requires sel != []
    ensures forall k :: 0 <= k < |Collapse(Captured(buf, sel, false))| ==> !Collapse(Captured(buf, sel, false))[k].wholeLine
  {
    var frags := Captured(buf, sel, false);
    CapturedPlain(buf, sel);
    forall k | 0 <= k < |Collapse(frags)| ensures !Collapse(frags)[k].wholeLine {
      if |Collapse(frags)| == 1 {
        CollapseAt(frags, 0);
      }
    }
  }

  lemma BlockTextOne(f: Fragment)
    ensures BlockText([f]) == f.text
  {
    assert Texts([f]) == [f.text];
    assert [f.text][1..] == [];
    assert Concat([f.text]) == f.text + Concat([]);
    assert f.text + "" == f.text;
  }

  /** Cut, then paste into the carets the cut left: the buffer is back to
      what it was, and the new selection has a caret after each region's
      text. */
  lemma {:induction false} CutThenPaste(buf: string, sel: seq<Region>, e: LineEnding)
    requires Sorted(sel, |buf|) && sel != []
    requires forall k :: 0 <= k < |sel| ==> sel[k].Size() > 0
    requires e == Unix || AllSame(Captured(buf, sel, false))
    ensures var frags := Captured(buf, sel, false);
            var store := Reconciled(Collapse(frags), Join(LineEndingString(e), Texts(Collapse(frags))));
            var cut := CutOnce(buf, sel, false);
            var outcome := PasteOutcome(cut.buf, cut.sel, store);
            outcome.Done? && outcome.result.buf == buf && |outcome.result.carets| == |sel|
  {
    var frags := Captured(buf, sel, false);
    CapturedRegionsAllNonEmpty(sel, false);
    CapturedFromRegions(buf, sel, false);
    CapturedPlain(buf, sel);
    ClipboardKeepsStore(frags, e);
    var store := Collapse(frags);
    CutShape(buf, sel);
    var cut := CutOnce(buf, sel, false);
    SpliceIntoCutCarets(buf, sel, RegionTexts(buf, sel));
    assert Sorted(cut.sel, |cut.buf|);
    StorePlain(buf, sel);
    PastePlain(cut.buf, cut.sel, store);
    PasteCarets(cut.buf, cut.sel, store);
    BlocksGiveBack(buf, sel);
    SpliceIdentity(buf, 0, sel);
    assert buf[0..] == buf;
    assert StrsPerSel(|store|, |sel|) == 1;
  }
}
