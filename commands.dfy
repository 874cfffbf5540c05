/** The plugin's commands as they run against an editor view
    (copy_edit.py:25-101). `Session` holds the state the plugin shares
    across views: the stored fragments (`selection_strings`,
    copy_edit.py:3), the system clipboard, and the status messages shown
    so far. Each command is proved against the functions of the `Copy`,
    `Cut` and `Paste` modules. */
module Commands {
  import opened Host
  import opened Text
  import opened Optional
  import opened Copy
  import opened Status
  import opened Cut
  import opened PasteLoop
  import opened Paste

  class Session {
    /** `selection_strings`: the fragments of the last copy. */
    var store: seq<Fragment>
    /** The system clipboard, which other programs may also write. */
    var clipboard: string
    /** Every message passed to `sublime.status_message`, oldest first. */
    var messages: seq<string>

    constructor (clip: string)
      ensures store == [] && clipboard == clip && messages == []
    {
      store := [];
      clipboard := clip;
      messages := [];
    }

    /** `CopyEditCommand.copy` (copy_edit.py:26-48): captures one fragment
        per region, and on a non-empty capture stores it, collapsed, and puts
        the stored texts on the clipboard joined by the view's line ending.
        The uncollapsed capture is returned; `None` stands for `False`. */
    method Copy(view: View) returns (actual: Option<seq<Fragment>>)
      modifies this`store, this`clipboard
      ensures var frags := Captured(view.buffer, view.sel, view.copyWithEmptySelection);
              if frags == [] then
                actual == None && store == old(store) && clipboard == old(clipboard)
              else
                && actual == Some(frags)
                && store == Collapse(frags)
                && clipboard == Join(LineEndingString(view.lineEndings), Texts(store))
    {
      var copyEmpty := view.copyWithEmptySelection;
      var newSelStrings: seq<Fragment> := [];
      var i := 0;
      while i < |view.sel|
        invariant 0 <= i <= |view.sel|
        invariant newSelStrings == Captured(view.buffer, view.sel[..i], copyEmpty)
      {
        var s := view.sel[i];
        if s.Size() > 0 {
          newSelStrings := newSelStrings + [Fragment(Substr(view.buffer, s), false)];
        } else if copyEmpty {
          newSelStrings := newSelStrings + [Fragment(Substr(view.buffer, FullLine(view.buffer, s)), true)];
        }
        assert view.sel[..i + 1][..i] == view.sel[..i];
        i := i + 1;
      }
      assert view.sel[..i] == view.sel;
      var actualSelectionStrings := newSelStrings;
      newSelStrings := Collapse(newSelStrings);
      if |newSelStrings| > 0 {
        store := newSelStrings;
        clipboard := Join(LineEndingString(view.lineEndings), Texts(store));
        return Some(actualSelectionStrings);
      }
      return None;
    }

    /** `CopyEditCommand.run` (copy_edit.py:50-52): a copy, reported in the
        status bar when something was captured. */
    method RunCopy(view: View)
      modifies this
      ensures var frags := Captured(view.buffer, view.sel, view.copyWithEmptySelection);
              if frags == [] then
                store == old(store) && clipboard == old(clipboard) && messages == old(messages)
              else
                && store == Collapse(frags)
                && clipboard == Join(LineEndingString(view.lineEndings), Texts(store))
                && messages == old(messages) + [StatusMessage("Copied", store, 0)]
    {
      var copied := Copy(view);
      if copied.Some? {
        messages := messages + [StatusMessage("Copied", store, 0)];
      }
    }

    /** `CutEditCommand.run` (copy_edit.py:54-60): a copy, then each captured
        region is erased, last one first, widened to its full line when its
        fragment is a whole line. Each fragment is paired with the region it
        came from (see `Cut.CutFixed` for why this differs from zipping the
        whole selection), and a line several carets share is erased once
        (see `Cut.CutOnce`). */
    method RunCut(view: View)
      modifies this, view`buffer, view`sel
      ensures Captured(old(view.buffer), old(view.sel), view.copyWithEmptySelection) == [] ==>
                && store == old(store) && clipboard == old(clipboard) && messages == old(messages)
                && view.buffer == old(view.buffer) && view.sel == old(view.sel)
      ensures Captured(old(view.buffer), old(view.sel), view.copyWithEmptySelection) != [] ==>
                && store == Collapse(Captured(old(view.buffer), old(view.sel), view.copyWithEmptySelection))
                && clipboard == Join(LineEndingString(view.lineEndings), Texts(store))
                && messages == old(messages) + [StatusMessage("Cut", store, 0)]
                && Edited(view.buffer, view.sel) == CutOnce(old(view.buffer), old(view.sel), view.copyWithEmptySelection)
      ensures old(view.Valid()) ==> view.Valid()
    {
      var actual := Copy(view);
      if actual.Some? {
        messages := messages + [StatusMessage("Cut", store, 0)];
        var frags := actual.value;
        var regs := CapturedRegions(view.sel, view.copyWithEmptySelection);
        CapturedFromRegions(view.buffer, view.sel, view.copyWithEmptySelection);
        var pairs := Once(view.buffer, regs, frags);
        if view.Valid() {
          CutEraseSorted(view.buffer, view.sel, pairs.regs, pairs.frags);
        }
        EraseBackwards(view, pairs.regs, pairs.frags);
      }
    }

    /** `PasteEditCommand.run` (copy_edit.py:62-101). The store is first
        reconciled with the clipboard; without selection regions nothing
        else happens, and an empty store would divide by zero at
        copy_edit.py:78. Otherwise every region receives its block of
        fragments, the status bar reports the paste, and the selection
        becomes one caret after each pasted fragment. */
    method RunPaste(view: View) returns (outcome: Outcome)
      modifies this`store, this`messages, view`buffer, view`sel
      ensures store == Reconciled(old(store), clipboard)
      ensures outcome == PasteOutcome(old(view.buffer), old(view.sel), store)
      ensures outcome.Done? ==>
                && view.buffer == outcome.result.buf
                && view.sel == Carets(outcome.result.carets)
                && messages == old(messages) + [StatusMessage("Pasted", store, |old(view.sel)|)]
      ensures !outcome.Done? ==>
                view.buffer == old(view.buffer) && view.sel == old(view.sel) && messages == old(messages)
      ensures old(view.Valid()) ==> view.Valid()
    {
      var pasteboard := clipboard;
      if pasteboard != Join("\n", Texts(store)) {
        store := [Fragment(pasteboard, false)];
      }
      var numstrings := |store|;
      var numsels := |view.sel|;
      if numsels == 0 {
        return NoRegions;
      }
      if numstrings == 0 {
        return DivisionByZero;
      }
      var strsPerSel;
      if numstrings <= numsels && numsels % numstrings == 0 {
        strsPerSel := 1;
      } else if numsels < numstrings && numstrings % numsels == 0 {
        strsPerSel := numstrings / numsels;
      } else {
        strsPerSel := numstrings;
      }
      assert strsPerSel == StrsPerSel(numstrings, numsels);
      if view.Valid() {
        PasteCarets(view.buffer, view.sel, store);
      }
      var newSels := PasteBlocks(view, store, strsPerSel, Blocks(store, numsels));
      messages := messages + [StatusMessage("Pasted", store, |view.sel|)];
      outcome := Done(Pasted(view.buffer, newSels));
      view.sel := Carets(newSels);
    }
  }

  /** copy_edit.py:59-60: the pairs are erased from the last to the first,
      each range widened to its full line for a whole-line fragment; the host
      moves the selection after each erase. */
  method EraseBackwards(view: View, regs: seq<Region>, frags: seq<Fragment>)
    requires |regs| == |frags|
    modifies view`buffer, view`sel
    ensures Edited(view.buffer, view.sel) == CutErase(old(view.buffer), old(view.sel), regs, frags)
  {
    ghost var target := CutErase(view.buffer, view.sel, regs, frags);
    var k := |regs|;
    TakeAll(regs);
    TakeAll(frags);
    while k > 0
      invariant 0 <= k <= |regs|
      invariant CutErase(view.buffer, view.sel, regs[..k], frags[..k]) == target
    {
      var range := EraseRange(view.buffer, regs[k - 1], frags[k - 1]);
      CutEraseLast(view.buffer, view.sel, regs, frags, k);
      view.sel := AdjustAfterErase(view.sel, view.buffer, range);
      view.buffer := Erase(view.buffer, range);
      k := k - 1;
    }
  }

  /** The region loop of copy_edit.py:85-95. The host slides each region by
      the net change in length that the edits before it made; here the
      regions are a snapshot of the selection, slid by that running offset.
      Each region is erased, then its block of `per` fragments from
      `str_index` on goes in, whole-line fragments at the start of the
      insertion point's line, and a caret is recorded after each one. */
  method PasteBlocks(view: View, store: seq<Fragment>, per: nat, ghost blocks: seq<seq<Fragment>>) returns (newSels: seq<nat>)
    requires 0 < per <= |store| && |store| % per == 0 && |blocks| == |view.sel|
    requires forall i {:trigger BlockAt(store, per, i)} :: 0 <= i < |blocks| ==> blocks[i] == BlockAt(store, per, i)
    modifies view`buffer
    ensures Pasted(view.buffer, newSels) == PasteRegions(old(view.buffer), |old(view.buffer)|, view.sel, blocks)
  {
    var regs := view.sel;
    var origLen := |view.buffer|;
    ghost var target := PasteRegions(view.buffer, origLen, regs, blocks);
    ghost var rest := target;
    var strIndex := 0;
    newSels := [];
    var i := 0;
    assert regs[0..] == regs && blocks[0..] == blocks;
    while i < |regs|
      invariant 0 <= i <= |regs|
      invariant strIndex == IndexAfter(per, |store|, i)
      invariant rest == PasteRegions(view.buffer, origLen, regs[i..], blocks[i..])
      invariant target == Pasted(rest.buf, newSels + rest.carets)
    {
      var sel := Shifted(regs[i], |view.buffer| - origLen);
      BlockOfIndex(store, per, blocks, i, strIndex);
      var block := store[strIndex..strIndex + per];
      var carets := PasteRegion(view, origLen, sel, block, regs, blocks, i);
      ghost var next := PasteRegions(view.buffer, origLen, regs[i + 1..], blocks[i + 1..]);
      AppendAssoc(newSels, carets, next.carets);
      newSels := newSels + carets;
      rest := next;
      strIndex := Next(strIndex, per, |store|);
      i := i + 1;
    }
    assert regs[i..] == [] && blocks[i..] == [];
  }

  /** One turn of the region loop (copy_edit.py:88-94): the region is erased
      and the block goes in from where it started. */
  method PasteRegion(view: View, origLen: nat, sel: Region, block: seq<Fragment>,
                     ghost regs: seq<Region>, ghost blocks: seq<seq<Fragment>>, ghost i: nat) returns (carets: seq<nat>)
    requires i < |regs| == |blocks| && sel == Shifted(regs[i], |view.buffer| - origLen) && block == blocks[i]
    modifies view`buffer
    ensures var rest := PasteRegions(view.buffer, origLen, regs[i + 1..], blocks[i + 1..]);
            PasteRegions(old(view.buffer), origLen, regs[i..], blocks[i..]) == Pasted(rest.buf, carets + rest.carets)
  {
    ghost var before := view.buffer;
    view.buffer := Erase(view.buffer, sel);
    var insertionPoint := Clamp(sel.Begin(), |view.buffer|);
    carets := InsertFragments(view, insertionPoint, block);
    PasteRegionsStep(before, view.buffer, carets, origLen, regs, blocks, i, sel);
  }

  /** The fragment loop of copy_edit.py:90-94 for one region: each fragment
      goes in at the insertion point, or at the start of its line when it is
      a whole line, the insertion point advances by the fragment's length,
      and a caret is recorded there. */
  method InsertFragments(view: View, ip: nat, block: seq<Fragment>) returns (carets: seq<nat>)
    requires ip <= |view.buffer|
    modifies view`buffer
    ensures view.buffer == InsertBlock(old(view.buffer), ip, block)
    ensures carets == BlockCarets(ip, block)
  {
    var insertionPoint: nat := ip;
    carets := [];
    var j := 0;
    assert block[0..] == block;
    while j < |block|
      invariant 0 <= j <= |block|
      invariant insertionPoint <= |view.buffer|
      invariant InsertBlock(view.buffer, insertionPoint, block[j..]) == InsertBlock(old(view.buffer), ip, block)
      invariant carets + BlockCarets(insertionPoint, block[j..]) == BlockCarets(ip, block)
    {
      ghost var buf0, ip0, carets0 := view.buffer, insertionPoint, carets;
      var f := block[j];
      var at := if f.wholeLine then LineBegin(view.buffer, insertionPoint) else insertionPoint;
      view.buffer := Insert(view.buffer, at, f.text);
      insertionPoint := insertionPoint + |f.text|;
      carets := carets + [insertionPoint];
      InsertBlockStep(buf0, ip0, block, j, at, view.buffer, insertionPoint);
      BlockCaretsStep(carets0, ip0, block, j, carets, insertionPoint);
      j := j + 1;
    }
    assert block[j..] == [];
  }

  /** The slice the loop takes at the index it has reached is region i's block. */
  lemma BlockOfIndex(store: seq<Fragment>, per: nat, blocks: seq<seq<Fragment>>, i: nat, s: nat)
    requires 0 < per <= |store| && |store| % per == 0 && i < |blocks|
    requires forall k {:trigger BlockAt(store, per, k)} :: 0 <= k < |blocks| ==> blocks[k] == BlockAt(store, per, k)
    requires s == IndexAfter(per, |store|, i)
    ensures s + per <= |store| && store[s..s + per] == blocks[i]
  {
    assert blocks[i] == BlockAt(store, per, i);
  }

  lemma AppendAssoc<T>(x: seq<T>, y: seq<T>, z: seq<T>)
    ensures x + (y + z) == x + y + z
  {
  }

  /** One fragment of a block: it goes in, and the rest of the block follows
      from the advanced insertion point. */
  lemma {:induction false} InsertBlockStep(buf: string, ip: nat, block: seq<Fragment>, j: nat, at: nat,
                                           next: string, nextIp: nat)
    requires ip <= |buf| && j < |block|
    requires at == if block[j].wholeLine then LineBegin(buf, ip) else ip
    requires next == Insert(buf, at, block[j].text) && nextIp == ip + |block[j].text|
    ensures nextIp <= |next|
    ensures InsertBlock(next, nextIp, block[j + 1..]) == InsertBlock(buf, ip, block[j..])
  {
    assert block[j..][0] == block[j] && block[j..][1..] == block[j + 1..];
  }

  /** The caret the loop records for fragment j is the first of the carets
      still owed. */
  lemma {:induction false} BlockCaretsStep(carets: seq<nat>, ip: nat, block: seq<Fragment>, j: nat,
                                           next: seq<nat>, nextIp: nat)
    requires j < |block| && nextIp == ip + |block[j].text| && next == carets + [nextIp]
    ensures next + BlockCarets(nextIp, block[j + 1..]) == carets + BlockCarets(ip, block[j..])
  {
    assert block[j..][0] == block[j] && block[j..][1..] == block[j + 1..];
    AppendAssoc(carets, [nextIp], BlockCarets(nextIp, block[j + 1..]));
  }

  /** One region of the region loop: the paste of regions i onwards is this
      region's turn followed by the paste of the rest. */
  lemma {:induction false} PasteRegionsStep(before: string, after: string, carets: seq<nat>, origLen: nat,
                                            regs: seq<Region>, blocks: seq<seq<Fragment>>, i: nat, sel: Region)
    requires i < |regs| == |blocks| && sel == Shifted(regs[i], |before| - origLen)
    requires after == InsertBlock(Erase(before, sel), Clamp(sel.Begin(), |Erase(before, sel)|), blocks[i])
    requires carets == BlockCarets(Clamp(sel.Begin(), |Erase(before, sel)|), blocks[i])
    ensures var rest := PasteRegions(after, origLen, regs[i + 1..], blocks[i + 1..]);
            PasteRegions(before, origLen, regs[i..], blocks[i..]) == Pasted(rest.buf, carets + rest.carets)
  {
    assert regs[i..][0] == regs[i] && regs[i..][1..] == regs[i + 1..];
    assert blocks[i..][0] == blocks[i] && blocks[i..][1..] == blocks[i + 1..];
  }

  /** One turn of the erase loop: erasing the k-th pair leaves the first k - 1
      to go. */
  lemma {:induction false} CutEraseLast(buf: string, sel: seq<Region>, regs: seq<Region>, frags: seq<Fragment>, k: nat)
    requires 0 < k <= |regs| == |frags|
    ensures CutErase(buf, sel, regs[..k], frags[..k])
         == CutErase(Erase(buf, EraseRange(buf, regs[k - 1], frags[k - 1])),
                     AdjustAfterErase(sel, buf, EraseRange(buf, regs[k - 1], frags[k - 1])),
                     regs[..k - 1], frags[..k - 1])
  {
    assert regs[..k][..k - 1] == regs[..k - 1] && frags[..k][..k - 1] == frags[..k - 1];
  }

  lemma TakeAll<T>(s: seq<T>)
    ensures s[..|s|] == s
  {
  }
}
