# CopyEdit: multi-region cut, copy and paste

CopyEdit is a Sublime Text plugin (`copy_edit.py`). It replaces the editor's
cut, copy and paste commands. With several selection regions, each region's
text is kept as a separate fragment instead of one joined string. A later
paste hands the fragments out over the target regions.

- If there are as many targets as fragments (or a multiple of that), each
  target gets one fragment in turn.
- If there are fewer targets and their count divides the fragment count,
  each target gets an equal slice of the fragments.
- Otherwise every target gets all of them.

An empty region can be copied as its whole line. Such a fragment is pasted
at the start of the caret's line.

This Dafny project models that plugin. It has these modules:

- `Host`: the parts of the editor the plugin uses. These are regions, erase
  and insert, line lookup, how the host moves selection endpoints when text
  before them is erased, and a `View` class holding the buffer, the
  selection and the two settings the plugin reads.
- `Text`: Python's `str.join`, concatenation, and the decimal rendering of a
  count.
- `Status`: `print_status_message`.
- `Copy`: what a copy captures, and the collapse of equal fragments.
- `Cut`: the last-to-first erase loop of a cut, and what it erases when
  measured on the buffer before the cut.
- `Splice`: an order-independent reference definition of multi-region
  replacement. The cut and the plain paste are proved against it.
- `PasteLoop`: the region loop of a paste over given blocks of fragments.
- `Paste`: reconciling the store with the clipboard, the fragments-per-region
  rule, which block each region receives, and the outcome of a paste.
- `Commands`: the commands as imperative code. A `Session` class holds the
  plugin's global store, the clipboard and the status messages. Each
  command's loops are proved against the functions above.
- `Listener`: the redirection of the editor's own commands.
- `RoundTrip`: a cut followed by a paste restores the buffer.
- `Scenarios`: the plugin's acceptance scenarios on small buffers.

The model follows the code where it differs from the plugin's description:

- The line-ending table is keyed `CR`, `Unix` and `Windows`, as
  `copy_edit.py:5` has it.
- After a copy, the clipboard holds the texts of the collapsed store
  (`copy_edit.py:46`), not those of the uncollapsed capture.
- A paste with an empty store and an empty clipboard is not excluded by a
  precondition. It is modelled as the outcome `DivisionByZero`, because the
  division at `copy_edit.py:78` raises in that case.

## Model

| member | source | states |
|---|---|---|
| Commands.Session.Copy | copy_edit.py:26-48 | An empty capture returns `None` and leaves the store and clipboard alone. Otherwise it returns the uncollapsed capture, stores the collapsed capture, and puts the stored texts on the clipboard joined by the view's line ending. The capture loop is proved equal to `Copy.Captured`. |
| Commands.Session.RunCopy | copy_edit.py:50-52 | The same state change as a copy, plus a "Copied" status message exactly when something was captured. |
| Commands.Session.RunCut | copy_edit.py:54-60 | An empty capture changes nothing. Otherwise the store and clipboard are as after a copy, a "Cut" message is added, and the buffer and selection become `Cut.CutOnce` of the old ones: each fragment erased at the region it came from, and a line several carets share erased once. A valid selection stays valid. |
| Commands.EraseBackwards | copy_edit.py:59-60 | The reversed erase loop leaves the buffer and selection equal to `Cut.CutErase` of the old ones. |
| Commands.Session.RunPaste | copy_edit.py:62-101 | The store becomes `Paste.Reconciled` of the old store and the clipboard, even when there is no region. The outcome is `Paste.PasteOutcome` of the old buffer, the old selection and the reconciled store. On success the buffer is the pasted text, the selection is one caret per recorded offset, and a "Pasted" message counts the regions. Otherwise nothing else changes. A valid selection stays valid. |
| Commands.PasteBlocks | copy_edit.py:85-95 | The region loop, with the running `str_index`, produces exactly `PasteLoop.PasteRegions` over the blocks `Paste.BlockAt` names. |
| Commands.PasteRegion | copy_edit.py:88-94 | One turn of the region loop: the paste of regions i onwards is this region's erase and insertions, followed by the paste of the rest. |
| Commands.InsertFragments | copy_edit.py:90-94 | The fragment loop gives the buffer `PasteLoop.InsertBlock` and the carets `PasteLoop.BlockCarets` from the starting insertion point. |
| Commands.BlockOfIndex | copy_edit.py:90 | The slice `[str_index:str_index+strs_per_sel]` taken by the loop is the block of region i, and it lies inside the store. |
| Copy.LineEndingString | copy_edit.py:5 | Each of the three line endings is one or two characters long. |
| Copy.FragmentOf | copy_edit.py:33-36 | A fragment is flagged as a whole line exactly when its region is empty. Its text is never shorter than the region. |
| Copy.CapturedRegions | copy_edit.py:32-36 | There are no more capturing regions than regions. `Copy.CapturedRegionsFacts` says which regions capture. |
| Copy.Captured | copy_edit.py:31-36 | The capture has no more fragments than there are regions. |
| Copy.CapturedFromRegions | copy_edit.py:31-36 | Fragment k is the fragment of the k-th capturing region, so fragments keep selection order. |
| Copy.CapturedRegionsFacts | copy_edit.py:33-36 | With `copy_with_empty_selection`, every region is captured. Without it, only non-empty regions are captured, and every non-empty region is. |
| Copy.CapturedRegionsAllNonEmpty | copy_edit.py:33-34 | When no region is empty, every region is captured, whatever the setting. |
| Copy.CapturedPlain | copy_edit.py:33-36 | With the setting off, no fragment is flagged as a whole line. |
| Copy.CapturedRegionsSorted | copy_edit.py:32-36 | The capturing regions are a valid selection of the same buffer. |
| Copy.CollapseAsWritten | copy_edit.py:39-40 | The collapse as written fails (raises) exactly on an empty capture. |
| Copy.Collapse | copy_edit.py:38-42 | The corrected collapse is empty only for an empty capture. It is either one fragment or the capture itself, and never longer. A capture of two or more fragments collapses to one exactly when all fragments are equal in text and flag. |
| Copy.CollapseAt | copy_edit.py:38-40 | Collapsing loses nothing: the stored fragments, cycled over the capture's length, give back every captured fragment. |
| Copy.CollapseAgrees | copy_edit.py:39-42 | On a non-empty capture the as-written and corrected collapses agree. |
| Cut.EraseRange | copy_edit.py:60 | A plain fragment's range is its region. Either kind of range covers its region and stays inside the buffer. |
| Cut.CutErase | copy_edit.py:59-60 | The loop erases the pairs from last to first. It keeps one selection region per region and never lengthens the buffer. `Cut.CutEraseRanges` states what it erases. |
| Cut.CutEraseRanges | copy_edit.py:59-60 | Measure each pair's range in the buffer as it was before the cut. When those ranges are in order and do not overlap, the cut erases exactly them (`Splice.SpliceFrom` with empty texts). A full line looked up again on the shortened buffer is the same line, because only text after it has gone. |
| Cut.CutEraseSorted | copy_edit.py:59-60 | Whatever is erased, the live selection stays a valid selection of the shrinking buffer. |
| Cut.CutEraseBuffer | copy_edit.py:59-60 | Without whole-line fragments, erasing last-to-first gives the buffer with every region replaced by nothing (`Splice.SpliceFrom`). |
| Cut.CutEraseCarets | copy_edit.py:59-60 | Each erased region becomes a caret at its start less the width erased before it, and later regions slide back by the total width. |
| Cut.CutEraseSelection | copy_edit.py:59-60 | When the erased regions are the whole selection, the selection ends as `Splice.CutCarets` of it. |
| Cut.CutAsWritten | copy_edit.py:59 | The pairs as written: the live selection zipped with the fragments, up to the shorter. It has no contract of its own. `Cut.CutAgrees`, `Scenarios.CutMisaligned` and `Scenarios.CutSameLine` state where it is right and where it is wrong. |
| Cut.CutFixed | copy_edit.py:56-60 | Each fragment is paired with the region it was captured from. It has no contract of its own. `Cut.CutFixedPlain` and `Cut.CutDistinctLines` state what it erases. |
| Cut.CutAgrees | copy_edit.py:56-60 | When every region is captured (setting on, or no empty region), zipping the live selection with the fragments is the corrected pairing. |
| Cut.CutFixedPlain | copy_edit.py:54-60 | With the setting off, a cut deletes exactly the non-empty regions. The result is a valid selection of the new buffer. |
| Cut.Once | copy_edit.py:59-60 | Keeps no more pairs than it is given, with as many regions as fragments. `Cut.OnceKeeps` and `Cut.OnceLines` state which pairs it keeps. |
| Cut.OnceKeeps | copy_edit.py:59-60 | When no two neighbouring pairs erase the same whole line (for instance when no fragment is a whole line), every pair is kept. |
| Cut.OnceLines | copy_edit.py:59-60 | Take a valid selection of carets captured as whole lines. The ranges of the kept pairs are in order and do not overlap. Every caret's line is among them, and each of them is some caret's line. |
| Cut.CutOnce | copy_edit.py:56-60 | The corrected cut: `Cut.CutFixed`'s pairs with a line shared by neighbouring carets kept once. It has no contract of its own. `Cut.CutOnceAgrees` and `Cut.CutOnceLines` state what it erases. |
| Cut.CutOnceAgrees | copy_edit.py:56-60 | With the setting off, the corrected cut is `Cut.CutFixed`. |
| Cut.CarriedWhole | copy_edit.py:33-36 | With the setting on, every caret is captured, and each fragment is flagged as a whole line. |
| Cut.CutOnceLines | copy_edit.py:54-60 | With the setting on, a cut of a valid selection of carets erases every caret's line exactly once and nothing else. |
| Cut.CutDistinctLines | copy_edit.py:54-60 | With the setting on and each caret on a line of its own, `Cut.CutFixed` erases exactly the carets' lines. Each line is looked up again on the shrinking buffer, and that lookup still finds the original line. |
| Splice.SpliceIdentity | copy_edit.py:86-95 | Replacing every region by its own text changes nothing. This is the identity the cut/paste round trip rests on. |
| Splice.SpliceIntoCutCarets | copy_edit.py:59-60 | Splicing texts into the carets a cut leaves is the same as splicing them over the original regions. The carets are a valid selection of the cut buffer. |
| Paste.Reconciled | copy_edit.py:66-71 | After reconciliation the stored texts joined by "\n" are the clipboard. The store is kept exactly when it already matched. Otherwise it is the clipboard as one plain fragment. |
| Paste.ReconciledEmpty | copy_edit.py:66-78 | The reconciled store is empty only for an empty store and an empty clipboard, the one case where line 78 divides by zero. |
| Paste.StrsPerSel | copy_edit.py:78-83 | For n fragments and m regions, the count is in 1..n and divides n. The m blocks together make a whole number of passes over the store, and at least one pass. |
| Paste.StrsPerSelCases | copy_edit.py:78-83 | In the three cases the count is 1, n/m exactly, or n. |
| Paste.Next | copy_edit.py:95 | From a valid index the slice fits in the store, and the next index is valid again. |
| Paste.BlockAt | copy_edit.py:90 | The slice at the index reached after i regions has exactly `strs_per_sel` fragments. |
| Paste.Blocks | copy_edit.py:87-90 | There is one block per region. |
| Paste.BlockFor | copy_edit.py:78-83 | The reference block's length is the `strs_per_sel` of the three cases. `Paste.BlocksByCase` ties it to the loop. |
| Paste.NextIndex | copy_edit.py:90-95 | From a valid `str_index` the slice has `strs_per_sel` fragments, and the next index is valid again. |
| Paste.IndexAfter | copy_edit.py:85-95 | After any number of regions, `str_index` is a multiple of the count below the store size. |
| Paste.IndexAfterClosed | copy_edit.py:85-95 | After k regions, `str_index` is `(k * strs_per_sel) mod n`. |
| Paste.DistributionRule | copy_edit.py:78-95 | In the three cases, region i's index is i mod n, i times n/m, or 0. |
| Paste.IndexReturns | copy_edit.py:85-95 | After the last region the index is back at 0. |
| Paste.BlocksByCase | copy_edit.py:78-90 | Region i's block is the reference `BlockFor`: fragment i mod n, the i-th of m equal slices, or the whole store. |
| Paste.FlattenBlocks | copy_edit.py:87-95 | The fragments pasted, in order, are the store cycled over m × count positions: every fragment is pasted equally often. |
| Paste.BlocksFromStore | copy_edit.py:90 | Every pasted fragment comes from the store. |
| Paste.PasteOutcome | copy_edit.py:73-95 | Nothing happens exactly when there is no region. The division by zero happens exactly when there are regions and the store is empty. |
| Paste.PasteCarets | copy_edit.py:86-101 | A paste records one caret per inserted fragment (`strs_per_sel` per region). The carets form a valid selection of the new buffer. |
| Paste.PastePlain | copy_edit.py:86-95 | Without whole-line fragments, a paste is the splice of the buffer with each region replaced by its block's text. Caret k sits right after the k-th fragment of the cycled store. |
| PasteLoop.Carets | copy_edit.py:99-101 | The new selection has one caret per recorded offset, in order. |
| PasteLoop.CaretsSorted | copy_edit.py:99-101 | Ascending offsets inside the buffer give a valid selection. |
| PasteLoop.PasteRegions | copy_edit.py:86-94 | The region loop over given blocks. It has no contract of its own. `PasteLoop.PasteRegionsCount`, `PasteLoop.PasteRegionsCarets` and `PasteLoop.PasteRegionsPlain` state its properties. |
| PasteLoop.InsertBlock | copy_edit.py:90-94 | The fragment loop for one region. It has no contract of its own. `PasteLoop.InsertBlockShape` and `PasteLoop.InsertBlockPlain` state its properties. |
| PasteLoop.BlockCarets | copy_edit.py:92-94 | One caret per fragment of the block. `PasteLoop.BlockCaretsBounds` says where they lie. |
| PasteLoop.InsertFragment | copy_edit.py:91-92 | One fragment lengthens the buffer by its text, and the text from the insertion point on follows it, whether it went in at the point or at the start of its line. |
| PasteLoop.InsertBlockShape | copy_edit.py:90-94 | A block lengthens the buffer by its text. The text after the insertion point ends up right after the final insertion point. |
| PasteLoop.BlockCaretsBounds | copy_edit.py:92-94 | A block's carets ascend from the insertion point, and the last lies at the insertion point plus the block's length. |
| PasteLoop.InsertBlockPlain | copy_edit.py:90-94 | A block without whole-line fragments inserts its texts, run together, at the insertion point. |
| PasteLoop.InsertBlockPlainCarets | copy_edit.py:90-94 | Without whole-line fragments, each caret sits right after its own fragment's text. |
| PasteLoop.InsertWholeLine | copy_edit.py:91-92 | A whole-line fragment goes in at the start of the insertion point's line. The text between that line start and the point moves past it, and the caret keeps its place in its own line. |
| PasteLoop.PasteRegionsCount | copy_edit.py:87-94 | A paste records exactly as many carets as the blocks hold fragments. |
| PasteLoop.PasteRegionsCarets | copy_edit.py:87-94 | The recorded carets ascend and lie inside the new buffer. |
| PasteLoop.PasteRegionsPlain | copy_edit.py:87-94 | With the host's shifting of later regions, the region loop is the splice of the original buffer, as the reference `Splice.SpliceFrom` defines it. |
| PasteLoop.PasteCaretsPlain | copy_edit.py:87-94 | Without whole-line fragments, every recorded caret sits right after its fragment, across all regions. |
| RoundTrip.ClipboardKeepsStore | copy_edit.py:45-46 | When the copy's clipboard is the "\n" join of the store (Unix line endings or a single stored fragment), the next paste keeps the store. |
| RoundTrip.CutShape | copy_edit.py:54-60 | A cut of non-empty regions yields the buffer without them, with a caret where each one was. |
| RoundTrip.BlocksGiveBack | copy_edit.py:78-90 | Pasting the cut store into as many carets gives each region back its own text. |
| RoundTrip.BlockGivesBack | copy_edit.py:78-90 | When the cut store is pasted into as many carets, the block of caret i holds exactly the text cut from region i. |
| RoundTrip.CutThenPaste | copy_edit.py:54-101 | A cut followed by a paste into the carets it leaves succeeds and restores the buffer, with one caret per region. |
| Status.StatusText | copy_edit.py:20-22 | The message starts with the verb and a space. `Status.StatusTextDetermines` states that the message determines its numbers. |
| Status.StatusMessage | copy_edit.py:17-23 | A region count of 0 (none given) falls back to the number of stored fragments. Any other count is reported as given. |
| Status.NumCharsCounts | copy_edit.py:19 | The character count is the total length of the stored texts, not what a paste inserts. |
| Status.StatusTextDetermines | copy_edit.py:17-22 | The message determines its numbers: the character count always, and the region count whenever it is above 1. |
| Text.DecimalRoundTrip | copy_edit.py:20-22 | The decimal rendering of a count reads back as the count. |
| Text.DecimalInjective | copy_edit.py:20-22 | Different counts render differently. |
| Host.LineBegin | copy_edit.py:91 | `line(pt).begin()` lies at or before the point, clamped into the buffer. |
| Host.FullLine | copy_edit.py:36 | `full_line(region)` starts at a line start and ends after a "\n" or at the end of the buffer. It covers the region and stays inside the buffer. |
| Host.LineBeginLocal | copy_edit.py:60 | The start of a point's line depends only on the text before the point. |
| Host.LineEndLocal | copy_edit.py:60 | The end of a line that stops at a "\n" depends only on the text up to that "\n". |
| Host.FullLineAfterErase | copy_edit.py:59-60 | Erasing text after a region's full line leaves that full line unchanged. |
| Host.CaretLines | copy_edit.py:35-36 | The full lines of two carets are either the same line or one lies wholly before the other. |
| Host.LineBeginInLine | copy_edit.py:91 | `line(pt).begin()` is the start of the buffer or follows a "\n", and no "\n" lies between it and pt. |
| Host.LineEndInLine | copy_edit.py:36 | The end of pt's line is the end of the buffer or a "\n", and no "\n" lies before it. |
| Host.AdjustKeepsSorted | copy_edit.py:59-60 | The host's adjustment of the selection after an erase keeps it a valid selection. |
| Listener.OnTextCommand | copy_edit.py:104-106 | A command is redirected exactly when it is intercepted (`cut`, `copy` or `paste`). The arguments pass on unchanged, and the new name is five characters longer. |
| Listener.OnTextCommandCases | copy_edit.py:104-106 | Exactly `cut`, `copy` and `paste` are redirected, each to its `_edit` command with the same arguments. Every other command gets `None`. |
| Listener.OnTextCommandInverse | copy_edit.py:105-106 | The redirected name is the original with `_edit` appended, so the original can be recovered. |
| Listener.OnTextCommandSettles | copy_edit.py:104-106 | A redirected command is not redirected again. |
| Scenarios.PairwisePaste | cut_copy_paste_tests.py:13-24 | Two copied strings pasted into two carets go one to each, in order. |
| Scenarios.CutPasteTwice | cut_copy_paste_tests.py:27-47 | Two selected texts are cut, leaving a caret where each was, and the store keeps both. A paste gives each region back its text, and a second paste doubles it ("AA-BB"). |
| Scenarios.MultiLineBroadcast | cut_copy_paste_tests.py:50-70 | A string spanning lines goes whole into each of two carets. |
| Scenarios.EqualSelectionsCollapse | cut_copy_paste_tests.py:73-91 | Two selections of the same text capture two equal fragments, which collapse to one. |
| Scenarios.CollapsedIntoOne | cut_copy_paste_tests.py:73-91 | The collapsed string is pasted once into one caret. |
| Scenarios.CollapsedIntoTwo | cut_copy_paste_tests.py:106-120 | The collapsed string is pasted once into each of two carets. |
| Scenarios.WholeLinePaste | cut_copy_paste_tests.py:122-139 | An empty selection copies its whole line. Pasting it puts the line above the caret's line, and the caret stays where it was in its line. |
| Scenarios.FourRegions | cut_copy_paste_tests.py:212-222 | One string pasted over four one-character regions replaces each of them. |
| Scenarios.DegeneratePastes | copy_edit.py:73-78 | With no store and an empty clipboard a paste divides by zero. With no region it does nothing. |
| Scenarios.EmptyCaptureFails | copy_edit.py:39-48 | Only empty regions with the setting off capture nothing. The as-written collapse fails on that; the corrected one passes it through. |
| Scenarios.CutMisaligned | copy_edit.py:56-60 | An empty region before a non-empty one with the setting off: the cut as written erases nothing, and the corrected cut erases the captured text. |
| Scenarios.CutSameLine | copy_edit.py:59-60 | Two carets on one line, setting on: the line is captured twice and stored once. The cut as written erases the next line as well. The corrected cut erases the shared line once. |
| Scenarios.CopiedMessage | copy_edit.py:17-22 | Copying "ab" and "c" from two regions reports "Copied 3 characters over 2 selection regions". |

## Left out

- The editor and the system are state, not calls. `sublime.get_clipboard`/`set_clipboard` are the `Session.clipboard` field. Other programs may have written any value to it before a paste. `sublime.status_message` appends to `Session.messages`. `view.sel()`, `substr`, `erase`, `insert` and `settings()` act on the `View` fields.
- How the host moves a region when text is inserted exactly at its edge is not modelled. In the paste loop, later regions are a snapshot slid by the net change in length so far. That is where the host puts them when the regions are disjoint and ascending.
- The host merges overlapping regions when the new carets are added (`copy_edit.py:99-101`). This is not modelled: the selection becomes the recorded carets as given. The "Pasted" message counts the regions of the selection before the paste.
- `from_clipboard` (`copy_edit.py:67`, `71`) is assigned but never read, so it is not modelled.
- `copy` returns `False` when nothing is captured. Here that is `None`.
- The test harness in `cut_copy_paste_tests.py` is not modelled: the editor it drives, its scenario parser and its output. Its scenarios (1) to (6) and (10) are the concrete lemmas under `Scenarios`. Scenario (2) (cut, paste, paste again) is `Scenarios.CutPasteTwice`, with the one-character texts "A" and "B" in place of THIS and THIS2. `RoundTrip.CutThenPaste` states its first paste for any selection of non-empty regions. Scenarios (4a), (7), (8) and (9) are not stated concretely.
- RoundTrip.CutThenPaste: stated only for a selection of non-empty regions with `copy_with_empty_selection` off, and for Unix line endings or a single stored fragment. With `CR` or `Windows` endings and two or more distinct fragments, the clipboard no longer equals the "\n" join the paste compares against (`copy_edit.py:68`). The paste then replaces the store by the clipboard text as one fragment, so the round trip does not hold. A round trip through whole-line fragments is not stated.
- Host.AdjustAfterErase: the host merges regions that come to coincide after an erase. The model keeps one region per region. Adjacent regions, such as 0..2 and 2..4 in "abab", are cut to two carets at the same offset, where the host would leave one caret. So `RoundTrip.CutThenPaste`'s one caret per region, and the paste back it proves, hold for the model's selection. They are not shown for the host's merged one.
- Cut.CutOnce: corrects only a line shared by neighbouring whole-line pairs. A whole-line range that overlaps a non-empty region of the same cut is still looked up again on the shortened buffer. This needs the setting on and a mixed selection. For example, with a caret at 0 and the region 1..4 in "ab\ncd\n", "d\n" is erased as well.
- Text is a sequence of characters. The editor's character counting and encodings are not modelled.
- Plugin registration and the `TextCommand`/`EventListener` base classes are not modelled.

## Findings

| source | as written | input that shows it | evidently intended | confidence | as-written member | corrected member |
|---|---|---|---|---|---|---|
| copy_edit.py:39-40 | `all(...)` over an empty capture is true, so `new_sel_strings[0]` runs on an empty list and raises before the guard at line 42 | buffer "ab", carets at 0 and 2, `copy_with_empty_selection` off: nothing is captured | an empty capture leaves the store and clipboard unchanged and returns `False` (lines 42-48) | not executed | Copy.CollapseAsWritten, Scenarios.EmptyCaptureFails | Copy.Collapse, Copy.CollapseAgrees, Commands.Session.Copy |
| copy_edit.py:59 | the cut zips the whole live selection with the captured fragments, but with the setting off the capture skips empty regions, so the pairs shift and the last regions are dropped | buffer "ab", selection [caret at 0, region 1..2], setting off: the fragment "b" pairs with the caret, nothing is erased, yet "Cut 1 character" is reported | each fragment's range is erased at the region it was captured from | not executed | Cut.CutAsWritten, Scenarios.CutMisaligned | Cut.CutFixed, Cut.CutAgrees, Commands.Session.RunCut |
| copy_edit.py:59-60 | each whole-line pair looks its full line up again in the buffer that the later pairs' erases have already shortened. When two carets share a line, that line is erased for the later caret, and the earlier caret's lookup then finds the next line | buffer "ab\ncd\n", carets at 0 and 1, `copy_with_empty_selection` on: the store holds "ab\n" once, yet both lines are erased and the buffer ends empty | a line several carets share is erased once, leaving "cd\n" | not executed | Cut.CutAsWritten, Scenarios.CutSameLine | Cut.CutOnce, Cut.CutOnceLines, Commands.Session.RunCut |
