/** The region loop of `PasteEditCommand.run` (copy_edit.py:86-101) over
    given blocks of fragments: each region of the selection is erased and its
    block inserted, with a caret recorded after each fragment. Which block
    each region receives is the business of the `Paste` module. */
module PasteLoop {
  import opened Host
  import opened Text
  import opened Copy
  import opened Splice

  /** What a region receives: the texts of its block, concatenated. */
  function BlockText(block: seq<Fragment>): string {
    Concat(Texts(block))
  }

  lemma BlockTextCons(block: seq<Fragment>)
    requires block != []
    ensures BlockText(block) == block[0].text + BlockText(block[1..])
    ensures |BlockText(block)| == |block[0].text| + |BlockText(block[1..])|
  {
    assert Texts(block)[1..] == Texts(block[1..]);
  }

  /** Caret offsets in recording order never go backwards. */
  predicate Nondecreasing(ps: seq<nat>) {
    forall j, k :: 0 <= j <= k < |ps| ==> ps[j] <= ps[k]
  }

  /** Every offset in cs lies in lo..hi. */
  predicate CaretsWithin(cs: seq<nat>, lo: nat, hi: nat) {
    forall k :: 0 <= k < |cs| ==> lo <= cs[k] <= hi
  }

  /** The new selection: a caret at each recorded offset (copy_edit.py:99-101). */
  function Carets(ps: seq<nat>): (sel: seq<Region>)
    ensures |sel| == |ps|
    ensures forall k :: 0 <= k < |ps| ==> sel[k] == Caret(ps[k])
  {
    seq(|ps|, k requires 0 <= k < |ps| => Caret(ps[k]))
  }

  /** Carets at ascending offsets inside the buffer form a valid selection. */
  lemma CaretsSorted(ps: seq<nat>, n: nat)
    requires Nondecreasing(ps) && CaretsWithin(ps, 0, n)
    ensures Sorted(Carets(ps), n)
  {
  }

  /** copy_edit.py:90-94 for one region, as the buffer sees it: each fragment
      of the block goes in at the insertion point, or for a whole-line
      fragment at the start of that point's line, and the point then
      advances by the fragment's length. */
  function InsertBlock(buf: string, ip: nat, block: seq<Fragment>): string
    requires ip <= |buf|
    decreases |block|
  {
    if block == [] then buf
    else InsertBlock(InsertFragment(buf, ip, block[0]), ip + |block[0].text|, block[1..])
  }

  /** copy_edit.py:91-93: one fragment goes in at the insertion point, or at
      the start of that point's line when it is a whole line; either way
      the text from the insertion point on follows the fragment's text. */
  function InsertFragment(buf: string, ip: nat, f: Fragment): (r: string)
    requires ip <= |buf|
    ensures |r| == |buf| + |f.text|
    ensures r[ip + |f.text|..] == buf[ip..]
  {
    var at := if f.wholeLine then LineBegin(buf, ip) else ip;
    InsertSlices(buf, at, ip, f.text, Insert(buf, at, f.text));
    Insert(buf, at, f.text)
  }

  /** The carets copy_edit.py:94 records for one region: the insertion point
      after each fragment. They depend only on the fragments' lengths. */
  function BlockCarets(ip: nat, block: seq<Fragment>): (cs: seq<nat>)
    ensures |cs| == |block|
    decreases |block|
  {
    if block == [] then [] else [ip + |block[0].text|] + BlockCarets(ip + |block[0].text|, block[1..])
  }

  /** A block lengthens the buffer by its text; the text after the starting
      point is untouched and ends up right after the final insertion point. */
  lemma {:induction false} InsertBlockShape(buf: string, ip: nat, block: seq<Fragment>)
    requires ip <= |buf|
    ensures |InsertBlock(buf, ip, block)| == |buf| + |BlockText(block)|
    ensures InsertBlock(buf, ip, block)[ip + |BlockText(block)|..] == buf[ip..]
    decreases |block|
  {
    if block != [] {
      var f := block[0];
      var b1 := InsertFragment(buf, ip, f);
      BlockTextCons(block);
      InsertBlockShape(b1, ip + |f.text|, block[1..]);
    }
  }

  /** The carets of a block ascend from the starting insertion point to the
      final one, which is past the whole block text. */
  lemma {:induction false} BlockCaretsBounds(ip: nat, block: seq<Fragment>)
    ensures CaretsWithin(BlockCarets(ip, block), ip, ip + |BlockText(block)|)
    ensures Nondecreasing(BlockCarets(ip, block))
    ensures block != [] ==> BlockCarets(ip, block)[|block| - 1] == ip + |BlockText(block)|
    decreases |block|
  {
    if block != [] {
      var f := block[0];
      var p := ip + |f.text|;
      BlockTextCons(block);
      BlockCaretsBounds(p, block[1..]);
      ConsCarets(ip, p, BlockCarets(p, block[1..]), ip + |BlockText(block)|);
    }
  }

  lemma ConsCarets(lo: nat, p: nat, ps: seq<nat>, hi: nat)
    requires Nondecreasing(ps) && CaretsWithin(ps, p, hi) && lo <= p <= hi
    ensures Nondecreasing([p] + ps) && CaretsWithin([p] + ps, lo, hi)
  {
    var qs := [p] + ps;
    forall j, k | 0 <= j <= k < |qs| ensures qs[j] <= qs[k] {
      if j > 0 {
        assert qs[j] == ps[j - 1] && qs[k] == ps[k - 1];
      } else if k > 0 {
        assert qs[k] == ps[k - 1];
      }
    }
    forall k | 0 <= k < |qs| ensures lo <= qs[k] <= hi {
      if k > 0 {
        assert qs[k] == ps[k - 1];
      }
    }
  }

  /** Without whole-line fragments a block is inserted as one contiguous
      text at the insertion point. */
  lemma {:induction false} InsertBlockPlain(buf: string, ip: nat, block: seq<Fragment>)
    requires ip <= |buf| && forall k :: 0 <= k < |block| ==> !block[k].wholeLine
    ensures InsertBlock(buf, ip, block) == buf[..ip] + BlockText(block) + buf[ip..]
    decreases |block|
  {
    if block != [] {
      var f := block[0];
      var p := ip + |f.text|;
      var b1 := Insert(buf, ip, f.text);
      BlockTextCons(block);
      InsertBlockPlain(b1, p, block[1..]);
      assert b1 == buf[..ip] + f.text + buf[ip..];
      PlainHead(buf, ip, f.text, BlockText(block[1..]), InsertBlock(b1, p, block[1..]));
    }
  }

  /** The text t lies in buf right before offset c. */
  predicate EndsAt(buf: string, c: nat, t: string) {
    |t| <= c <= |buf| && buf[c - |t|..c] == t
  }

  /** Caret k sits right after the text of fragment k. */
  predicate CaretsAfter(buf: string, cs: seq<nat>, frags: seq<Fragment>) {
    |cs| == |frags| && forall k :: 0 <= k < |cs| ==> EndsAt(buf, cs[k], frags[k].text)
  }

  /** Without whole-line fragments each caret of a block sits right after
      its own fragment. */
  lemma {:induction false} InsertBlockPlainCarets(buf: string, ip: nat, block: seq<Fragment>)
    requires ip <= |buf| && forall k :: 0 <= k < |block| ==> !block[k].wholeLine
    ensures CaretsAfter(InsertBlock(buf, ip, block), BlockCarets(ip, block), block)
    decreases |block|
  {
    if block != [] {
      var f := block[0];
      var p := ip + |f.text|;
      var b1 := Insert(buf, ip, f.text);
      var out := InsertBlock(b1, p, block[1..]);
      assert InsertBlock(buf, ip, block) == out;
      InsertBlockPlainCarets(b1, p, block[1..]);
      InsertBlockPlain(b1, p, block[1..]);
      assert b1 == buf[..ip] + f.text + buf[ip..];
      PlainHead(buf, ip, f.text, BlockText(block[1..]), out);
      CaretsAfterCons(out, p, f, BlockCarets(p, block[1..]), block[1..]);
      assert [f] + block[1..] == block;
    }
  }

  lemma CaretsAfterCons(buf: string, p: nat, f: Fragment, cs: seq<nat>, frags: seq<Fragment>)
    requires EndsAt(buf, p, f.text) && CaretsAfter(buf, cs, frags)
    ensures CaretsAfter(buf, [p] + cs, [f] + frags)
  {
    forall k | 0 < k < |cs| + 1 ensures EndsAt(buf, ([p] + cs)[k], ([f] + frags)[k].text) {
      assert ([p] + cs)[k] == cs[k - 1] && ([f] + frags)[k] == frags[k - 1];
    }
  }

  /** String algebra for `InsertBlockPlain`: a first text, then the rest of
      the block right after it. */
  lemma PlainHead(buf: string, ip: nat, t: string, more: string, out: string)
    requires ip <= |buf|
    requires out == (buf[..ip] + t + buf[ip..])[..ip + |t|] + more + (buf[..ip] + t + buf[ip..])[ip + |t|..]
    ensures out == buf[..ip] + (t + more) + buf[ip..]
    ensures EndsAt(out, ip + |t|, t)
  {
    var b1 := buf[..ip] + t + buf[ip..];
    assert b1[..ip + |t|] == buf[..ip] + t;
    assert b1[ip + |t|..] == buf[ip..];
    assert out[ip..ip + |t|] == t;
  }

  /** A whole-line fragment goes in at the start of the caret's line, which
      is the front of the buffer or follows a '\n'; the caret keeps its place
      in that line: the line's text before it and all text after it are
      unchanged around it. */
  lemma InsertWholeLine(buf: string, ip: nat, f: Fragment)
    requires ip <= |buf| && f.wholeLine
    ensures LineBegin(buf, ip) == 0 || buf[LineBegin(buf, ip) - 1] == '\n'
    ensures InsertBlock(buf, ip, [f]) == buf[..LineBegin(buf, ip)] + f.text + buf[LineBegin(buf, ip)..]
    ensures BlockCarets(ip, [f]) == [ip + |f.text|]
    ensures InsertBlock(buf, ip, [f])[LineBegin(buf, ip) + |f.text|..ip + |f.text|] == buf[LineBegin(buf, ip)..ip]
    ensures InsertBlock(buf, ip, [f])[ip + |f.text|..] == buf[ip..]
  {
    LineBeginInLine(buf, ip);
    var lb := LineBegin(buf, ip);
    var b1 := Insert(buf, lb, f.text);
    SingleBlock(buf, ip, f);
    InsertSlices(buf, lb, ip, f.text, b1);
  }

  /** A block of one fragment is one insertion and one caret. */
  lemma SingleBlock(buf: string, ip: nat, f: Fragment)
    requires ip <= |buf|
    ensures InsertBlock(buf, ip, [f]) == InsertFragment(buf, ip, f)
    ensures BlockCarets(ip, [f]) == [ip + |f.text|]
  {
    var b1 := InsertFragment(buf, ip, f);
    assert [f][0] == f && [f][1..] == [];
    assert InsertBlock(buf, ip, [f]) == InsertBlock(b1, ip + |f.text|, []) == b1;
    assert BlockCarets(ip, [f]) == [ip + |f.text|] + BlockCarets(ip + |f.text|, []);
  }

  /** Text inserted at lb leaves what followed lb, shifted by its length. */
  lemma InsertSlices(buf: string, lb: nat, ip: nat, t: string, b1: string)
    requires lb <= ip <= |buf| && b1 == Insert(buf, lb, t)
    ensures b1 == buf[..lb] + t + buf[lb..]
    ensures b1[lb + |t|..ip + |t|] == buf[lb..ip]
    ensures b1[ip + |t|..] == buf[ip..]
  {
    assert b1[lb + |t|..] == buf[lb..];
  }

  /** The outcome of the region loop: the buffer and the recorded carets. */
  datatype Pasted = Pasted(buf: string, carets: seq<nat>)

  /** copy_edit.py:86-94. The regions are those of the selection when the
      loop starts, in the coordinates of a buffer of length origLen; the host
      has slid each one by the net change in length that the edits before it
      made. Each region is erased and its block inserted from its start. */
  function PasteRegions(buf: string, origLen: nat, regs: seq<Region>, blocks: seq<seq<Fragment>>): (r: Pasted)
    requires |blocks| == |regs|
    decreases |regs|
  {
    if regs == [] then Pasted(buf, [])
    else
      var reg := Shifted(regs[0], |buf| - origLen);
      var erased := Erase(buf, reg);
      var ip := Clamp(reg.Begin(), |erased|);
      var rest := PasteRegions(InsertBlock(erased, ip, blocks[0]), origLen, regs[1..], blocks[1..]);
      Pasted(rest.buf, BlockCarets(ip, blocks[0]) + rest.carets)
  }

  /** The blocks one after the other: the fragments in the order they are pasted. */
  function Flatten(blocks: seq<seq<Fragment>>): seq<Fragment>
    decreases |blocks|
  {
    if blocks == [] then [] else blocks[0] + Flatten(blocks[1..])
  }

  /** The text each region receives. */
  function BlockTexts(blocks: seq<seq<Fragment>>): (ts: seq<string>)
    ensures |ts| == |blocks|
    ensures forall k :: 0 <= k < |blocks| ==> ts[k] == BlockText(blocks[k])
  {
    seq(|blocks|, k requires 0 <= k < |blocks| => BlockText(blocks[k]))
  }

  /** No block holds a whole-line fragment. */
  predicate AllPlain(blocks: seq<seq<Fragment>>) {
    forall k, j :: 0 <= k < |blocks| && 0 <= j < |blocks[k]| ==> !blocks[k][j].wholeLine
  }

  lemma AllPlainTail(blocks: seq<seq<Fragment>>)
    requires AllPlain(blocks) && blocks != []
    ensures AllPlain(blocks[1..])
    ensures forall j :: 0 <= j < |blocks[0]| ==> !blocks[0][j].wholeLine
  {
    forall k, j | 0 <= k < |blocks[1..]| && 0 <= j < |blocks[1..][k]| ensures !blocks[1..][k][j].wholeLine {
      assert blocks[1..][k] == blocks[k + 1];
    }
  }

  /** Where the first region's block goes in, when the buffer is p followed
      by the original text from t on. */
  function StepPoint(p: string, t: nat, regs: seq<Region>): nat
    requires regs != [] && t <= regs[0].Begin()
  {
    |p| + (regs[0].Begin() - t)
  }

  /** The buffer after the first region's turn of the loop. */
  function StepBuffer(p: string, orig: string, t: nat, regs: seq<Region>, blocks: seq<seq<Fragment>>): string
    requires t <= |orig| && SortedFrom(regs, t, |orig|) && regs != [] && |blocks| == |regs|
  {
    SortedTail(regs, t, |orig|);
    InsertBlock(p + orig[t..regs[0].Begin()] + orig[regs[0].End()..], StepPoint(p, t, regs), blocks[0])
  }

  /** One turn of the region loop on a buffer whose text from the next
      region on is still the original's: the region is erased where the host
      has slid it to, the block goes in at its start, and the original text
      after the region follows the new insertion point. */
  lemma PasteStep(p: string, orig: string, t: nat, regs: seq<Region>, blocks: seq<seq<Fragment>>)
    requires t <= |orig| && SortedFrom(regs, t, |orig|) && regs != [] && |blocks| == |regs|
    ensures t <= regs[0].Begin() <= regs[0].End() <= |orig|
    ensures SortedFrom(regs[1..], regs[0].End(), |orig|)
    ensures StepPoint(p, t, regs) + |BlockText(blocks[0])| <= |StepBuffer(p, orig, t, regs, blocks)|
    ensures StepBuffer(p, orig, t, regs, blocks)
         == StepBuffer(p, orig, t, regs, blocks)[..StepPoint(p, t, regs) + |BlockText(blocks[0])|] + orig[regs[0].End()..]
    ensures PasteRegions(p + orig[t..], |orig|, regs, blocks)
         == Pasted(PasteRegions(StepBuffer(p, orig, t, regs, blocks), |orig|, regs[1..], blocks[1..]).buf,
                   BlockCarets(StepPoint(p, t, regs), blocks[0])
                   + PasteRegions(StepBuffer(p, orig, t, regs, blocks), |orig|, regs[1..], blocks[1..]).carets)
  {
    StepShape(p, orig, t, regs, blocks);
    StepUnfold(p, orig, t, regs, blocks);
  }

  /** The buffer after the first region's turn: the block's text ends at the
      new insertion point, and the original text after the region follows. */
  lemma StepShape(p: string, orig: string, t: nat, regs: seq<Region>, blocks: seq<seq<Fragment>>)
    requires t <= |orig| && SortedFrom(regs, t, |orig|) && regs != [] && |blocks| == |regs|
    ensures t <= regs[0].Begin() <= regs[0].End() <= |orig|
    ensures SortedFrom(regs[1..], regs[0].End(), |orig|)
    ensures StepPoint(p, t, regs) + |BlockText(blocks[0])| <= |StepBuffer(p, orig, t, regs, blocks)|
    ensures StepBuffer(p, orig, t, regs, blocks)
         == StepBuffer(p, orig, t, regs, blocks)[..StepPoint(p, t, regs) + |BlockText(blocks[0])|] + orig[regs[0].End()..]
  {
    SortedTail(regs, t, |orig|);
    var r0 := regs[0];
    var ip := StepPoint(p, t, regs);
    var mid := orig[t..r0.Begin()];
    var erased := p + mid + orig[r0.End()..];
    ErasedTail(p, mid, orig[r0.End()..], ip);
    InsertBlockShape(erased, ip, blocks[0]);
    var sb := StepBuffer(p, orig, t, regs, blocks);
    assert sb == InsertBlock(erased, ip, blocks[0]);
    SplitAt(sb, ip + |BlockText(blocks[0])|, orig[r0.End()..]);
  }

  /** What follows the erased region starts right after the text before it. */
  lemma ErasedTail(p: string, mid: string, rest: string, ip: nat)
    requires ip == |p| + |mid|
    ensures ip <= |p + mid + rest| && (p + mid + rest)[ip..] == rest
  {
  }

  /** A sequence is its prefix up to q followed by its suffix from q. */
  lemma SplitAt(s: string, q: nat, tail: string)
    requires q <= |s| && s[q..] == tail
    ensures s == s[..q] + tail
  {
  }

  /** The first region's turn of the loop, as `StepBuffer` and `StepPoint`. */
  lemma StepUnfold(p: string, orig: string, t: nat, regs: seq<Region>, blocks: seq<seq<Fragment>>)
    requires t <= |orig| && SortedFrom(regs, t, |orig|) && regs != [] && |blocks| == |regs|
    ensures t <= regs[0].Begin()
    ensures PasteRegions(p + orig[t..], |orig|, regs, blocks)
         == Pasted(PasteRegions(StepBuffer(p, orig, t, regs, blocks), |orig|, regs[1..], blocks[1..]).buf,
                   BlockCarets(StepPoint(p, t, regs), blocks[0])
                   + PasteRegions(StepBuffer(p, orig, t, regs, blocks), |orig|, regs[1..], blocks[1..]).carets)
  {
    SortedTail(regs, t, |orig|);
    var r0 := regs[0];
    var ip := StepPoint(p, t, regs);
    var erased := p + orig[t..r0.Begin()] + orig[r0.End()..];
    var buf := p + orig[t..];
    var shifted := Shifted(r0, |buf| - |orig|);
    ShiftedErase(p, orig, t, r0);
    assert erased == Erase(buf, shifted) && ip == shifted.Begin() <= |erased|;
    var sb := StepBuffer(p, orig, t, regs, blocks);
    assert sb == InsertBlock(erased, ip, blocks[0]);
    PasteHead(buf, |orig|, regs, blocks, shifted, erased, ip, sb);
  }

  /** `PasteRegions` peeled at its first region. */
  lemma PasteHead(buf: string, origLen: nat, regs: seq<Region>, blocks: seq<seq<Fragment>>,
                  shifted: Region, erased: string, ip: nat, next: string)
    requires regs != [] && |blocks| == |regs| && shifted == Shifted(regs[0], |buf| - origLen)
    requires erased == Erase(buf, shifted) && ip == shifted.Begin() <= |erased|
    requires next == InsertBlock(erased, ip, blocks[0])
    ensures PasteRegions(buf, origLen, regs, blocks)
         == Pasted(PasteRegions(next, origLen, regs[1..], blocks[1..]).buf,
                   BlockCarets(ip, blocks[0]) + PasteRegions(next, origLen, regs[1..], blocks[1..]).carets)
  {
    assert Clamp(shifted.Begin(), |erased|) == ip;
  }

  /** Where the host has slid a region to, and what erasing it there leaves. */
  lemma ShiftedErase(p: string, orig: string, t: nat, r0: Region)
    requires t <= r0.Begin() <= r0.End() <= |orig|
    ensures Shifted(r0, |p + orig[t..]| - |orig|).Begin() == |p| + (r0.Begin() - t)
    ensures Erase(p + orig[t..], Shifted(r0, |p + orig[t..]| - |orig|)) == p + orig[t..r0.Begin()] + orig[r0.End()..]
    ensures |p| + (r0.Begin() - t) <= |p + orig[t..r0.Begin()] + orig[r0.End()..]|
  {
    var buf := p + orig[t..];
    var reg := Shifted(r0, |buf| - |orig|);
    assert reg.Begin() == |p| + (r0.Begin() - t) && reg.End() == |p| + (r0.End() - t);
    assert buf[..reg.Begin()] == p + orig[t..r0.Begin()];
    assert buf[reg.End()..] == orig[r0.End()..];
  }

  /** One caret is recorded per pasted fragment. */
  lemma {:induction false} PasteRegionsCount(buf: string, origLen: nat, regs: seq<Region>, blocks: seq<seq<Fragment>>)
    requires |blocks| == |regs|
    ensures |PasteRegions(buf, origLen, regs, blocks).carets| == |Flatten(blocks)|
    decreases |regs|
  {
    if regs != [] {
      var reg := Shifted(regs[0], |buf| - origLen);
      var erased := Erase(buf, reg);
      var ip := Clamp(reg.Begin(), |erased|);
      PasteRegionsCount(InsertBlock(erased, ip, blocks[0]), origLen, regs[1..], blocks[1..]);
    }
  }

  /** Recorded carets that ascend and lie inside the buffer, from lo on. */
  predicate CaretsOk(r: Pasted, lo: nat) {
    lo <= |r.buf| && CaretsWithin(r.carets, lo, |r.buf|) && Nondecreasing(r.carets)
  }

  /** The carets a paste records ascend and lie inside the new buffer, after
      the text before the first region: they form a valid selection. */
  lemma {:induction false} PasteRegionsCarets(p: string, orig: string, t: nat, regs: seq<Region>, blocks: seq<seq<Fragment>>)
    requires t <= |orig| && SortedFrom(regs, t, |orig|) && |blocks| == |regs|
    ensures CaretsOk(PasteRegions(p + orig[t..], |orig|, regs, blocks), |p|)
    decreases |regs|
  {
    if regs != [] {
      PasteStep(p, orig, t, regs, blocks);
      var ip := StepPoint(p, t, regs);
      var sb := StepBuffer(p, orig, t, regs, blocks);
      var q := ip + |BlockText(blocks[0])|;
      PasteRegionsCarets(sb[..q], orig, regs[0].End(), regs[1..], blocks[1..]);
      BlockCaretsBounds(ip, blocks[0]);
      CombineCarets(PasteRegions(p + orig[t..], |orig|, regs, blocks), BlockCarets(ip, blocks[0]),
                    PasteRegions(sb, |orig|, regs[1..], blocks[1..]), |p|, q);
    }
  }

  lemma CombineCarets(r: Pasted, a: seq<nat>, rest: Pasted, lo: nat, m: nat)
    requires r == Pasted(rest.buf, a + rest.carets)
    requires CaretsWithin(a, lo, m) && Nondecreasing(a) && CaretsOk(rest, m) && lo <= m
    ensures CaretsOk(r, lo)
  {
    var c := a + rest.carets;
    forall j, k | 0 <= j <= k < |c| ensures c[j] <= c[k] {
      if k < |a| {
        assert c[j] == a[j] && c[k] == a[k];
      } else if j >= |a| {
        assert c[j] == rest.carets[j - |a|] && c[k] == rest.carets[k - |a|];
      } else {
        assert c[j] == a[j] && c[k] == rest.carets[k - |a|];
      }
    }
    forall k | 0 <= k < |c| ensures lo <= c[k] <= |rest.buf| {
      if k < |a| {
        assert c[k] == a[k];
      } else {
        assert c[k] == rest.carets[k - |a|];
      }
    }
  }

  /** Without whole-line fragments the first region's turn leaves the text
      before it, then its block's text, before the new insertion point, and
      each of the block's carets right after its own fragment. */
  lemma StepPlain(p: string, orig: string, t: nat, regs: seq<Region>, blocks: seq<seq<Fragment>>)
    requires t <= |orig| && SortedFrom(regs, t, |orig|) && regs != [] && |blocks| == |regs|
    requires forall j :: 0 <= j < |blocks[0]| ==> !blocks[0][j].wholeLine
    ensures t <= regs[0].Begin() && StepPoint(p, t, regs) + |BlockText(blocks[0])| <= |StepBuffer(p, orig, t, regs, blocks)|
    ensures StepBuffer(p, orig, t, regs, blocks)[..StepPoint(p, t, regs) + |BlockText(blocks[0])|]
         == p + orig[t..regs[0].Begin()] + BlockText(blocks[0])
    ensures CaretsAfter(StepBuffer(p, orig, t, regs, blocks), BlockCarets(StepPoint(p, t, regs), blocks[0]), blocks[0])
    ensures CaretsWithin(BlockCarets(StepPoint(p, t, regs), blocks[0]), 0, StepPoint(p, t, regs) + |BlockText(blocks[0])|)
  {
    SortedTail(regs, t, |orig|);
    var r0 := regs[0];
    var ip := StepPoint(p, t, regs);
    var pre := p + orig[t..r0.Begin()];
    var erased := pre + orig[r0.End()..];
    assert erased[..ip] == pre && erased[ip..] == orig[r0.End()..];
    InsertBlockPlain(erased, ip, blocks[0]);
    InsertBlockPlainCarets(erased, ip, blocks[0]);
    BlockCaretsBounds(ip, blocks[0]);
    var sb := StepBuffer(p, orig, t, regs, blocks);
    assert sb == pre + BlockText(blocks[0]) + orig[r0.End()..];
    assert sb[..ip + |BlockText(blocks[0])|] == pre + BlockText(blocks[0]);
  }

  /** Without whole-line fragments a paste is the splice of the original
      text with each region replaced by its block's text. */
  lemma {:induction false} PasteRegionsPlain(p: string, orig: string, t: nat, regs: seq<Region>, blocks: seq<seq<Fragment>>)
    requires t <= |orig| && SortedFrom(regs, t, |orig|) && |blocks| == |regs| && AllPlain(blocks)
    ensures PasteRegions(p + orig[t..], |orig|, regs, blocks).buf == p + SpliceFrom(orig, t, regs, BlockTexts(blocks))
    decreases |regs|
  {
    if regs != [] {
      PasteStep(p, orig, t, regs, blocks);
      AllPlainTail(blocks);
      StepPlain(p, orig, t, regs, blocks);
      var e := regs[0].End();
      var sb := StepBuffer(p, orig, t, regs, blocks);
      var q := StepPoint(p, t, regs) + |BlockText(blocks[0])|;
      PasteRegionsPlain(sb[..q], orig, e, regs[1..], blocks[1..]);
      var bts := BlockTexts(blocks);
      BlockTextsTail(blocks);
      SpliceHead(orig, t, regs, bts);
      Associate(p, orig[t..regs[0].Begin()], bts[0], SpliceFrom(orig, e, regs[1..], bts[1..]));
    }
  }

  /** The texts of the blocks, peeled at the first block. */
  lemma BlockTextsTail(blocks: seq<seq<Fragment>>)
    requires blocks != []
    ensures BlockTexts(blocks)[0] == BlockText(blocks[0]) && BlockTexts(blocks)[1..] == BlockTexts(blocks[1..])
  {
    var bts := BlockTexts(blocks);
    assert |bts[1..]| == |BlockTexts(blocks[1..])|;
    forall k | 0 <= k < |bts[1..]| ensures bts[1..][k] == BlockTexts(blocks[1..])[k] {
      assert bts[1..][k] == bts[k + 1] == BlockText(blocks[k + 1]);
    }
  }

  /** Without whole-line fragments every recorded caret sits right after the
      fragment it was recorded for. */
  lemma {:induction false} PasteCaretsPlain(p: string, orig: string, t: nat, regs: seq<Region>, blocks: seq<seq<Fragment>>)
    requires t <= |orig| && SortedFrom(regs, t, |orig|) && |blocks| == |regs| && AllPlain(blocks)
    ensures CaretsAfter(PasteRegions(p + orig[t..], |orig|, regs, blocks).buf,
                        PasteRegions(p + orig[t..], |orig|, regs, blocks).carets, Flatten(blocks))
    decreases |regs|
  {
    if regs != [] {
      PasteStep(p, orig, t, regs, blocks);
      AllPlainTail(blocks);
      StepPlain(p, orig, t, regs, blocks);
      var e := regs[0].End();
      var sb := StepBuffer(p, orig, t, regs, blocks);
      var q := StepPoint(p, t, regs) + |BlockText(blocks[0])|;
      PasteCaretsPlain(sb[..q], orig, e, regs[1..], blocks[1..]);
      PasteRegionsPlain(sb[..q], orig, e, regs[1..], blocks[1..]);
      var rest := PasteRegions(sb, |orig|, regs[1..], blocks[1..]);
      CaretsAfterAppend(sb, BlockCarets(StepPoint(p, t, regs), blocks[0]), blocks[0],
                        rest.buf, rest.carets, Flatten(blocks[1..]), q);
    }
  }

  lemma CaretsAfterAppend(b1: string, a: seq<nat>, f1: seq<Fragment>, b2: string, b: seq<nat>, f2: seq<Fragment>, m: nat)
    requires CaretsAfter(b1, a, f1) && CaretsWithin(a, 0, m) && CaretsAfter(b2, b, f2)
    requires m <= |b1| && m <= |b2| && b1[..m] == b2[..m]
    ensures CaretsAfter(b2, a + b, f1 + f2)
  {
    forall k | 0 <= k < |a + b| ensures EndsAt(b2, (a + b)[k], (f1 + f2)[k].text) {
      if k < |a| {
        assert (a + b)[k] == a[k] && (f1 + f2)[k] == f1[k];
        EndsAtPrefix(b1, b2, m, a[k], f1[k].text);
      } else {
        assert (a + b)[k] == b[k - |a|] && (f1 + f2)[k] == f2[k - |a|];
      }
    }
  }

  /** Text before an offset survives edits that keep everything up to m. */
  lemma EndsAtPrefix(a: string, b: string, m: nat, c: nat, t: string)
    requires EndsAt(a, c, t) && c <= m <= |a| && m <= |b| && a[..m] == b[..m]
    ensures EndsAt(b, c, t)
  {
    assert a[c - |t|..c] == a[..m][c - |t|..c];
    assert b[c - |t|..c] == b[..m][c - |t|..c];
  }
}
