/** What `PasteEditCommand.run` computes (copy_edit.py:62-101): the store
    reconciled against the clipboard, the number of fragments each selection
    region receives, and the text and carets the paste loop produces. */
module Paste {
  import opened Host
  import opened Text
  import opened Copy
  import opened Splice
  import opened PasteLoop

  /** copy_edit.py:66-71: when the clipboard is not the stored texts joined by
      "\n", the store is replaced by the clipboard as one plain fragment. In
      either case the store then agrees with the clipboard. */
  function Reconciled(store: seq<Fragment>, clipboard: string): (r: seq<Fragment>)
    ensures Join("\n", Texts(r)) == clipboard
    ensures r == store <==> Join("\n", Texts(store)) == clipboard
    ensures r != store ==> r == [Fragment(clipboard, false)]
  {
    if clipboard != Join("\n", Texts(store)) then
      assert Texts([Fragment(clipboard, false)]) == [clipboard];
      [Fragment(clipboard, false)]
    else store
  }

  /** The reconciled store is empty only for an empty store and an empty
      clipboard: the one case in which the division at copy_edit.py:78 has a
      zero divisor. */
  lemma ReconciledEmpty(store: seq<Fragment>, clipboard: string)
    ensures Reconciled(store, clipboard) == [] <==> store == [] && clipboard == ""
  {
    if store == [] {
      assert Texts(store) == [];
    }
  }

  /** copy_edit.py:78-83, for n stored fragments and m > 0 regions. The count
      divides n, so a block never runs past the end of the store; the m blocks
      together use a whole number of passes over the store; and each stored
      fragment is pasted at least once. */
  function StrsPerSel(n: nat, m: nat): (r: nat)
    requires n > 0 && m > 0
    ensures 1 <= r <= n
    ensures n % r == 0
    ensures (m * r) % n == 0
    ensures m * r >= n
  {
    if n <= m && m % n == 0 then 1
    else if m < n && n % m == 0 then
      SplitCount(n, m);
      n / m
    else
      WholeCount(n, m);
      n
  }

  lemma SplitCount(n: nat, m: nat)
    requires 0 < m < n && n % m == 0
    ensures 1 <= n / m <= n && n % (n / m) == 0
    ensures (m * (n / m)) % n == 0 && m * (n / m) >= n
  {
    var k := n / m;
    DivExact(n, m);
    assert m * k == n;
    MulNonNeg(m - 1, k);
    Distrib(k, m, 1);
    ModUnique(n, k, m, 0);
    ModUnique(n, n, 1, 0);
  }

  lemma WholeCount(n: nat, m: nat)
    requires n > 0 && m > 0
    ensures (m * n) % n == 0 && m * n >= n
  {
    MulMod(m, n);
    MulNonNeg(m - 1, n);
    Distrib(n, m, 1);
  }

  /** The three cases of the rule, read back from the count: one fragment per
      region cycling through the store, the store cut into m equal blocks, or
      the whole store into every region. */
  lemma StrsPerSelCases(n: nat, m: nat)
    requires n > 0 && m > 0
    ensures StrsPerSel(n, m) == 1 <== n <= m && m % n == 0
    ensures m < n && n % m == 0 ==> StrsPerSel(n, m) * m == n
    ensures !(n <= m && m % n == 0) && !(m < n && n % m == 0) ==> StrsPerSel(n, m) == n
  {
    if m < n && n % m == 0 {
      DivExact(n, m);
    }
  }

  /** A valid `str_index`: a multiple of the count, below the store size. */
  predicate ValidIndex(s: nat, per: nat, n: nat) {
    0 < per <= n && n % per == 0 && s % per == 0 && s < n
  }

  /** copy_edit.py:90 and 95: from a valid index the slice has `per`
      fragments, and the next index is valid again. */
  lemma NextIndex(s: nat, per: nat, n: nat)
    requires ValidIndex(s, per, n)
    ensures s + per <= n
    ensures ValidIndex((s + per) % n, per, n)
  {
    var q, k := s / per, n / per;
    DivExact(s, per);
    DivExact(n, per);
    MulCancel(per, q, k);
    MulMono(per, q + 1, k);
    Distrib(per, q + 1, 1);
    assert s + per <= n;
    if s + per < n {
      ModUnique(s + per, n, 0, s + per);
      ModUnique(s + per, per, q + 1, 0);
      assert (s + per) % n == s + per && (s + per) % per == 0;
    } else {
      ModUnique(s + per, n, 1, 0);
      ModUnique(0, per, 0, 0);
      assert (s + per) % n == 0 && 0 % per == 0;
    }
  }

  /** copy_edit.py:95: the index of the next region's block. */
  function Next(s: nat, per: nat, n: nat): (s': nat)
    requires ValidIndex(s, per, n)
    ensures s + per <= n && ValidIndex(s', per, n)
  {
    NextIndex(s, per, n);
    (s + per) % n
  }

  /** The index after k regions, as the loop computes it. */
  function IndexAfter(per: nat, n: nat, k: nat): (s: nat)
    requires 0 < per <= n && n % per == 0
    ensures ValidIndex(s, per, n) && s + per <= n
    decreases k
  {
    if k == 0 then
      ModUnique(0, per, 0, 0);
      NextIndex(0, per, n);
      0
    else
      var s0 := IndexAfter(per, n, k - 1);
      NextIndex(Next(s0, per, n), per, n);
      Next(s0, per, n)
  }

  /** Region k's block starts at k * per, wrapped around the store. */
  lemma {:induction false} IndexAfterClosed(per: nat, n: nat, k: nat)
    requires 0 < per <= n && n % per == 0
    ensures IndexAfter(per, n, k) == (k * per) % n
    decreases k
  {
    if k == 0 {
      ModUnique(0, n, 0, 0);
    } else {
      IndexAfterClosed(per, n, k - 1);
      ModAdd((k - 1) * per, per, n);
      Distrib(per, k, 1);
    }
  }

  /** Where region i's block starts, for i below the region count m: with
      one fragment per region, block i is fragment i cycling through the
      store; with the store split in m, block i is the i-th of m equal slices;
      otherwise every block is the whole store. */
  lemma DistributionRule(n: nat, m: nat, i: nat)
    requires n > 0 && i < m
    ensures n <= m && m % n == 0 ==>
              StrsPerSel(n, m) == 1 && IndexAfter(StrsPerSel(n, m), n, i) == i % n
    ensures m < n && n % m == 0 ==>
              StrsPerSel(n, m) * m == n && IndexAfter(StrsPerSel(n, m), n, i) == i * StrsPerSel(n, m)
    ensures !(n <= m && m % n == 0) && !(m < n && n % m == 0) ==>
              StrsPerSel(n, m) == n && IndexAfter(StrsPerSel(n, m), n, i) == 0
  {
    var per := StrsPerSel(n, m);
    IndexAfterClosed(per, n, i);
    if n <= m && m % n == 0 {
      assert i * per == i;
    } else if m < n && n % m == 0 {
      StrsPerSelCases(n, m);
      SliceStart(n, m, per, i);
    } else {
      MulMod(i, n);
    }
  }

  lemma SliceStart(n: nat, m: nat, per: nat, i: nat)
    requires i < m && per * m == n && per > 0
    ensures (i * per) % n == i * per && (i + 1) * per <= n
  {
    MulNonNeg(m - (i + 1), per);
    Distrib(per, m, i + 1);
    Distrib(per, i + 1, 1);
    ModUnique(i * per, n, 0, i * per);
  }

  /** The index before the first region and after the last one is 0: each
      paste starts and ends at the front of the store. */
  lemma IndexReturns(n: nat, m: nat)
    requires n > 0 && m > 0
    ensures IndexAfter(StrsPerSel(n, m), n, m) == 0
  {
    IndexAfterClosed(StrsPerSel(n, m), n, m);
  }

  /** The block region i receives: `per` stored fragments from the index
      `str_index` has reached after i regions (copy_edit.py:90). */
  function BlockAt(store: seq<Fragment>, per: nat, i: nat): (b: seq<Fragment>)
    requires 0 < per <= |store| && |store| % per == 0
    ensures |b| == per
  {
    var s := IndexAfter(per, |store|, i);
    store[s..s + per]
  }

  /** The blocks the region loop hands to m regions, in selection order. */
  function Blocks(store: seq<Fragment>, m: nat): (bs: seq<seq<Fragment>>)
    requires |store| > 0 && m > 0
    ensures |bs| == m
  {
    var per := StrsPerSel(|store|, m);
    seq(m, i requires 0 <= i < m => BlockAt(store, per, i))
  }

  /** A reference statement of the three cases, on the region number alone:
      fragment i cycling through the store, the i-th of m equal slices, or
      the whole store. */
  function BlockFor(store: seq<Fragment>, m: nat, i: nat): (b: seq<Fragment>)
    requires |store| > 0 && i < m
    ensures |b| == StrsPerSel(|store|, m)
  {
    var n := |store|;
    if n <= m && m % n == 0 then [store[i % n]]
    else if m < n && n % m == 0 then
      DivExact(n, m);
      SliceStart(n, m, n / m, i);
      store[i * (n / m)..(i + 1) * (n / m)]
    else store
  }

  /** The loop's blocks are the reference blocks. */
  lemma BlocksByCase(store: seq<Fragment>, m: nat, i: nat)
    requires |store| > 0 && i < m
    ensures Blocks(store, m)[i] == BlockFor(store, m, i)
  {
    var n := |store|;
    if n <= m && m % n == 0 {
      BlockCycling(store, m, i);
    } else if m < n && n % m == 0 {
      BlockSlice(store, m, i);
    } else {
      BlockWhole(store, m, i);
    }
  }

  lemma BlockCycling(store: seq<Fragment>, m: nat, i: nat)
    requires |store| > 0 && i < m && |store| <= m && m % |store| == 0
    ensures Blocks(store, m)[i] == BlockFor(store, m, i)
  {
    DistributionRule(|store|, m, i);
  }

  lemma BlockSlice(store: seq<Fragment>, m: nat, i: nat)
    requires |store| > 0 && i < m && m < |store| && |store| % m == 0
    ensures Blocks(store, m)[i] == BlockFor(store, m, i)
  {
    var n, per := |store|, StrsPerSel(|store|, m);
    DistributionRule(n, m, i);
    ModUnique(n, m, per, 0);
    Distrib(per, i + 1, 1);
  }

  lemma BlockWhole(store: seq<Fragment>, m: nat, i: nat)
    requires |store| > 0 && i < m
    requires !(|store| <= m && m % |store| == 0) && !(m < |store| && |store| % m == 0)
    ensures Blocks(store, m)[i] == BlockFor(store, m, i)
  {
    DistributionRule(|store|, m, i);
  }

  /** The store repeated round and round, L fragments long. */
  function Cycle(store: seq<Fragment>, L: nat): (c: seq<Fragment>)
    requires |store| > 0
    ensures |c| == L
    ensures forall j :: 0 <= j < L ==> c[j] == store[j % |store|]
  {
    seq(L, j requires 0 <= j < L => store[j % |store|])
  }

  /** The fragments a paste inserts, in order, are the store cycled over
      m * per positions, which by `StrsPerSel` is a whole number of passes:
      every stored fragment is pasted equally often. */
  lemma FlattenBlocks(store: seq<Fragment>, m: nat)
    requires |store| > 0 && m > 0
    ensures Flatten(Blocks(store, m)) == Cycle(store, m * StrsPerSel(|store|, m))
  {
    var bs := Blocks(store, m);
    FlattenPrefix(store, m, m);
    assert bs[..m] == bs;
  }

  lemma {:induction false} FlattenPrefix(store: seq<Fragment>, m: nat, k: nat)
    requires |store| > 0 && 0 < m && k <= m
    ensures Flatten(Blocks(store, m)[..k]) == Cycle(store, k * StrsPerSel(|store|, m))
    decreases k
  {
    var bs, n, per := Blocks(store, m), |store|, StrsPerSel(|store|, m);
    if k == 0 {
      assert bs[..0] == [];
      assert Cycle(store, 0) == [];
    } else {
      FlattenPrefix(store, m, k - 1);
      assert bs[..k] == bs[..k - 1] + [bs[k - 1]];
      FlattenSnoc(bs[..k - 1], bs[k - 1]);
      var s := IndexAfter(per, n, k - 1);
      IndexAfterClosed(per, n, k - 1);
      Distrib(per, k, 1);
      MulNonNeg(k - 1, per);
      CycleSnoc(store, (k - 1) * per, s, per);
    }
  }

  /** One more block of the cycle: it starts where the cycle has wrapped to. */
  lemma CycleSnoc(store: seq<Fragment>, a: nat, s: nat, per: nat)
    requires |store| > 0 && s == a % |store| && s + per <= |store|
    ensures Cycle(store, a + per) == Cycle(store, a) + store[s..s + per]
  {
    var lhs, rhs := Cycle(store, a + per), Cycle(store, a) + store[s..s + per];
    forall j | a <= j < a + per ensures lhs[j] == rhs[j] {
      WrapShift(a, j - a, s, |store|);
    }
  }

  lemma WrapShift(a: nat, d: nat, s: nat, n: nat)
    requires n > 0 && s == a % n && s + d < n
    ensures (a + d) % n == s + d
  {
    ModAdd(a, d, n);
    ModUnique(s + d, n, 0, s + d);
  }

  lemma {:induction false} FlattenSnoc(bs: seq<seq<Fragment>>, b: seq<Fragment>)
    ensures Flatten(bs + [b]) == Flatten(bs) + b
    decreases |bs|
  {
    if bs == [] {
      assert [b][1..] == [];
      assert Flatten([b]) == b + [];
    } else {
      assert (bs + [b])[1..] == bs[1..] + [b];
      FlattenSnoc(bs[1..], b);
    }
  }

  /** Every fragment of every block is a stored fragment. */
  lemma BlocksFromStore(store: seq<Fragment>, m: nat, k: nat, j: nat)
    requires |store| > 0 && m > 0 && k < m && j < |Blocks(store, m)[k]|
    ensures Blocks(store, m)[k][j] in store
  {
    var s := IndexAfter(StrsPerSel(|store|, m), |store|, k);
    assert Blocks(store, m)[k][j] == store[s + j];
  }

  /** A store without whole-line fragments gives blocks without them. */
  lemma BlocksPlain(store: seq<Fragment>, m: nat)
    requires |store| > 0 && m > 0
    requires forall k :: 0 <= k < |store| ==> !store[k].wholeLine
    ensures AllPlain(Blocks(store, m))
  {
    var bs: seq<seq<Fragment>> := Blocks(store, m);
    forall k: nat, j: nat | k < |bs| && j < |bs[k]| ensures !bs[k][j].wholeLine {
      BlocksFromStore(store, m, k, j);
    }
  }

  /** The outcome of a paste on the reconciled store (copy_edit.py:73-95):
      nothing happens without selection regions; an empty store divides by
      zero at copy_edit.py:78; otherwise the region loop runs. */
  datatype Outcome = NoRegions | DivisionByZero | Done(result: Pasted)

  function PasteOutcome(buf: string, sel: seq<Region>, store: seq<Fragment>): (o: Outcome)
    ensures o.NoRegions? <==> sel == []
    ensures o.DivisionByZero? <==> sel != [] && store == []
  {
    if sel == [] then NoRegions
    else if store == [] then DivisionByZero
    else Done(PasteRegions(buf, |buf|, sel, Blocks(store, |sel|)))
  }

  /** A paste records one caret per fragment it inserts, `per` for each
      region, and the carets form a valid selection of the new buffer. */
  lemma PasteCarets(buf: string, sel: seq<Region>, store: seq<Fragment>)
    requires Sorted(sel, |buf|) && sel != [] && store != []
    ensures |PasteOutcome(buf, sel, store).result.carets| == |sel| * StrsPerSel(|store|, |sel|)
    ensures Sorted(Carets(PasteOutcome(buf, sel, store).result.carets), |PasteOutcome(buf, sel, store).result.buf|)
  {
    var bs := Blocks(store, |sel|);
    var r := PasteRegions(buf, |buf|, sel, bs);
    assert "" + buf[0..] == buf;
    PasteRegionsCarets("", buf, 0, sel, bs);
    CaretsSorted(r.carets, |r.buf|);
    PasteRegionsCount(buf, |buf|, sel, bs);
    FlattenBlocks(store, |sel|);
  }

  /** Without whole-line fragments a paste is the splice of the buffer with
      each region replaced by its block's text, and the carets sit right
      after the fragments of the cycled store, in order. */
  lemma PastePlain(buf: string, sel: seq<Region>, store: seq<Fragment>)
    requires Sorted(sel, |buf|) && sel != [] && store != []
    requires forall k :: 0 <= k < |store| ==> !store[k].wholeLine
    ensures PasteOutcome(buf, sel, store).result.buf == SpliceFrom(buf, 0, sel, BlockTexts(Blocks(store, |sel|)))
    ensures CaretsAfter(PasteOutcome(buf, sel, store).result.buf, PasteOutcome(buf, sel, store).result.carets,
                        Cycle(store, |sel| * StrsPerSel(|store|, |sel|)))
  {
    var bs := Blocks(store, |sel|);
    assert "" + buf[0..] == buf;
    BlocksPlain(store, |sel|);
    PasteRegionsPlain("", buf, 0, sel, bs);
    PasteCaretsPlain("", buf, 0, sel, bs);
    FlattenBlocks(store, |sel|);
  }

  // Arithmetic the proofs above need.

  lemma MulNonNeg(a: int, b: int)
    requires a >= 0 && b >= 0
    ensures a * b >= 0
  {
  }

  lemma MulCancel(b: int, q: int, k: int)
    requires b > 0 && b * q < b * k
    ensures q < k
  {
    if q >= k {
      MulNonNeg(b, q - k);
      Distrib(b, q, k);
    }
  }

  lemma MulMono(b: int, q: int, k: int)
    requires b >= 0 && q <= k
    ensures b * q <= b * k
  {
    MulNonNeg(b, k - q);
    Distrib(b, k, q);
  }

  lemma Distrib(b: int, q: int, p: int)
    ensures b * (q - p) == b * q - b * p
    ensures (q - p) * b == q * b - p * b
  {
  }

  lemma ModUnique(x: int, b: int, q: int, r: int)
    requires b > 0 && x == b * q + r && 0 <= r < b
    ensures x % b == r && x / b == q
  {
    var q', r' := x / b, x % b;
    assert x == b * q' + r';
    Distrib(b, q, q');
    var d := q - q';
    assert b * d == r' - r;
    if d >= 1 {
      MulNonNeg(b, d - 1);
      Distrib(b, d, 1);
    } else if d <= -1 {
      MulNonNeg(b, -d - 1);
      Distrib(b, -d, 1);
      Distrib(b, 0, d);
    }
  }

  lemma MulMod(a: nat, b: nat)
    requires b > 0
    ensures (a * b) % b == 0
  {
    ModUnique(a * b, b, a, 0);
  }

  lemma DivExact(n: nat, m: nat)
    requires m > 0 && n % m == 0
    ensures m * (n / m) == n && (n / m) * m == n
  {
  }

  lemma ModAdd(a: nat, b: nat, n: nat)
    requires n > 0
    ensures ((a % n) + b) % n == (a + b) % n
  {
    var q, r := a / n, a % n;
    var q2, r2 := (r + b) / n, (r + b) % n;
    assert r + b == n * q2 + r2;
    assert a == n * q + r;
    assert a + b == n * (q + q2) + r2;
    ModUnique(a + b, n, q + q2, r2);
  }
}
