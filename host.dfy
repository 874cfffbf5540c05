/** The editor the plugin runs in, reduced to what the plugin uses: a text
    buffer that stores line breaks as '\n', selection regions over it, the
    host's erase and insert, line lookup, and the way the host moves selection
    endpoints when text before them is erased. */
module Host {

  /** Clamps an offset into 0..n, as the editor does with out-of-range points. */
  function Clamp(p: int, n: nat): (r: nat)
    ensures r <= n
    ensures 0 <= p <= n ==> r == p
  {
    if p < 0 then 0 else if p > n then n else p
  }

  /** A selection region: anchor `a` and caret `b`, in either order. */
  datatype Region = Region(a: nat, b: nat) {
    function Begin(): nat { if a <= b then a else b }
    function End(): nat { if a <= b then b else a }
    /** `len(region)` in the host API. */
    function Size(): nat { End() - Begin() }
  }

  /** A zero-width region, what `Region(point)` builds. */
  function Caret(p: nat): Region { Region(p, p) }

  /** The host's selection invariant: regions ascending, non-overlapping and
      inside a buffer of length n. */
  predicate Sorted(sel: seq<Region>, n: nat) {
    && (forall i :: 0 <= i < |sel| ==> sel[i].End() <= n)
    && (forall i, j :: 0 <= i < |sel| && 0 <= j < |sel| && j == i + 1 ==> sel[i].End() <= sel[j].Begin())
  }

  /** `Sorted`, and every region starts at or after offset t. */
  predicate SortedFrom(sel: seq<Region>, t: nat, n: nat) {
    Sorted(sel, n) && (|sel| > 0 ==> t <= sel[0].Begin())
  }

  /** `view.substr(region)`. */
  function Substr(buf: string, r: Region): string {
    buf[Clamp(r.Begin(), |buf|)..Clamp(r.End(), |buf|)]
  }

  /** `view.erase(edit, region)`. */
  function Erase(buf: string, r: Region): (s: string)
    ensures |s| == |buf| - (Clamp(r.End(), |buf|) - Clamp(r.Begin(), |buf|))
    ensures r.End() <= |buf| ==> s == buf[..r.Begin()] + buf[r.End()..]
  {
    buf[..Clamp(r.Begin(), |buf|)] + buf[Clamp(r.End(), |buf|)..]
  }

  /** `view.insert(edit, point, text)`. */
  function Insert(buf: string, p: nat, text: string): (s: string)
    ensures |s| == |buf| + |text|
    ensures p <= |buf| ==> s == buf[..p] + text + buf[p..]
  {
    buf[..Clamp(p, |buf|)] + text + buf[Clamp(p, |buf|)..]
  }

  /** `view.line(pt).begin()`: the start of the line holding pt. */
  function LineBegin(buf: string, pt: nat): (r: nat)
    ensures r <= Clamp(pt, |buf|)
    decreases pt
  {
    var p := Clamp(pt, |buf|);
    if p == 0 || buf[p - 1] == '\n' then p else LineBegin(buf, p - 1)
  }

  /** A line starts at the front of the buffer or right after a '\n', and no
      line break lies between it and a point on the line. */
  lemma {:induction false} LineBeginInLine(buf: string, pt: nat)
    ensures LineBegin(buf, pt) == 0 || buf[LineBegin(buf, pt) - 1] == '\n'
    ensures forall k :: LineBegin(buf, pt) <= k < Clamp(pt, |buf|) ==> buf[k] != '\n'
    decreases pt
  {
    var p := Clamp(pt, |buf|);
    if !(p == 0 || buf[p - 1] == '\n') {
      LineBeginInLine(buf, p - 1);
    }
  }

  /** The end of the line holding pt, before its '\n' if it has one. */
  function LineEnd(buf: string, pt: nat): (r: nat)
    ensures Clamp(pt, |buf|) <= r <= |buf|
    decreases |buf| - Clamp(pt, |buf|)
  {
    var p := Clamp(pt, |buf|);
    if p == |buf| || buf[p] == '\n' then p else LineEnd(buf, p + 1)
  }

  /** A line ends at the back of the buffer or at a '\n', and no line break
      lies between a point and the end of its line. */
  lemma {:induction false} LineEndInLine(buf: string, pt: nat)
    ensures LineEnd(buf, pt) == |buf| || buf[LineEnd(buf, pt)] == '\n'
    ensures forall k :: Clamp(pt, |buf|) <= k < LineEnd(buf, pt) ==> buf[k] != '\n'
    decreases |buf| - Clamp(pt, |buf|)
  {
    var p := Clamp(pt, |buf|);
    if !(p == |buf| || buf[p] == '\n') {
      LineEndInLine(buf, p + 1);
    }
  }

  /** `view.full_line(region)`: from the start of the first line the region
      touches to past the '\n' of the last one. */
  function FullLine(buf: string, r: Region): (line: Region)
    ensures line.Begin() == LineBegin(buf, r.Begin())
    ensures line.End() <= |buf|
    ensures r.End() <= |buf| ==> r.End() <= line.End()
    ensures line.Begin() == 0 || buf[line.Begin() - 1] == '\n'
    ensures line.End() < |buf| ==> 0 < line.End() && buf[line.End() - 1] == '\n'
  {
    LineBeginInLine(buf, r.Begin());
    LineEndInLine(buf, r.End());
    var e := LineEnd(buf, r.End());
    Region(LineBegin(buf, r.Begin()), if e < |buf| then e + 1 else e)
  }

  /** The start of a point's line depends only on the text before the point. */
  lemma {:induction false} LineBeginLocal(buf: string, other: string, pt: nat, x: nat)
    requires pt <= x <= |buf| && x <= |other| && buf[..x] == other[..x]
    ensures LineBegin(other, pt) == LineBegin(buf, pt)
    decreases pt
  {
    if pt > 0 {
      assert buf[pt - 1] == buf[..x][pt - 1] == other[pt - 1];
      if buf[pt - 1] != '\n' {
        LineBeginLocal(buf, other, pt - 1, x);
      }
    }
  }

  /** The end of a line that stops at a '\n' depends only on the text up to
      that '\n'. */
  lemma {:induction false} LineEndLocal(buf: string, other: string, pt: nat, x: nat)
    requires LineEnd(buf, pt) < x <= |buf| && x <= |other| && buf[..x] == other[..x]
    ensures LineEnd(other, pt) == LineEnd(buf, pt)
    decreases x - pt
  {
    assert pt < x;
    assert buf[pt] == buf[..x][pt] == other[pt];
    if buf[pt] != '\n' {
      LineEndLocal(buf, other, pt + 1, x);
    }
  }

  /** Erasing text after a region's full line leaves that full line where it
      was: the line is the same whether looked up before or after. */
  lemma FullLineAfterErase(buf: string, r: Region, x: nat, y: nat)
    requires r.End() <= |buf| && FullLine(buf, r).End() <= x <= y <= |buf|
    ensures FullLine(buf[..x] + buf[y..], r) == FullLine(buf, r)
  {
    var other := buf[..x] + buf[y..];
    assert other[..x] == buf[..x];
    if x == |buf| {
      assert other == buf;
    } else {
      LineEndLocal(buf, other, r.End(), x);
      LineBeginLocal(buf, other, r.Begin(), x);
    }
  }

  /** The full lines of two carets are the same line or lie one after the
      other: full lines never partly overlap. */
  lemma CaretLines(buf: string, p: nat, q: nat)
    requires p <= q <= |buf|
    ensures FullLine(buf, Caret(p)) == FullLine(buf, Caret(q))
         || FullLine(buf, Caret(p)).End() <= FullLine(buf, Caret(q)).Begin()
  {
    LineEndInLine(buf, p);
    LineBeginInLine(buf, q);
    var ep := LineEnd(buf, p);
    if q <= ep {
      LineEndInLine(buf, q);
      LineBeginInLine(buf, p);
    } else {
      assert buf[ep] == '\n';
    }
  }

  /** Where the host moves a point p when the range x..y is erased. */
  function ErasePoint(p: nat, x: nat, y: nat): (q: nat)
    requires x <= y
    ensures p <= x ==> q == p
    ensures x <= p <= y ==> q == x
    ensures y <= p ==> q == p - (y - x)
  {
    if p <= x then p else if p >= y then p - (y - x) else x
  }

  /** The host's update of the selection after `Erase(buf, range)`. */
  function AdjustAfterErase(sel: seq<Region>, buf: string, range: Region): (r: seq<Region>)
    ensures |r| == |sel|
  {
    var x := Clamp(range.Begin(), |buf|);
    var y := Clamp(range.End(), |buf|);
    seq(|sel|, i requires 0 <= i < |sel| => Region(ErasePoint(sel[i].a, x, y), ErasePoint(sel[i].b, x, y)))
  }

  /** A region slid by delta, as the host slides regions after an edit before them. */
  function Shifted(r: Region, delta: int): Region {
    Region(if r.a + delta < 0 then 0 else r.a + delta, if r.b + delta < 0 then 0 else r.b + delta)
  }

  /** An `ErasePoint`-adjusted selection stays sorted and inside the
      shortened buffer. */
  lemma AdjustKeepsSorted(sel: seq<Region>, buf: string, range: Region)
    requires Sorted(sel, |buf|)
    ensures Sorted(AdjustAfterErase(sel, buf, range), |Erase(buf, range)|)
  {
    var r := AdjustAfterErase(sel, buf, range);
    var x := Clamp(range.Begin(), |buf|);
    var y := Clamp(range.End(), |buf|);
    forall i | 0 <= i < |sel|
      ensures r[i].Begin() == ErasePoint(sel[i].Begin(), x, y)
      ensures r[i].End() == ErasePoint(sel[i].End(), x, y)
    {
      if sel[i].a <= sel[i].b {
        ErasePointMonotone(sel[i].a, sel[i].b, x, y);
      } else {
        ErasePointMonotone(sel[i].b, sel[i].a, x, y);
      }
    }
    forall i | 0 < i < |sel| ensures r[i - 1].End() <= r[i].Begin() {
      ErasePointMonotone(sel[i - 1].End(), sel[i].Begin(), x, y);
    }
  }

  lemma ErasePointMonotone(p: nat, q: nat, x: nat, y: nat)
    requires x <= y && p <= q
    ensures ErasePoint(p, x, y) <= ErasePoint(q, x, y)
  {
  }

  /** Regions in ascending order are pairwise ordered, not just neighbours. */
  lemma SortedPairwise(sel: seq<Region>, n: nat, j: nat, k: nat)
    requires Sorted(sel, n) && j < k < |sel|
    ensures sel[j].End() <= sel[k].Begin()
    decreases k - j
  {
    if j + 1 < k {
      SortedPairwise(sel, n, j + 1, k);
    }
  }

  /** A text buffer in an editor view, with its selection and the two
      settings the plugin reads. The commands change `buffer` and `sel`. */
  class View {
    var buffer: string
    var sel: seq<Region>
    var copyWithEmptySelection: bool
    var lineEndings: LineEnding

    predicate Valid()
      reads this
    {
      Sorted(sel, |buffer|)
    }

    constructor (text: string, regions: seq<Region>, copyEmpty: bool, endings: LineEnding)
      requires Sorted(regions, |text|)
      ensures Valid()
      ensures buffer == text && sel == regions
      ensures copyWithEmptySelection == copyEmpty && lineEndings == endings
    {
      buffer := text;
      sel := regions;
      copyWithEmptySelection := copyEmpty;
      lineEndings := endings;
    }
  }

  /** The values `view.line_endings()` returns. */
  datatype LineEnding = CR | Unix | Windows
}
