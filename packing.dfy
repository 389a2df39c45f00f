// Lines of the flow layout, and the greedy packing of measured sizes into
// lines that the cache runs each time it refreshes its line map.

module Packing {
  import opened SizeMap

  /** A laid-out line: how many items it holds, their total width, the
      tallest height on it and the absolute index of the item that set it. */
  datatype Line = Line(itemCount: int, totalWidth: int, maxHeight: int, maxHeightIndex: int)

  /** A new line: every field starts at 0. */
  const EmptyLine := Line(0, 0, 0, 0)

  /** addToLine(line, item, index): one more item on the line.  A height
      equal to the new maximum moves maxHeightIndex, so ties go to the
      later item. */
  function AddToLine(line: Line, item: Size, index: int): (r: Line)
    ensures r.itemCount == line.itemCount + 1
    ensures r.totalWidth == line.totalWidth + item.x
    ensures r.maxHeight >= line.maxHeight && r.maxHeight >= item.y
    ensures r.maxHeight == line.maxHeight || r.maxHeight == item.y
    ensures r.maxHeightIndex == if item.y >= line.maxHeight then index else line.maxHeightIndex
  {
    var h := if item.y > line.maxHeight then item.y else line.maxHeight;
    Line(line.itemCount + 1, line.totalWidth + item.x, h,
         if item.y == h then index else line.maxHeightIndex)
  }

  /** The line built by adding items to a new line, the first of them being
      item number start. */
  function LineOf(items: seq<Size>, start: int): Line
  {
    if |items| == 0 then EmptyLine
    else AddToLine(LineOf(items[..|items| - 1], start), items[|items| - 1], start + |items| - 1)
  }

  /** The total width of items. */
  function SumX(items: seq<Size>): int
  {
    if |items| == 0 then 0 else SumX(items[..|items| - 1]) + items[|items| - 1].x
  }

  /** items[j] has height h and every later item is lower. */
  ghost predicate LastTallest(items: seq<Size>, h: int, j: int)
  {
    0 <= j < |items| && items[j].y == h && forall j' :: j < j' < |items| ==> items[j'].y < h
  }

  /** What addToLine accumulates: the count, the total width, the height of
      the tallest item (at least 0, the new line's height) and the index of
      the last item of that height; when every item is lower than 0 the
      line keeps height 0 and index 0. */
  lemma {:induction false} LineOfMeaning(items: seq<Size>, start: int)
    ensures LineOf(items, start).itemCount == |items|
    ensures LineOf(items, start).totalWidth == SumX(items)
    ensures LineOf(items, start).maxHeight >= 0
    ensures forall j :: 0 <= j < |items| ==> items[j].y <= LineOf(items, start).maxHeight
    ensures || LastTallest(items, LineOf(items, start).maxHeight, LineOf(items, start).maxHeightIndex - start)
            || (&& LineOf(items, start).maxHeight == 0
                && LineOf(items, start).maxHeightIndex == 0
                && forall j :: 0 <= j < |items| ==> items[j].y < 0)
  {
    if |items| > 0 {
      var p := items[..|items| - 1];
      var x := items[|items| - 1];
      LineOfMeaning(p, start);
      var prev := LineOf(p, start);
      var r := LineOf(items, start);
      assert r == AddToLine(prev, x, start + |p|);
      assert forall j :: 0 <= j < |p| ==> items[j] == p[j];
      if x.y >= prev.maxHeight {
        assert LastTallest(items, r.maxHeight, r.maxHeightIndex - start);
      } else if LastTallest(p, prev.maxHeight, prev.maxHeightIndex - start) {
        assert LastTallest(items, r.maxHeight, r.maxHeightIndex - start);
      }
    }
  }

  /** Heights 3, 5, 5, 2: the second 5 sets maxHeightIndex. */
  lemma TieGoesToLaterItem(start: int)
    ensures LineOf([Size(10, 3), Size(10, 5), Size(10, 5), Size(10, 2)], start).maxHeight == 5
    ensures LineOf([Size(10, 3), Size(10, 5), Size(10, 5), Size(10, 2)], start).maxHeightIndex == start + 2
  {
    var items := [Size(10, 3), Size(10, 5), Size(10, 5), Size(10, 2)];
    LineOfMeaning(items, start);
    var r := LineOf(items, start);
    assert items[1].y == 5 && items[2].y == 5;
    assert r.maxHeight == 5;
  }

  // ---------------------------------------------------------------------
  // The packing loop of refreshLineMap

  /** The loop state: the lines closed so far, the current line, and the
      running width and item count of the current line. */
  datatype PackState = PackState(done: seq<Line>, cur: Line, width: int, count: int)

  const Start := PackState([], EmptyLine, 0, 0)

  /** One iteration for the item at absolute index index.  The item stays on
      the current line when the running width is at most areaWidth and, with
      a cap (cap > 0), the running count is at most cap; otherwise the
      current line is stored and the item opens the next one. */
  function Step(st: PackState, item: Size, index: int, areaWidth: int, cap: int): PackState
  {
    var width := st.width + item.x;
    var count := st.count + 1;
    if width <= areaWidth && !(cap > 0 && count > cap) then
      PackState(st.done, AddToLine(st.cur, item, index), width, count)
    else
      PackState(st.done + [st.cur], AddToLine(EmptyLine, item, index), item.x, 1)
  }

  /** The state after the loop has consumed items, the first of them at
      absolute index start. */
  function Fold(items: seq<Size>, start: int, areaWidth: int, cap: int): PackState
  {
    if |items| == 0 then Start
    else Step(Fold(items[..|items| - 1], start, areaWidth, cap), items[|items| - 1], start + |items| - 1, areaWidth, cap)
  }

  /** The loop consumes the items one at a time. */
  lemma FoldStep(items: seq<Size>, k: int, start: int, areaWidth: int, cap: int)
    requires 0 <= k < |items|
    ensures Fold(items[..k + 1], start, areaWidth, cap) ==
            Step(Fold(items[..k], start, areaWidth, cap), items[k], start + k, areaWidth, cap)
  {
    assert items[..k + 1][..k] == items[..k];
  }

  /** The state of the loop of refreshLineMap after it has consumed the
      first k items, with the lines it stores appended to base, the lines
      stored before the loop began. */
  function FoldTo(base: seq<Line>, items: seq<Size>, k: int, start: int, areaWidth: int, cap: int): PackState
    requires 0 <= k <= |items|
  {
    var st := Fold(items[..k], start, areaWidth, cap);
    PackState(base + st.done, st.cur, st.width, st.count)
  }

  /** Before the loop, nothing is consumed and nothing stored. */
  lemma FoldToStart(base: seq<Line>, items: seq<Size>, start: int, areaWidth: int, cap: int)
    ensures FoldTo(base, items, 0, start, areaWidth, cap) == PackState(base, EmptyLine, 0, 0)
  {
    assert items[..0] == [] && base + [] == base;
  }

  /** One turn of the loop of refreshLineMap, in the loop's own variables:
      when item k keeps the running width within areaWidth and the running
      count within the cap, it joins the current line; otherwise the
      current line is stored and the item opens the next one. */
  lemma FoldToNext(base: seq<Line>, items: seq<Size>, k: int, start: int, areaWidth: int, cap: int,
                   item: Size, index: int, lines: seq<Line>, cur: Line, width: int, count: int)
    requires 0 <= k < |items| && items[k] == item && index == start + k
    requires FoldTo(base, items, k, start, areaWidth, cap) == PackState(lines, cur, width, count)
    ensures FoldTo(base, items, k + 1, start, areaWidth, cap) ==
            if width + item.x <= areaWidth && !(cap > 0 && count + 1 > cap)
            then PackState(lines, AddToLine(cur, item, index), width + item.x, count + 1)
            else PackState(lines + [cur], AddToLine(EmptyLine, item, index), item.x, 1)
  {
    FoldStep(items, k, start, areaWidth, cap);
    var st := Fold(items[..k], start, areaWidth, cap);
    assert base + (st.done + [st.cur]) == base + st.done + [st.cur];
  }

  /** Having consumed every item, the loop has stored the lines of Fold
      after base. */
  lemma FoldToAll(base: seq<Line>, items: seq<Size>, start: int, areaWidth: int, cap: int)
    ensures var st := Fold(items, start, areaWidth, cap);
            FoldTo(base, items, |items|, start, areaWidth, cap) == PackState(base + st.done, st.cur, st.width, st.count)
  {
    assert items[..|items|] == items;
  }

  /** After the loop: the current line is appended when it holds an item. */
  function Finish(st: PackState): seq<Line>
  {
    if st.cur.itemCount > 0 then st.done + [st.cur] else st.done
  }

  /** The lines refreshLineMap appends for the measured items from start on. */
  function Pack(items: seq<Size>, start: int, areaWidth: int, cap: int): seq<Line>
  {
    Finish(Fold(items, start, areaWidth, cap))
  }

  /** The number of items the lines hold: the sum of their counts. */
  function Covered(lines: seq<Line>): int
  {
    if |lines| == 0 then 0 else Covered(lines[..|lines| - 1]) + lines[|lines| - 1].itemCount
  }

  lemma CoveredAppend(lines: seq<Line>, line: Line)
    ensures Covered(lines + [line]) == Covered(lines) + line.itemCount
  {
    assert (lines + [line])[..|lines|] == lines;
  }

  /** lines split items, in order, into consecutive runs, and each line is
      the line built from its run; the first item is item number start. */
  ghost predicate Segments(lines: seq<Line>, items: seq<Size>, start: int)
    decreases |lines|
  {
    if |lines| == 0 then items == []
    else
      var c := Covered(lines[..|lines| - 1]);
      && 0 <= c <= |items|
      && Segments(lines[..|lines| - 1], items[..c], start)
      && lines[|lines| - 1] == LineOf(items[c..], start + c)
  }

  lemma {:induction false} SegmentsCover(lines: seq<Line>, items: seq<Size>, start: int)
    requires Segments(lines, items, start)
    ensures Covered(lines) == |items|
    decreases |lines|
  {
    if |lines| > 0 {
      var c := Covered(lines[..|lines| - 1]);
      SegmentsCover(lines[..|lines| - 1], items[..c], start);
      LineOfMeaning(items[c..], start + c);
    }
  }

  /** A line can take no further item: the running width would exceed
      areaWidth, or the count would exceed a cap. */
  predicate Overflows(line: Line, item: Size, areaWidth: int, cap: int)
  {
    line.totalWidth + item.x > areaWidth || (cap > 0 && line.itemCount + 1 > cap)
  }

  /** Within its limits: at most cap items when there is a cap, and a line
      wider than areaWidth holds a single item. */
  predicate Fits(line: Line, areaWidth: int, cap: int)
  {
    && (cap > 0 ==> line.itemCount <= cap)
    && (line.totalWidth > areaWidth ==> line.itemCount <= 1)
  }

  ghost predicate WellPacked(lines: seq<Line>, areaWidth: int, cap: int)
  {
    forall l :: 0 <= l < |lines| ==> Fits(lines[l], areaWidth, cap)
  }

  lemma WellPackedConcat(a: seq<Line>, b: seq<Line>, areaWidth: int, cap: int)
    requires WellPacked(a, areaWidth, cap) && WellPacked(b, areaWidth, cap)
    ensures WellPacked(a + b, areaWidth, cap)
  {
    forall l | 0 <= l < |a + b|
      ensures Fits((a + b)[l], areaWidth, cap)
    {
      if l >= |a| {
        assert (a + b)[l] == b[l - |a|];
      }
    }
  }

  /** Greedy: every line but the last was closed because the first item of
      the next line overflowed it. */
  ghost predicate Breaks(lines: seq<Line>, items: seq<Size>, areaWidth: int, cap: int)
    decreases |lines|
  {
    if |lines| <= 1 then true
    else
      var p := lines[..|lines| - 1];
      && Breaks(p, items, areaWidth, cap)
      && 0 <= Covered(p) < |items|
      && Overflows(p[|p| - 1], items[Covered(p)], areaWidth, cap)
  }

  /** Only the first line can be empty, and it is exactly when the first
      item alone is wider than areaWidth. */
  ghost predicate EmptyOnlyFirst(lines: seq<Line>, items: seq<Size>, areaWidth: int)
  {
    && |lines| > 0 && |items| > 0
    && (lines[0].itemCount == 0 <==> items[0].x > areaWidth)
    && forall l :: 1 <= l < |lines| ==> lines[l].itemCount >= 1
  }

  // ---------------------------------------------------------------------
  // What the loop keeps true

  lemma {:induction false} FoldShape(items: seq<Size>, start: int, areaWidth: int, cap: int)
    ensures Fold(items, start, areaWidth, cap).width == Fold(items, start, areaWidth, cap).cur.totalWidth
    ensures Fold(items, start, areaWidth, cap).count == Fold(items, start, areaWidth, cap).cur.itemCount
    ensures |items| == 0 ==> Fold(items, start, areaWidth, cap) == Start
    ensures |items| > 0 ==> Fold(items, start, areaWidth, cap).cur.itemCount >= 1
  {
    if |items| > 0 {
      FoldShape(items[..|items| - 1], start, areaWidth, cap);
    }
  }

  /** The closed lines and the current line split the consumed items. */
  lemma {:induction false} FoldSegments(items: seq<Size>, start: int, areaWidth: int, cap: int)
    ensures Segments(Fold(items, start, areaWidth, cap).done + [Fold(items, start, areaWidth, cap).cur], items, start)
  {
    if |items| == 0 {
      assert [EmptyLine][..0] == [];
    } else {
      var n := |items|;
      var prev := Fold(items[..n - 1], start, areaWidth, cap);
      FoldSegments(items[..n - 1], start, areaWidth, cap);
      if prev.width + items[n - 1].x <= areaWidth && !(cap > 0 && prev.count + 1 > cap) {
        SegmentsJoin(prev.done, prev.cur, items, start);
      } else {
        SegmentsOpen(prev.done, prev.cur, items, start);
      }
    }
  }

  /** The last item joins the last line. */
  lemma SegmentsJoin(done: seq<Line>, cur: Line, items: seq<Size>, start: int)
    requires |items| > 0 && Segments(done + [cur], items[..|items| - 1], start)
    ensures Segments(done + [AddToLine(cur, items[|items| - 1], start + |items| - 1)], items, start)
  {
    var p := items[..|items| - 1];
    var c := Covered(done);
    assert (done + [cur])[..|done|] == done;
    var lines := done + [AddToLine(cur, items[|items| - 1], start + |items| - 1)];
    assert lines[..|lines| - 1] == done;
    assert items[..c] == p[..c];
    var tail := items[c..];
    assert tail[..|tail| - 1] == p[c..];
  }

  /** The last item opens a new line after the last one. */
  lemma SegmentsOpen(done: seq<Line>, cur: Line, items: seq<Size>, start: int)
    requires |items| > 0 && Segments(done + [cur], items[..|items| - 1], start)
    ensures Segments(done + [cur] + [AddToLine(EmptyLine, items[|items| - 1], start + |items| - 1)], items, start)
  {
    var n := |items|;
    var lines := done + [cur] + [AddToLine(EmptyLine, items[n - 1], start + n - 1)];
    assert lines[..|lines| - 1] == done + [cur];
    SegmentsCover(done + [cur], items[..n - 1], start);
    assert items[n - 1..] == [items[n - 1]];
    assert [items[n - 1]][..0] == [];
  }

  lemma {:induction false} FoldFits(items: seq<Size>, start: int, areaWidth: int, cap: int)
    ensures WellPacked(Fold(items, start, areaWidth, cap).done + [Fold(items, start, areaWidth, cap).cur], areaWidth, cap)
  {
    if |items| > 0 {
      var p := items[..|items| - 1];
      var st := Fold(items, start, areaWidth, cap);
      var prev := Fold(p, start, areaWidth, cap);
      var before := prev.done + [prev.cur];
      FoldFits(p, start, areaWidth, cap);
      FoldShape(p, start, areaWidth, cap);
      var lines := st.done + [st.cur];
      forall l | 0 <= l < |lines|
        ensures Fits(lines[l], areaWidth, cap)
      {
        if l < |lines| - 1 {
          assert lines[l] == before[l];
        }
      }
    }
  }

  /** A longer list of items keeps every break of a shorter one. */
  lemma {:induction false} BreaksGrow(lines: seq<Line>, items: seq<Size>, more: seq<Size>, areaWidth: int, cap: int)
    requires Breaks(lines, items, areaWidth, cap)
    requires |items| <= |more| && items == more[..|items|]
    ensures Breaks(lines, more, areaWidth, cap)
    decreases |lines|
  {
    if |lines| > 1 {
      BreaksGrow(lines[..|lines| - 1], items, more, areaWidth, cap);
    }
  }

  lemma {:induction false} FoldBreaks(items: seq<Size>, start: int, areaWidth: int, cap: int)
    ensures Breaks(Fold(items, start, areaWidth, cap).done + [Fold(items, start, areaWidth, cap).cur], items, areaWidth, cap)
  {
    var st := Fold(items, start, areaWidth, cap);
    var lines := st.done + [st.cur];
    if |items| > 0 {
      var n := |items|;
      var p := items[..n - 1];
      var prev := Fold(p, start, areaWidth, cap);
      FoldBreaks(p, start, areaWidth, cap);
      BreaksGrow(prev.done + [prev.cur], p, items, areaWidth, cap);
      assert (prev.done + [prev.cur])[..|prev.done|] == prev.done;
      if st.done == prev.done {
        assert lines[..|lines| - 1] == prev.done;
      } else {
        assert lines[..|lines| - 1] == prev.done + [prev.cur];
        FoldShape(p, start, areaWidth, cap);
        FoldSegments(p, start, areaWidth, cap);
        SegmentsCover(prev.done + [prev.cur], p, start);
      }
    }
  }

  lemma {:induction false} FoldFirst(items: seq<Size>, start: int, areaWidth: int, cap: int)
    requires |items| > 0
    ensures EmptyOnlyFirst(Fold(items, start, areaWidth, cap).done + [Fold(items, start, areaWidth, cap).cur], items, areaWidth)
  {
    var n := |items|;
    var p := items[..n - 1];
    var prev := Fold(p, start, areaWidth, cap);
    FoldShape(p, start, areaWidth, cap);
    FoldShape(items, start, areaWidth, cap);
    if n > 1 {
      FoldFirst(p, start, areaWidth, cap);
      assert items[0] == p[0];
      var st := Fold(items, start, areaWidth, cap);
      var before := prev.done + [prev.cur];
      var lines := st.done + [st.cur];
      forall l | 1 <= l < |lines|
        ensures lines[l].itemCount >= 1
      {
        if l < |lines| - 1 {
          assert lines[l] == before[l];
        }
      }
      if |prev.done| > 0 || st.done != prev.done {
        assert lines[0] == before[0];
      }
    }
  }

  // ---------------------------------------------------------------------
  // What a refresh appends

  /** The packed lines split the items, in order, each line built from its
      own run of items; so they hold every item exactly once. */
  lemma PackSegments(items: seq<Size>, start: int, areaWidth: int, cap: int)
    ensures Segments(Pack(items, start, areaWidth, cap), items, start)
    ensures Covered(Pack(items, start, areaWidth, cap)) == |items|
  {
    FoldShape(items, start, areaWidth, cap);
    FoldSegments(items, start, areaWidth, cap);
    SegmentsCover(Pack(items, start, areaWidth, cap), items, start);
  }

  /** No packed line holds more than cap items when there is a cap, and a
      line wider than areaWidth holds a single item. */
  lemma PackFits(items: seq<Size>, start: int, areaWidth: int, cap: int)
    ensures WellPacked(Pack(items, start, areaWidth, cap), areaWidth, cap)
  {
    FoldShape(items, start, areaWidth, cap);
    FoldFits(items, start, areaWidth, cap);
  }

  /** Greedy: each packed line but the last is closed only because the next
      item would overflow it. */
  lemma PackBreaks(items: seq<Size>, start: int, areaWidth: int, cap: int)
    ensures Breaks(Pack(items, start, areaWidth, cap), items, areaWidth, cap)
  {
    FoldShape(items, start, areaWidth, cap);
    FoldBreaks(items, start, areaWidth, cap);
  }

  /** The zero-count line: when the first item alone is wider than
      areaWidth, an empty line is stored before the line holding it; no
      other packed line is empty. */
  lemma PackEmptyFirst(items: seq<Size>, start: int, areaWidth: int, cap: int)
    requires |items| > 0
    ensures EmptyOnlyFirst(Pack(items, start, areaWidth, cap), items, areaWidth)
    ensures items[0].x > areaWidth ==> Pack(items, start, areaWidth, cap)[0] == EmptyLine
  {
    FoldShape(items, start, areaWidth, cap);
    FoldFirst(items, start, areaWidth, cap);
    FoldSegments(items, start, areaWidth, cap);
    var lines := Pack(items, start, areaWidth, cap);
    if items[0].x > areaWidth {
      SegmentsFirst(lines, items, start);
      LineOfMeaning(items[..lines[0].itemCount], start);
    }
  }

  /** The first line is built from the first items. */
  lemma {:induction false} SegmentsFirst(lines: seq<Line>, items: seq<Size>, start: int)
    requires Segments(lines, items, start) && |lines| > 0
    ensures 0 <= lines[0].itemCount <= |items| && lines[0] == LineOf(items[..lines[0].itemCount], start)
    decreases |lines|
  {
    var c := Covered(lines[..|lines| - 1]);
    if |lines| == 1 {
      assert lines[..0] == [];
      assert items[0..] == items && items[..|items|] == items;
      LineOfMeaning(items, start);
    } else {
      SegmentsFirst(lines[..|lines| - 1], items[..c], start);
      assert (lines[..|lines| - 1])[0] == lines[0];
      assert items[..c][..lines[0].itemCount] == items[..lines[0].itemCount];
    }
  }

  // ---------------------------------------------------------------------
  // Lines as a whole

  lemma {:induction false} CoveredConcat(a: seq<Line>, b: seq<Line>)
    ensures Covered(a + b) == Covered(a) + Covered(b)
    decreases |b|
  {
    if |b| == 0 {
      assert a + b == a;
    } else {
      var b' := b[..|b| - 1];
      CoveredConcat(a, b');
      assert (a + b)[..|a + b| - 1] == a + b';
    }
  }

  /** A prefix of the lines splits the items it covers. */
  lemma {:induction false} SegmentsPrefix(lines: seq<Line>, items: seq<Size>, start: int, k: int)
    requires Segments(lines, items, start) && 0 <= k <= |lines|
    ensures 0 <= Covered(lines[..k]) <= |items|
    ensures Segments(lines[..k], items[..Covered(lines[..k])], start)
    decreases |lines|
  {
    SegmentsCover(lines, items, start);
    if k == |lines| {
      assert lines[..k] == lines && items[..|items|] == items;
    } else {
      var p := lines[..|lines| - 1];
      var c := Covered(p);
      SegmentsPrefix(p, items[..c], start, k);
      assert p[..k] == lines[..k];
      assert items[..c][..Covered(lines[..k])] == items[..Covered(lines[..k])];
    }
  }

  /** Lines for xs followed by lines for the items after them split xs + ys. */
  lemma {:induction false} SegmentsConcat(a: seq<Line>, b: seq<Line>, xs: seq<Size>, ys: seq<Size>, start: int, mid: int)
    requires mid == start + |xs|
    requires Segments(a, xs, start) && Segments(b, ys, mid)
    ensures Segments(a + b, xs + ys, start)
    decreases |b|
  {
    if |b| == 0 {
      assert a + b == a && xs + ys == xs;
    } else {
      var b' := b[..|b| - 1];
      var c' := Covered(b');
      SegmentsConcat(a, b', xs, ys[..c'], start, mid);
      assert (a + b)[..|a + b| - 1] == a + b';
      CoveredConcat(a, b');
      SegmentsCover(a, xs, start);
      var c := Covered(a + b');
      assert c == |xs| + c';
      assert (xs + ys)[..c] == xs + ys[..c'];
      assert (xs + ys)[c..] == ys[c'..];
    }
  }

  /** The line holding item i: the first line whose running count exceeds i,
      or -1 (NOT_FOUND) when the lines hold fewer items. */
  function LineIndexOf(lines: seq<Line>, i: int): (r: int)
    ensures -1 <= r < |lines|
    decreases |lines|
  {
    if |lines| == 0 then -1
    else
      var r := LineIndexOf(lines[..|lines| - 1], i);
      if r >= 0 then r else if i < Covered(lines) then |lines| - 1 else -1
  }

  /** Once a prefix of the lines holds item i, more lines do not change
      which line holds it. */
  lemma {:induction false} LineIndexOfPrefix(lines: seq<Line>, j: int, i: int)
    requires 0 <= j <= |lines| && LineIndexOf(lines[..j], i) >= 0
    ensures LineIndexOf(lines, i) == LineIndexOf(lines[..j], i)
    decreases |lines| - j
  {
    if j < |lines| {
      var p := lines[..|lines| - 1];
      assert p[..j] == lines[..j];
      LineIndexOfPrefix(p, j, i);
    } else {
      assert lines[..j] == lines;
    }
  }

  /** The items held by lines 0 .. l. */
  function Through(lines: seq<Line>, l: int): int
    requires 0 <= l < |lines|
  {
    Covered(lines[..l + 1])
  }

  /** itemLineIndex: the result is the first line whose running count passes
      i, and -1 exactly when no line's does. */
  lemma {:induction false} LineIndexOfMeaning(lines: seq<Line>, i: int)
    ensures 0 <= LineIndexOf(lines, i) ==>
              && i < Through(lines, LineIndexOf(lines, i))
              && forall l :: 0 <= l < LineIndexOf(lines, i) ==> Through(lines, l) <= i
    ensures LineIndexOf(lines, i) == -1 ==> forall l :: 0 <= l < |lines| ==> Through(lines, l) <= i
    decreases |lines|
  {
    if |lines| > 0 {
      var p := lines[..|lines| - 1];
      LineIndexOfMeaning(p, i);
      forall l | 0 <= l < |p|
        ensures Through(p, l) == Through(lines, l)
      {
        assert p[..l + 1] == lines[..l + 1];
      }
      assert lines[..|lines|] == lines;
    }
  }

  /** The lines invalidateLineMapAfter(i) keeps: those before the line
      holding item i; when no line holds it, all but the last. */
  function Truncated(lines: seq<Line>, i: int): seq<Line>
  {
    var l := LineIndexOf(lines, i);
    if l >= 0 then lines[..l] else if |lines| > 0 then lines[..|lines| - 1] else lines
  }

  /** Minimal invalidation: what is kept is a prefix covering no item from i
      on; when a line holds item i, the kept lines are all the lines before
      it, since one more line would cover item i. */
  lemma TruncatedMeaning(lines: seq<Line>, i: int)
    requires i >= 0
    ensures |Truncated(lines, i)| <= |lines| && Truncated(lines, i) == lines[..|Truncated(lines, i)|]
    ensures Covered(Truncated(lines, i)) <= i
    ensures LineIndexOf(lines, i) >= 0 ==> i < Through(lines, |Truncated(lines, i)|)
    ensures LineIndexOf(lines, i) == -1 && |lines| > 0 ==> |Truncated(lines, i)| == |lines| - 1
  {
    LineIndexOfMeaning(lines, i);
    var l := LineIndexOf(lines, i);
    if l > 0 {
      assert Through(lines, l - 1) <= i;
    } else if l == -1 && |lines| > 1 {
      assert Through(lines, |lines| - 2) <= i;
    }
  }

  // ---------------------------------------------------------------------
  // Worked example: widths 40, 40, 40, 30 with no cap

  function Widths(): seq<Size>
  {
    [Size(40, 10), Size(40, 10), Size(40, 10), Size(30, 10)]
  }

  /** At width 100 the items pack two and two. */
  lemma PackExampleWide()
    ensures |Pack(Widths(), 0, 100, 0)| == 2
    ensures Pack(Widths(), 0, 100, 0)[0].itemCount == 2 && Pack(Widths(), 0, 100, 0)[1].itemCount == 2
  {
    var w := Widths();
    assert w[..1][..0] == [] && w[..2][..1] == w[..1] && w[..3][..2] == w[..2] && w[..3] == w[..3];
    assert Fold(w[..1], 0, 100, 0) == PackState([], Line(1, 40, 10, 0), 40, 1);
    assert Fold(w[..2], 0, 100, 0) == PackState([], Line(2, 80, 10, 1), 80, 2);
    assert Fold(w[..3], 0, 100, 0) == PackState([Line(2, 80, 10, 1)], Line(1, 40, 10, 2), 40, 1);
    assert Fold(w, 0, 100, 0) == PackState([Line(2, 80, 10, 1)], Line(2, 70, 10, 3), 70, 2);
  }

  /** At width 70 the same items pack one, one and two. */
  lemma PackExampleNarrow()
    ensures |Pack(Widths(), 0, 70, 0)| == 3
    ensures Pack(Widths(), 0, 70, 0)[0].itemCount == 1 && Pack(Widths(), 0, 70, 0)[1].itemCount == 1
    ensures Pack(Widths(), 0, 70, 0)[2].itemCount == 2
  {
    var w := Widths();
    assert w[..1][..0] == [] && w[..2][..1] == w[..1] && w[..3][..2] == w[..2] && w[..3] == w[..3];
    assert Fold(w[..1], 0, 70, 0) == PackState([], Line(1, 40, 10, 0), 40, 1);
    assert Fold(w[..2], 0, 70, 0) == PackState([Line(1, 40, 10, 0)], Line(1, 40, 10, 1), 40, 1);
    assert Fold(w[..3], 0, 70, 0) == PackState([Line(1, 40, 10, 0), Line(1, 40, 10, 1)], Line(1, 40, 10, 2), 40, 1);
    assert Fold(w, 0, 70, 0) == PackState([Line(1, 40, 10, 0), Line(1, 40, 10, 1)], Line(2, 70, 10, 3), 70, 2);
  }

  /** A first item wider than the area: an empty line comes first. */
  lemma PackExampleOverWide()
    ensures Pack([Size(120, 10), Size(30, 10)], 0, 100, 0) == [EmptyLine, Line(1, 120, 10, 0), Line(1, 30, 10, 1)]
  {
    var w := [Size(120, 10), Size(30, 10)];
    assert w[..1][..0] == [];
    assert Fold(w[..1], 0, 100, 0) == PackState([EmptyLine], Line(1, 120, 10, 0), 120, 1);
  }
}
