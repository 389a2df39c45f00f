// CacheHelper: the size and line cache of the flow layout manager.  Sizes
// are cached per item index; lines are derived from them lazily, from the
// first item no line holds up to the first unmeasured item.

module Cache {
  import opened SizeMap
  import opened Packing

  /** The result of a lookup that finds nothing. */
  const NotFound := -1

  /** refreshLineMapStartIndex: the first item no line holds, or NotFound
      when the lines hold at least size() items. */
  function StartIndex(lines: seq<Line>, sizes: Sizes): int
  {
    if Covered(lines) >= |sizes| then NotFound else Covered(lines)
  }

  /** The lines after refreshLineMap: when the cache is active, the lines
      packed from the measured run at StartIndex are appended. */
  function Refresh(lines: seq<Line>, sizes: Sizes, areaWidth: int, cap: int): seq<Line>
  {
    if areaWidth <= 0 then lines
    else
      var start := StartIndex(lines, sizes);
      lines + Pack(Run(sizes, start), start, areaWidth, cap)
  }

  /** The lines hold, in order, the first items of the measured run from 0,
      each line built from its own items and within its limits. */
  ghost predicate LinesSound(lines: seq<Line>, sizes: Sizes, areaWidth: int, cap: int)
  {
    && 0 <= Covered(lines) <= |Run(sizes, 0)|
    && Segments(lines, Run(sizes, 0)[..Covered(lines)], 0)
    && WellPacked(lines, areaWidth, cap)
  }

  lemma PackEmpty(start: int, areaWidth: int, cap: int)
    ensures Pack([], start, areaWidth, cap) == []
  {
  }

  /** A refresh lays out every measured item up to the first hole, keeps
      the lines sound, and a second refresh adds nothing. */
  lemma RefreshMeaning(lines: seq<Line>, sizes: Sizes, areaWidth: int, cap: int)
    requires NonNegativeKeys(sizes) && areaWidth > 0
    requires LinesSound(lines, sizes, areaWidth, cap)
    ensures LinesSound(Refresh(lines, sizes, areaWidth, cap), sizes, areaWidth, cap)
    ensures Covered(Refresh(lines, sizes, areaWidth, cap)) == |Run(sizes, 0)|
    ensures Refresh(Refresh(lines, sizes, areaWidth, cap), sizes, areaWidth, cap) == Refresh(lines, sizes, areaWidth, cap)
  {
    if StartIndex(lines, sizes) == NotFound {
      RefreshNothing(lines, sizes, areaWidth, cap);
    } else {
      RefreshAppends(lines, sizes, areaWidth, cap);
    }
    RefreshDone(Refresh(lines, sizes, areaWidth, cap), sizes, areaWidth, cap);
  }

  lemma RefreshNothing(lines: seq<Line>, sizes: Sizes, areaWidth: int, cap: int)
    requires NonNegativeKeys(sizes) && areaWidth > 0
    requires LinesSound(lines, sizes, areaWidth, cap)
    requires StartIndex(lines, sizes) == NotFound
    ensures Refresh(lines, sizes, areaWidth, cap) == lines
    ensures Covered(lines) == |Run(sizes, 0)|
  {
    RunWithinSize(sizes);
    assert Get(sizes, -1) == None;
    PackEmpty(NotFound, areaWidth, cap);
    assert lines + [] == lines;
  }

  lemma RefreshAppends(lines: seq<Line>, sizes: Sizes, areaWidth: int, cap: int)
    requires areaWidth > 0
    requires LinesSound(lines, sizes, areaWidth, cap)
    requires StartIndex(lines, sizes) != NotFound
    ensures LinesSound(Refresh(lines, sizes, areaWidth, cap), sizes, areaWidth, cap)
    ensures Covered(Refresh(lines, sizes, areaWidth, cap)) == |Run(sizes, 0)|
  {
    var run := Run(sizes, 0);
    var c := Covered(lines);
    var rest := Run(sizes, c);
    var added := Pack(rest, c, areaWidth, cap);
    RunDrop(sizes, 0, c);
    assert rest == run[c..];
    var xs := run[..c];
    assert |xs| == c && xs + rest == run;
    PackSegments(rest, c, areaWidth, cap);
    PackFits(rest, c, areaWidth, cap);
    SegmentsConcat(lines, added, xs, rest, 0, c);
    CoveredConcat(lines, added);
    assert run[..|run|] == run;
    WellPackedConcat(lines, added, areaWidth, cap);
  }

  /** Once every measured item is laid out, a refresh adds nothing. */
  lemma RefreshDone(lines: seq<Line>, sizes: Sizes, areaWidth: int, cap: int)
    requires NonNegativeKeys(sizes)
    requires Covered(lines) == |Run(sizes, 0)|
    ensures Refresh(lines, sizes, areaWidth, cap) == lines
  {
    var start := StartIndex(lines, sizes);
    if start != NotFound {
      RunEnd(sizes, 0);
    } else {
      assert Get(sizes, -1) == None;
    }
    assert Run(sizes, start) == [];
    PackEmpty(start, areaWidth, cap);
    assert lines + [] == lines;
  }

  /** The loop of refreshLineMap ends with the lines stored and the current
      line cur: appending cur when it holds an item yields the refreshed
      lines. */
  lemma RefreshEnds(base: seq<Line>, sizes: Sizes, areaWidth: int, cap: int,
                    lines: seq<Line>, cur: Line, width: int, count: int, lines': seq<Line>)
    requires NonNegativeKeys(sizes) && areaWidth > 0
    requires LinesSound(base, sizes, areaWidth, cap)
    requires var st := Fold(Run(sizes, StartIndex(base, sizes)), StartIndex(base, sizes), areaWidth, cap);
             PackState(base + st.done, st.cur, st.width, st.count) == PackState(lines, cur, width, count)
    requires lines' == if cur.itemCount > 0 then lines + [cur] else lines
    ensures lines' == Refresh(base, sizes, areaWidth, cap)
    ensures LinesSound(lines', sizes, areaWidth, cap)
    ensures Covered(lines') == |Run(sizes, 0)|
    ensures Refresh(lines', sizes, areaWidth, cap) == lines'
  {
    var st := Fold(Run(sizes, StartIndex(base, sizes)), StartIndex(base, sizes), areaWidth, cap);
    assert base + st.done + [cur] == base + (st.done + [cur]);
    RefreshMeaning(base, sizes, areaWidth, cap);
  }

  /** Keeping a prefix of sound lines keeps them sound. */
  lemma SoundPrefix(lines: seq<Line>, sizes: Sizes, areaWidth: int, cap: int, k: int)
    requires LinesSound(lines, sizes, areaWidth, cap) && 0 <= k <= |lines|
    ensures LinesSound(lines[..k], sizes, areaWidth, cap)
  {
    PrefixOfRun(lines, Run(sizes, 0), areaWidth, cap, k);
  }

  lemma PrefixOfRun(lines: seq<Line>, run: seq<Size>, areaWidth: int, cap: int, k: int)
    requires 0 <= Covered(lines) <= |run| && Segments(lines, run[..Covered(lines)], 0)
    requires WellPacked(lines, areaWidth, cap) && 0 <= k <= |lines|
    ensures 0 <= Covered(lines[..k]) <= |run| && Segments(lines[..k], run[..Covered(lines[..k])], 0)
    ensures WellPacked(lines[..k], areaWidth, cap)
  {
    var c := Covered(lines);
    SegmentsPrefix(lines, run[..c], 0, k);
    var c' := Covered(lines[..k]);
    assert run[..c][..c'] == run[..c'];
    forall l | 0 <= l < k
      ensures Fits(lines[..k][l], areaWidth, cap)
    {
      assert lines[..k][l] == lines[l];
    }
  }

  /** Sound lines stay sound when no size before the last item they hold
      changes. */
  lemma SoundFrame(lines: seq<Line>, sizes: Sizes, sizes': Sizes, areaWidth: int, cap: int, s: int)
    requires LinesSound(lines, sizes, areaWidth, cap) && Covered(lines) <= s
    requires forall k :: 0 <= k < s ==> Get(sizes', k) == Get(sizes, k)
    ensures LinesSound(lines, sizes', areaWidth, cap)
  {
    RunAgree(sizes, sizes', 0, Covered(lines));
  }

  /** Storing a size at index keeps lines holding no item from index on
      sound, and the keys below the larger bound. */
  lemma PutSound(lines: seq<Line>, m: Sizes, index: int, v: Option<Size>, areaWidth: int, cap: int, bound: int)
    requires LinesSound(lines, m, areaWidth, cap) && Covered(lines) <= index
    requires 0 <= index && 0 <= bound && KeysIn(m, bound)
    ensures LinesSound(lines, m[index := v], areaWidth, cap)
    ensures KeysIn(m[index := v], if index < bound then bound else index + 1)
  {
    SoundFrame(lines, m, m[index := v], areaWidth, cap, index);
  }

  /** add(s, vals) keeps lines holding no item from s on sound. */
  lemma InsertSound(lines: seq<Line>, m: Sizes, s: int, vals: seq<Option<Size>>, areaWidth: int, cap: int, bound: int)
    requires LinesSound(lines, m, areaWidth, cap) && Covered(lines) <= s
    requires 0 <= s && 0 <= bound && KeysIn(m, bound)
    ensures LinesSound(lines, InsertResult(m, s, vals), areaWidth, cap)
    ensures KeysIn(InsertResult(m, s, vals), bound + |vals| + s + |vals|)
  {
    MakeSpaceFrame(m, s, |vals|, bound);
    PlaceFrame(MakeSpaceResult(m, s, |vals|), s, vals, bound + |vals|);
    SoundFrame(lines, m, InsertResult(m, s, vals), areaWidth, cap, s);
  }

  /** add(s, c) keeps lines holding no item from s on sound. */
  lemma MakeSpaceSound(lines: seq<Line>, m: Sizes, s: int, c: int, areaWidth: int, cap: int, bound: int)
    requires LinesSound(lines, m, areaWidth, cap) && Covered(lines) <= s
    requires 0 <= s && 0 <= c && 0 <= bound && KeysIn(m, bound)
    ensures LinesSound(lines, MakeSpaceResult(m, s, c), areaWidth, cap)
    ensures KeysIn(MakeSpaceResult(m, s, c), bound + c)
  {
    MakeSpaceFrame(m, s, c, bound);
    SoundFrame(lines, m, MakeSpaceResult(m, s, c), areaWidth, cap, s);
  }

  /** invalidSizes(index, count) keeps lines holding no item from index on
      sound. */
  lemma RemoveRangeSound(lines: seq<Line>, m: Sizes, index: int, a: int, areaWidth: int, cap: int, bound: int)
    requires LinesSound(lines, m, areaWidth, cap) && Covered(lines) <= index
    requires KeysIn(m, bound)
    ensures LinesSound(lines, RemoveRange(m, index, a), areaWidth, cap)
    ensures KeysIn(RemoveRange(m, index, a), bound)
  {
    RemoveRangeFrame(m, index, a, bound);
    SoundFrame(lines, m, RemoveRange(m, index, a), areaWidth, cap, index);
  }

  /** remove(index, count) keeps lines holding no item from index on sound. */
  lemma RemovedSound(lines: seq<Line>, m: Sizes, index: int, count: int, m': Sizes, areaWidth: int, cap: int, bound: int)
    requires LinesSound(lines, m, areaWidth, cap) && Covered(lines) <= index
    requires 0 <= index && 0 <= count && 0 <= bound && KeysIn(m, bound) && RemovedBy(m, index, count, m')
    ensures LinesSound(lines, m', areaWidth, cap)
    ensures KeysIn(m', if index <= bound then bound else index)
  {
    RemoveFrame(m, index, count, m', bound);
    SoundFrame(lines, m, m', areaWidth, cap, index);
  }

  /** move(from, to, count) keeps lines holding no item from the smaller of
      from and to on sound. */
  lemma MoveSound(lines: seq<Line>, m: Sizes, from: int, to: int, count: int, areaWidth: int, cap: int, bound: int)
    requires LinesSound(lines, m, areaWidth, cap) && Covered(lines) <= if from < to then from else to
    requires 0 <= from && 0 <= to && 0 <= count && (to < from || to >= from + count)
    requires 0 <= bound && KeysIn(m, bound)
    ensures LinesSound(lines, MoveResult(m, from, to, count), areaWidth, cap)
    ensures KeysIn(MoveResult(m, from, to, count), bound + from + to + count)
  {
    MoveFrame(m, from, to, count, bound);
    SoundFrame(lines, m, MoveResult(m, from, to, count), areaWidth, cap, if from < to then from else to);
  }

  lemma CoveredStep(lines: seq<Line>, i: int)
    requires 0 <= i < |lines|
    ensures Covered(lines[..i + 1]) == Covered(lines[..i]) + lines[i].itemCount
  {
    assert lines[..i + 1][..i] == lines[..i];
  }

  /** One more line scanned by itemLineIndex: when no earlier line reaches
      item i, line l is the answer exactly when the count through it does. */
  lemma LineIndexStep(lines: seq<Line>, l: int, i: int)
    requires 0 <= l < |lines| && LineIndexOf(lines[..l], i) == NotFound
    ensures LineIndexOf(lines[..l + 1], i) == if Covered(lines[..l + 1]) >= i + 1 then l else NotFound
  {
    assert lines[..l + 1][..l] == lines[..l];
  }

  /** lineMap.get(l, null): the line stored under key l, if any. */
  function LineAt(lines: seq<Line>, l: int): (r: Option<Line>)
    ensures r.Some? <==> 0 <= l < |lines|
    ensures r.Some? ==> r.value == lines[l]
  {
    if 0 <= l < |lines| then Some(lines[l]) else None
  }

  class CacheHelper {
    const itemPerLine: int
    var contentAreaWidth: int
    /** sizeMap */
    var sizes: Sizes
    /** lineMap: its keys are always 0 .. |lines| - 1 */
    var lines: seq<Line>
    /** Every stored key is below keyBound. */
    ghost var keyBound: int

    /** Every stored key lies in 0 .. keyBound - 1. */
    ghost predicate KeysBelow()
      reads this`sizes, this`keyBound
    {
      0 <= keyBound && KeysIn(sizes, keyBound)
    }

    ghost predicate Valid()
      reads this
    {
      KeysBelow() && LinesSound(lines, sizes, contentAreaWidth, itemPerLine)
    }

    /** valid(): the cache works only with a positive content width. */
    predicate Active(): (r: bool)
      reads this
      ensures r <==> contentAreaWidth > 0
    {
      contentAreaWidth > 0
    }

    constructor(itemsPerLine: int, contentAreaWidth: int)
      ensures Valid()
      ensures this.itemPerLine == itemsPerLine && this.contentAreaWidth == contentAreaWidth
      ensures sizes == map[] && lines == []
    {
      this.itemPerLine := itemsPerLine;
      this.contentAreaWidth := contentAreaWidth;
      sizes := map[];
      lines := [];
      keyBound := 0;
    }

    method RefreshLineMapStartIndex() returns (r: int)
      ensures r == StartIndex(lines, sizes)
    {
      var itemCount := 0;
      var i := 0;
      while i < |lines|
        invariant 0 <= i <= |lines|
        invariant itemCount == Covered(lines[..i])
      {
        CoveredStep(lines, i);
        itemCount := itemCount + lines[i].itemCount;
        i := i + 1;
      }
      assert lines[..|lines|] == lines;
      if itemCount >= |sizes| {
        return NotFound;
      }
      return itemCount;
    }

    /** refreshLineMap: append the lines packed from the first item no line
        holds, up to the first unmeasured item. */
    method RefreshLineMap()
      requires Valid()
      modifies this`lines
      ensures Valid()
      ensures lines == Refresh(old(lines), sizes, contentAreaWidth, itemPerLine)
      ensures Active() ==> Covered(lines) == |Run(sizes, 0)|
      ensures Refresh(lines, sizes, contentAreaWidth, itemPerLine) == lines
    {
      if !Active() {
        return;
      }
      var index := RefreshLineMapStartIndex();
      ghost var start := index;
      ghost var base := lines;
      ghost var run := Run(sizes, start);
      var cachedSize := Get(sizes, index);
      var lineWidth := 0;
      var lineIndex := |lines|;
      var lineItemCount := 0;
      var currentLine := EmptyLine;
      FoldToStart(base, run, start, contentAreaWidth, itemPerLine);
      while cachedSize.Some?
        invariant start <= index <= start + |run|
        invariant cachedSize == Get(sizes, index)
        invariant lineIndex == |lines|
        invariant FoldTo(base, run, index - start, start, contentAreaWidth, itemPerLine)
                  == PackState(lines, currentLine, lineWidth, lineItemCount)
        decreases start + |run| - index
      {
        RunGoes(sizes, start, index);
        var size := cachedSize.value;
        FoldToNext(base, run, index - start, start, contentAreaWidth, itemPerLine, size, index,
                   lines, currentLine, lineWidth, lineItemCount);
        lineWidth := lineWidth + size.x;
        lineItemCount := lineItemCount + 1;
        if lineWidth <= contentAreaWidth {
          if itemPerLine > 0 {
            if lineItemCount > itemPerLine {
              // the per-line cap is exceeded: this item opens the next line
              lines := lines + [currentLine];
              currentLine := AddToLine(EmptyLine, size, index);
              lineIndex := lineIndex + 1;
              lineWidth := size.x;
              lineItemCount := 1;
            } else {
              currentLine := AddToLine(currentLine, size, index);
            }
          } else {
            currentLine := AddToLine(currentLine, size, index);
          }
        } else {
          // too wide: store the current line and open the next with this item
          lines := lines + [currentLine];
          currentLine := AddToLine(EmptyLine, size, index);
          lineIndex := lineIndex + 1;
          lineWidth := size.x;
          lineItemCount := 1;
        }
        index := index + 1;
        cachedSize := Get(sizes, index);
      }
      RunStops(sizes, start, index);
      FoldToAll(base, run, start, contentAreaWidth, itemPerLine);
      ghost var stored := lines;
      if currentLine.itemCount > 0 {
        lines := lines + [currentLine];
      }
      RefreshEnds(base, sizes, contentAreaWidth, itemPerLine, stored, currentLine, lineWidth, lineItemCount, lines);
    }

    /** itemLineIndex: the line holding item itemIndex after a refresh. */
    method ItemLineIndex(itemIndex: int) returns (r: int)
      requires Valid()
      modifies this`lines
      ensures Valid()
      ensures lines == Refresh(old(lines), sizes, contentAreaWidth, itemPerLine)
      ensures r == if Active() then LineIndexOf(lines, itemIndex) else NotFound
    {
      if !Active() {
        return NotFound;
      }
      RefreshLineMap();
      r := ScanLines(itemIndex);
    }

    /** The scan of itemLineIndex: the first line whose running count
        reaches itemIndex + 1, or NotFound. */
    method ScanLines(itemIndex: int) returns (r: int)
      ensures r == LineIndexOf(lines, itemIndex)
    {
      var itemCount := 0;
      var i := 0;
      while i < |lines|
        invariant 0 <= i <= |lines|
        invariant itemCount == Covered(lines[..i])
        invariant LineIndexOf(lines[..i], itemIndex) == NotFound
      {
        CoveredStep(lines, i);
        LineIndexStep(lines, i, itemIndex);
        itemCount := itemCount + lines[i].itemCount;
        if itemCount >= itemIndex + 1 {
          LineIndexOfPrefix(lines, i + 1, itemIndex);
          return i;
        }
        i := i + 1;
      }
      assert lines[..|lines|] == lines;
      return NotFound;
    }

    /** invalidateLineMapAfter: drop the line holding item itemIndex and
        every line after it; when no line holds it, drop the last line. */
    method InvalidateLineMapAfter(itemIndex: int)
      requires Valid()
      modifies this`lines
      ensures Valid()
      ensures lines == if Active() then Truncated(Refresh(old(lines), sizes, contentAreaWidth, itemPerLine), itemIndex)
                       else if |old(lines)| > 0 then old(lines)[..|old(lines)| - 1] else old(lines)
      ensures Active() && itemIndex >= 0 ==> Covered(lines) <= itemIndex
    {
      var itemLineIndex := ItemLineIndex(itemIndex);
      ghost var refreshed := lines;
      var line := LineAt(lines, itemLineIndex);
      if line.None? && |lines| > 0 {
        lines := lines[..|lines| - 1];
      }
      if line.Some? {
        RemoveLinesFrom(itemLineIndex);
      }
      SoundPrefix(refreshed, sizes, contentAreaWidth, itemPerLine, |lines|);
      if Active() && itemIndex >= 0 {
        TruncatedMeaning(refreshed, itemIndex);
      }
    }

    /** The loop of invalidateLineMapAfter: remove the line under l and every
        line after it, until no line is stored under l. */
    method RemoveLinesFrom(l: int)
      requires 0 <= l < |lines|
      modifies this`lines
      ensures lines == old(lines)[..l]
    {
      ghost var original := lines;
      var line := LineAt(lines, l);
      while line.Some?
        invariant l <= |lines| <= |original| && lines == original[..|lines|]
        invariant line == LineAt(lines, l)
        decreases |lines|
      {
        lines := lines[..|lines| - 1];
        line := LineAt(lines, l);
      }
    }

    /** getLine: the line stored under lineIndex after a refresh, if any. */
    method GetLine(lineIndex: int) returns (r: Option<Line>)
      requires Valid()
      modifies this`lines
      ensures Valid()
      ensures lines == Refresh(old(lines), sizes, contentAreaWidth, itemPerLine)
      ensures r == if Active() then LineAt(lines, lineIndex) else None
    {
      if !Active() {
        return None;
      }
      RefreshLineMap();
      return LineAt(lines, lineIndex);
    }

    /** containingLine: the line holding item itemIndex, if any. */
    method ContainingLine(itemIndex: int) returns (r: Option<Line>)
      requires Valid()
      modifies this`lines
      ensures Valid()
      ensures lines == Refresh(old(lines), sizes, contentAreaWidth, itemPerLine)
      ensures r == if Active() then LineAt(lines, LineIndexOf(lines, itemIndex)) else None
    {
      if !Active() {
        return None;
      }
      RefreshLineMap();
      var l := ItemLineIndex(itemIndex);
      r := GetLine(l);
    }

    /** firstItemIndex: the number of items the lines before lineIndex hold.
        A lineIndex past the last line reads a missing line. */
    method FirstItemIndex(lineIndex: int) returns (r: int)
      requires Valid()
      requires Active() ==> lineIndex <= |Refresh(lines, sizes, contentAreaWidth, itemPerLine)|
      modifies this`lines
      ensures Valid()
      ensures lines == Refresh(old(lines), sizes, contentAreaWidth, itemPerLine)
      ensures r == if !Active() then NotFound else if lineIndex <= 0 then 0 else Covered(lines[..lineIndex])
    {
      if !Active() {
        return NotFound;
      }
      RefreshLineMap();
      r := ItemsBefore(lineIndex);
    }

    /** The loop of firstItemIndex: the item counts of the lines before
        lineIndex, summed. */
    method ItemsBefore(lineIndex: int) returns (r: int)
      requires lineIndex <= |lines|
      ensures r == if lineIndex <= 0 then 0 else Covered(lines[..lineIndex])
    {
      var itemCount := 0;
      var i := 0;
      while i < lineIndex
        invariant 0 <= i <= if lineIndex > 0 then lineIndex else 0
        invariant itemCount == Covered(lines[..i])
      {
        CoveredStep(lines, i);
        itemCount := itemCount + lines[i].itemCount;
        i := i + 1;
      }
      return itemCount;
    }

    /** hasPreviousLineCached: item itemIndex is laid out on a line after the
        first. */
    method HasPreviousLineCached(itemIndex: int) returns (b: bool)
      requires Valid()
      modifies this`lines
      ensures Valid()
      ensures lines == Refresh(old(lines), sizes, contentAreaWidth, itemPerLine)
      ensures b <==> Active() && LineIndexOf(lines, itemIndex) > 0
    {
      if !Active() {
        return false;
      }
      RefreshLineMap();
      var lineIndex := ItemLineIndex(itemIndex);
      if lineIndex == NotFound {
        return false;
      }
      if lineIndex > 0 {
        return true;
      }
      return false;
    }

    /** hasNextLineCached: item itemIndex is laid out and a line follows its
        line. */
    method HasNextLineCached(itemIndex: int) returns (b: bool)
      requires Valid()
      modifies this`lines
      ensures Valid()
      ensures lines == Refresh(old(lines), sizes, contentAreaWidth, itemPerLine)
      ensures b <==> Active() && LineIndexOf(lines, itemIndex) != NotFound && LineIndexOf(lines, itemIndex) + 1 < |lines|
    {
      if !Active() {
        return false;
      }
      RefreshLineMap();
      var lineIndex := ItemLineIndex(itemIndex);
      if lineIndex == NotFound {
        return false;
      }
      return LineAt(lines, lineIndex + 1).Some?;
    }

    /** getLineMap: the item count of every line, after a refresh. */
    method GetLineMap() returns (counts: array<int>)
      requires Valid()
      modifies this`lines
      ensures Valid()
      ensures lines == Refresh(old(lines), sizes, contentAreaWidth, itemPerLine)
      ensures fresh(counts)
      ensures counts.Length == if Active() then |lines| else 0
      ensures forall l :: 0 <= l < counts.Length ==> counts[l] == lines[l].itemCount
    {
      if !Active() {
        return new int[0];
      }
      RefreshLineMap();
      counts := ItemCounts();
    }

    /** The loop of getLineMap: a new array holding each line's item count. */
    method ItemCounts() returns (counts: array<int>)
      ensures fresh(counts)
      ensures counts.Length == |lines|
      ensures forall l :: 0 <= l < |lines| ==> counts[l] == lines[l].itemCount
    {
      counts := new int[|lines|];
      var i := 0;
      while i < |lines|
        invariant 0 <= i <= |lines| == counts.Length
        invariant forall l :: 0 <= l < i ==> counts[l] == lines[l].itemCount
      {
        counts[i] := lines[i].itemCount;
        i := i + 1;
      }
    }

    /** clear: forget every size and every line. */
    method Clear()
      modifies this`sizes, this`lines, this`keyBound
      ensures Valid()
      ensures sizes == map[] && lines == []
    {
      sizes := map[];
      lines := [];
      keyBound := 0;
    }

    /** contentAreaWidth(width): a new width invalidates every line; the
        lines are then rebuilt from the cached sizes. */
    method SetContentAreaWidth(width: int)
      requires Valid()
      modifies this`contentAreaWidth, this`lines
      ensures Valid()
      ensures contentAreaWidth == width
      ensures lines == Refresh([], sizes, width, itemPerLine)
    {
      contentAreaWidth := width;
      lines := [];
      RefreshLineMap();
    }

    // -------------------------------------------------------------------
    // The operations that change the size map.  Each first drops the lines
    // from the one holding the first changed item on, so the lines left
    // only hold items whose sizes the operation keeps.

    /** add(startIndex, sizes): open room for the new items at startIndex
        and store their sizes there. */
    method Add(startIndex: int, vals: seq<Size>)
      requires Valid() && 0 <= startIndex
      modifies this`sizes, this`lines, this`keyBound
      ensures Valid()
      ensures !Active() ==> sizes == old(sizes) && lines == old(lines)
      ensures Active() ==> sizes == InsertResult(old(sizes), startIndex, Measured(vals))
      ensures Active() ==> lines == Truncated(Refresh(old(lines), old(sizes), contentAreaWidth, itemPerLine), startIndex)
    {
      if !Active() {
        return;
      }
      InvalidateLineMapAfter(startIndex);
      InsertSound(lines, sizes, startIndex, Measured(vals), contentAreaWidth, itemPerLine, keyBound);
      Insert(startIndex, Measured(vals));
      keyBound := keyBound + |vals| + startIndex + |vals|;
    }

    /** add(startIndex, count): open room for count unmeasured items at
        startIndex. */
    method AddUnmeasured(startIndex: int, count: int)
      requires Valid() && 0 <= startIndex && 0 <= count
      modifies this`sizes, this`lines, this`keyBound
      ensures Valid()
      ensures !Active() ==> sizes == old(sizes) && lines == old(lines)
      ensures Active() ==> sizes == MakeSpaceResult(old(sizes), startIndex, count)
      ensures Active() ==> lines == Truncated(Refresh(old(lines), old(sizes), contentAreaWidth, itemPerLine), startIndex)
    {
      if !Active() {
        return;
      }
      InvalidateLineMapAfter(startIndex);
      MakeSpaceSound(lines, sizes, startIndex, count, contentAreaWidth, itemPerLine, keyBound);
      MakeSpace(startIndex, count);
      keyBound := keyBound + count;
    }

    /** invalidSizes(index, count): forget the sizes of index .. index +
        count - 1, clamped to size() items; the items stay where they are. */
    method InvalidSizes(index: int, count: int)
      requires Valid() && 0 <= index
      modifies this`sizes, this`lines
      ensures Valid()
      ensures !Active() ==> sizes == old(sizes) && lines == old(lines)
      ensures Active() ==> sizes == RemoveRange(old(sizes), index, ActualCount(|old(sizes)|, index, count))
      ensures Active() ==> lines == Truncated(Refresh(old(lines), old(sizes), contentAreaWidth, itemPerLine), index)
    {
      if !Active() {
        return;
      }
      InvalidateLineMapAfter(index);
      var actualCount := ActualCount(|sizes|, index, count);
      RemoveRangeSound(lines, sizes, index, actualCount, contentAreaWidth, itemPerLine, keyBound);
      RemoveEntries(index, actualCount);
    }

    /** remove(index, count): drop the sizes of index .. index + count - 1,
        clamped to size() items, and move the later entries down over the
        hole. */
    method Remove(index: int, count: int)
      requires Valid() && 0 <= index && 0 <= count
      modifies this`sizes, this`lines, this`keyBound
      ensures Valid()
      ensures !Active() ==> sizes == old(sizes) && lines == old(lines)
      ensures Active() ==> RemovedBy(old(sizes), index, count, sizes)
      ensures Active() ==> lines == Truncated(Refresh(old(lines), old(sizes), contentAreaWidth, itemPerLine), index)
    {
      if !Active() {
        return;
      }
      InvalidateLineMapAfter(index);
      ghost var m := sizes;
      Delete(index, count, keyBound);
      RemovedSound(lines, m, index, count, sizes, contentAreaWidth, itemPerLine, keyBound);
      keyBound := if index <= keyBound then keyBound else index;
    }

    /** setItem(index, newSize): store a new size; a size equal to the one
        cached changes nothing, not even the lines. */
    method SetItem(index: int, newSize: Size)
      requires Valid() && 0 <= index
      modifies this`sizes, this`lines, this`keyBound
      ensures Valid()
      ensures sizes == if Active() then old(sizes)[index := Some(newSize)] else old(sizes)
      ensures lines == if Active() && Get(old(sizes), index) != Some(newSize)
                       then Truncated(Refresh(old(lines), old(sizes), contentAreaWidth, itemPerLine), index)
                       else old(lines)
    {
      if !Active() {
        return;
      }
      var cached := Get(sizes, index);
      if cached.Some? {
        if cached.value != newSize {
          Put(index, newSize);
        } else {
          assert sizes == sizes[index := Some(newSize)];
        }
      } else {
        Put(index, newSize);
      }
    }

    /** The changing branch of setItem: drop the lines from the one holding
        index on, then store the size. */
    method Put(index: int, newSize: Size)
      requires Valid() && Active() && 0 <= index
      modifies this`sizes, this`lines, this`keyBound
      ensures Valid()
      ensures sizes == old(sizes)[index := Some(newSize)]
      ensures lines == Truncated(Refresh(old(lines), old(sizes), contentAreaWidth, itemPerLine), index)
    {
      InvalidateLineMapAfter(index);
      PutSound(lines, sizes, index, Some(newSize), contentAreaWidth, itemPerLine, keyBound);
      sizes := sizes[index := Some(newSize)];
      keyBound := if index < keyBound then keyBound else index + 1;
    }

    /** move(from, to, count): move the count entries at from so that they
        start at to, shifting the entries between the two places by count
        to close the gap. */
    method Move(from: int, to: int, count: int)
      requires Valid() && 0 <= from && 0 <= to && 0 <= count && (to < from || to >= from + count)
      modifies this`sizes, this`lines, this`keyBound
      ensures Valid()
      ensures !Active() ==> sizes == old(sizes) && lines == old(lines)
      ensures Active() ==> sizes == MoveResult(old(sizes), from, to, count)
      ensures Active() ==> lines == Truncated(Refresh(old(lines), old(sizes), contentAreaWidth, itemPerLine), if from < to then from else to)
    {
      if !Active() {
        return;
      }
      InvalidateLineMapAfter(if from < to then from else to);
      MoveSound(lines, sizes, from, to, count, contentAreaWidth, itemPerLine, keyBound);
      Relocate(from, to, count);
      keyBound := keyBound + from + to + count;
    }

    // -------------------------------------------------------------------
    // The loops over the size map, each a method of its own.

    /** makeSpace(startIndex, count): move every entry from startIndex up to
        size() - 1 up by count, visiting the indices downwards, then remove
        startIndex .. startIndex + count - 1 (the same loop as the first loop
        of invalidSizes). */
    method MakeSpace(startIndex: int, count: int)
      requires count >= 0
      modifies this`sizes
      ensures sizes == MakeSpaceResult(old(sizes), startIndex, count)
    {
      ShiftUp(startIndex, count);
      RemoveEntries(startIndex, count);
    }

    /** The size-map part of add: makeSpace, then the loop storing vals
        from s on. */
    method Insert(s: int, vals: seq<Option<Size>>)
      modifies this`sizes
      ensures sizes == InsertResult(old(sizes), s, vals)
    {
      MakeSpace(s, |vals|);
      Store(s, vals);
    }

    /** The size-map part of move: copy the block, shift the entries
        between, store the block where the shifting ends. */
    method Relocate(from: int, to: int, count: int)
      requires 0 <= count && (to < from || to >= from + count)
      modifies this`sizes
      ensures sizes == MoveResult(old(sizes), from, to, count)
    {
      ghost var m := sizes;
      var itemsToMove := ReadBlock(from, count);
      var setIndex := ShiftBetween(from, to, count);
      Store(setIndex, itemsToMove[..]);
      MoveByLoops(m, from, to, count);
    }

    /** The size-map part of remove: drop the clamped range, then move the
        later entries down over the hole.  bound bounds the keys. */
    method Delete(index: int, count: int, ghost bound: int)
      requires 0 <= index && 0 <= count && 0 <= bound && KeysIn(sizes, bound)
      modifies this`sizes
      ensures RemovedBy(old(sizes), index, count, sizes)
    {
      ghost var m := sizes;
      var actualCount := ActualCount(|sizes|, index, count);
      RemoveEntries(index, actualCount);
      if actualCount >= 0 {
        RemoveRangeFrame(m, index, actualCount, bound);
        RemoveRangeGap(m, index, actualCount);
        ghost var e := ShiftDown(index, actualCount, bound);
      } else {
        // index > size(): nothing is removed and the second loop starts at
        // size(), past its bound
        assert Range(index, index + actualCount) == {};
      }
    }

    /** The first loop of makeSpace. */
    method ShiftUp(startIndex: int, count: int)
      requires count >= 0
      modifies this`sizes
      ensures sizes == Overlay(old(sizes), startIndex, |old(sizes)|, count)
    {
      ghost var m := sizes;
      ghost var n := |m|;
      var i := |sizes| - 1;
      assert sizes == Overlay(m, i + 1, n, count) by { OverlayEmpty(m, n, n, count); }
      while i >= startIndex
        invariant i < n && (startIndex - 1 <= i || i == n - 1)
        invariant sizes == Overlay(m, i + 1, n, count)
        decreases i + 1 - startIndex
      {
        ShiftUpStep(m, i, n, count, sizes);
        sizes := sizes[i + count := Get(sizes, i)];
        i := i - 1;
      }
      if startIndex > n {
        OverlayEmpty(m, startIndex, n, count);
        OverlayEmpty(m, n, n, count);
      } else {
        assert i + 1 == startIndex;
      }
    }

    /** The storing loop of add and move: put vals[j] at s + j. */
    method Store(s: int, vals: seq<Option<Size>>)
      modifies this`sizes
      ensures sizes == Place(old(sizes), s, vals)
    {
      ghost var m := sizes;
      var index := s;
      var j := 0;
      assert Place(m, s, vals[..0]) == m by {
        assert Range(s, s) == {};
        SameEntries(Place(m, s, vals[..0]), m);
      }
      while j < |vals|
        invariant 0 <= j <= |vals| && index == s + j
        invariant sizes == Place(m, s, vals[..j])
      {
        PlaceStep(m, s, vals, j);
        sizes := sizes[index := vals[j]];
        index := index + 1;
        j := j + 1;
      }
      assert vals[..|vals|] == vals;
    }

    /** The first loop of move: copy the count entries at from. */
    method ReadBlock(from: int, count: int) returns (items: array<Option<Size>>)
      requires 0 <= count
      ensures fresh(items)
      ensures items[..] == Block(sizes, from, count)
    {
      items := new Option<Size>[count](_ => None);
      var i := from;
      while i < from + count
        invariant from <= i <= from + count
        invariant forall j :: 0 <= j < i - from ==> items[j] == Get(sizes, from + j)
      {
        items[i - from] := Get(sizes, i);
        i := i + 1;
      }
    }

    /** The shifting loop of move: toward the front, the entries to ..
        from - 1 move up by count, visited downwards; toward the back, the
        entries from + count .. to - 1 move down by count, visited upwards.
        The result is where the block is then stored. */
    method ShiftBetween(from: int, to: int, count: int) returns (setIndex: int)
      requires 0 <= count && (to < from || to >= from + count)
      modifies this`sizes
      ensures sizes == MoveShifted(old(sizes), from, to, count, if to < from then to - 1 else to)
      ensures setIndex == if to < from then to else to - count
    {
      ghost var m := sizes;
      var movingForward := from - to > 0;
      var itemsToShift := if from - to >= 0 then from - to else to - from;
      if !movingForward {
        itemsToShift := itemsToShift - count;
      }
      var shiftIndex := if movingForward then from - 1 else from + count;
      var shiftIndexStep := if movingForward then -1 else 1;
      var shifted := 0;
      MoveShiftedStart(m, from, to, count);
      while shifted < itemsToShift
        invariant 0 <= shifted <= itemsToShift
        invariant movingForward <==> to < from
        invariant shiftIndexStep == if movingForward then -1 else 1
        invariant shiftIndex == if movingForward then from - 1 - shifted else from + count + shifted
        invariant sizes == MoveShifted(m, from, to, count, shiftIndex)
      {
        CopyOver(m, from, to, count, shiftIndex, shiftIndexStep);
        shiftIndex := shiftIndex + shiftIndexStep;
        shifted := shifted + 1;
      }
      setIndex := to;
      if !movingForward {
        setIndex := from + itemsToShift;
      }
    }

    /** One round of move's shifting loop: copy the entry at shiftIndex
        count places against the direction of the step. */
    method CopyOver(ghost m: Sizes, ghost from: int, ghost to: int, count: int, shiftIndex: int, shiftIndexStep: int)
      requires 0 <= count && shiftIndexStep == if to < from then -1 else 1
      requires to < from ==> shiftIndex < from
      requires to >= from ==> from + count <= shiftIndex
      requires sizes == MoveShifted(m, from, to, count, shiftIndex)
      modifies this`sizes
      ensures sizes == MoveShifted(m, from, to, count, shiftIndex + shiftIndexStep)
    {
      if to < from {
        ShiftedFrontStep(m, from, to, count, shiftIndex, sizes);
        assert shiftIndex - shiftIndexStep * count == shiftIndex + count;
      } else {
        ShiftedBackStep(m, from, to, count, shiftIndex, sizes);
        assert shiftIndex - shiftIndexStep * count == shiftIndex - count;
      }
      sizes := sizes[shiftIndex - shiftIndexStep * count := Get(sizes, shiftIndex)];
    }

    /** The first loop of invalidSizes and remove: remove index + i for
        i = 0 .. a - 1. */
    method RemoveEntries(index: int, a: int)
      modifies this`sizes
      ensures sizes == RemoveRange(old(sizes), index, a)
    {
      ghost var m := sizes;
      assert Range(index, index) == {};
      var i := 0;
      while i < a
        invariant 0 <= i <= if a >= 0 then a else 0
        invariant sizes == m - Range(index, index + i)
      {
        RemoveStep(m, index, index + i);
        sizes := sizes - {index + i};
        i := i + 1;
      }
      if a < 0 {
        assert Range(index, index + a) == {} == Range(index, index + i);
      }
    }

    /** The second loop of remove: for i from index + a while
        i < size() + a, move the entry at i down to i - a. It starts after
        the first loop has removed index .. index + a - 1; bound bounds the
        keys and so the number of iterations. */
    method ShiftDown(index: int, a: int, ghost bound: int) returns (ghost e: int)
      requires 0 <= index && 0 <= a && 0 <= bound && KeysIn(sizes, bound)
      requires forall k :: k in sizes ==> !(index <= k < index + a)
      modifies this`sizes
      ensures ShiftDownStopsAt(old(sizes), index, a, e)
      ensures sizes == ShiftDownState(old(sizes), index, a, e)
    {
      ghost var r := sizes;
      ghost var stop := ShiftDownStopFrom(r, index, a, index + a, bound);
      var i := index + a;
      ShiftDownStart(r, index, a);
      while i < |sizes| + a
        invariant index + a <= i <= stop && sizes == ShiftDownState(r, index, a, i)
        decreases stop - i
      {
        MoveDown(r, index, a, i, stop);
        i := i + 1;
      }
      ShiftDownStopsFirst(r, index, a, i, stop);
      assert i == stop && r == old(sizes);
      e := stop;
    }

    /** One iteration of remove's second loop, run while the guard holds:
        tmp = get(i); remove(i); put(i - a, tmp). The loop stops at stop,
        so the iteration is before it. */
    method MoveDown(ghost r: Sizes, ghost index: int, a: int, i: int, ghost stop: int)
      requires 0 <= a && index + a <= i <= stop && ShiftDownStopsAt(r, index, a, stop)
      requires sizes == ShiftDownState(r, index, a, i) && i < |sizes| + a
      modifies this`sizes
      ensures i < stop
      ensures sizes == ShiftDownState(r, index, a, i + 1)
    {
      assert ShiftDownGoes(r, index, a, i);
      ShiftDownNext(r, index, a, i, sizes);
      var tmp := Get(sizes, i);
      sizes := sizes - {i};
      sizes := sizes[i - a := tmp];
    }
  }
}
