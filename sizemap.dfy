// The size cache of the flow layout: a sparse map from item index to the
// measured size of that item.  An index that is absent, or present with no
// size, is a hole: an item that has not been measured yet.

module SizeMap {

  datatype Option<T> = None | Some(value: T)

  /** A measured item size: x is the width, y the height. */
  datatype Size = Size(x: int, y: int)

  /** The sparse size map.  A key may be stored with no size (a stored null). */
  type Sizes = map<int, Option<Size>>

  /** Reading an index: both an absent key and a stored null read as a hole. */
  function Get(m: Sizes, k: int): Option<Size>
  {
    if k in m then m[k] else None
  }

  /** Every integer is a candidate item index; the predicate gives range
      comprehensions a term to trigger on. */
  predicate Index(k: int)
  {
    true
  }

  /** The indices lo, lo + 1, ..., hi - 1. */
  function Range(lo: int, hi: int): set<int>
  {
    set k | Index(k) && lo <= k < hi
  }

  /** Every key of m is a valid (non-negative) item index. */
  ghost predicate NonNegativeKeys(m: Sizes)
  {
    forall k :: k in m ==> k >= 0
  }

  /** m stores exactly the indices 0 .. n - 1: the layout's intended shape. */
  ghost predicate Dense(m: Sizes, n: int)
  {
    m.Keys == Range(0, n)
  }

  lemma {:induction false} RangeSize(lo: int, hi: int)
    requires lo <= hi
    ensures |Range(lo, hi)| == hi - lo
    decreases hi - lo
  {
    if lo < hi {
      RangeSize(lo + 1, hi);
      assert Range(lo, hi) == Range(lo + 1, hi) + {lo};
    } else {
      assert Range(lo, hi) == {};
    }
  }

  /** A set of indices inside [lo, hi) has at most hi - lo elements. */
  lemma {:induction false} SizeWithin(s: set<int>, lo: int, hi: int)
    requires lo <= hi
    requires forall k :: k in s ==> lo <= k < hi
    ensures |s| <= hi - lo
    decreases hi - lo
  {
    if lo < hi {
      SizeWithin(s - {lo}, lo + 1, hi);
    } else {
      assert s == {};
    }
  }

  // ---------------------------------------------------------------------
  // Shifting entries: put(k + c, get(k)) for every k in [lo, hi), where
  // every read sees the map as it was before the loop (the loops of
  // makeSpace and move visit the indices in the order that guarantees it).

  function Overlay(m: Sizes, lo: int, hi: int, c: int): (r: Sizes)
    ensures r.Keys == m.Keys + Range(lo + c, hi + c)
  {
    map k | k in m.Keys + Range(lo + c, hi + c) :: OverlayAt(m, lo, hi, c, k)
  }

  /** The entry at k after the shift. */
  function OverlayAt(m: Sizes, lo: int, hi: int, c: int, k: int): Option<Size>
  {
    if lo + c <= k < hi + c then Get(m, k - c) else Get(m, k)
  }

  lemma OverlayGet(m: Sizes, lo: int, hi: int, c: int, k: int)
    ensures Get(Overlay(m, lo, hi, c), k) ==
            if lo + c <= k < hi + c then Get(m, k - c) else Get(m, k)
  {
  }

  lemma OverlayEmpty(m: Sizes, lo: int, hi: int, c: int)
    requires hi <= lo
    ensures Overlay(m, lo, hi, c) == m
  {
    assert Range(lo + c, hi + c) == {};
  }

  /** One more step of the shifting loop. */
  lemma OverlayExtendBelow(m: Sizes, lo: int, hi: int, c: int)
    requires lo <= hi && c >= 0
    ensures Overlay(m, lo - 1, hi, c) == Overlay(m, lo, hi, c)[lo - 1 + c := Get(Overlay(m, lo, hi, c), lo - 1)]
  {
    var a := Overlay(m, lo - 1, hi, c);
    var b := Overlay(m, lo, hi, c)[lo - 1 + c := Get(Overlay(m, lo, hi, c), lo - 1)];
    assert Range(lo - 1 + c, hi + c) == Range(lo + c, hi + c) + {lo - 1 + c};
    forall k | k in a
      ensures Get(a, k) == Get(b, k)
    {
      OverlayBelowAt(m, lo, hi, c, k);
    }
    SameEntries(a, b);
  }

  /** The step of makeSpace's loop, in the loop's own terms. */
  lemma ShiftUpStep(m: Sizes, i: int, hi: int, c: int, cur: Sizes)
    requires i < hi && c >= 0 && cur == Overlay(m, i + 1, hi, c)
    ensures cur[i + c := Get(cur, i)] == Overlay(m, i, hi, c)
  {
    OverlayExtendBelow(m, i + 1, hi, c);
    assert i + 1 - 1 == i;
  }

  lemma OverlayBelowAt(m: Sizes, lo: int, hi: int, c: int, k: int)
    requires lo <= hi && c >= 0
    ensures Get(Overlay(m, lo - 1, hi, c), k) ==
            Get(Overlay(m, lo, hi, c)[lo - 1 + c := Get(Overlay(m, lo, hi, c), lo - 1)], k)
  {
    OverlayGet(m, lo - 1, hi, c, k);
    OverlayGet(m, lo, hi, c, k);
    OverlayGet(m, lo, hi, c, lo - 1);
  }

  lemma OverlayExtendAbove(m: Sizes, lo: int, hi: int, c: int)
    requires lo <= hi && c <= 0
    ensures Overlay(m, lo, hi + 1, c) == Overlay(m, lo, hi, c)[hi + c := Get(Overlay(m, lo, hi, c), hi)]
  {
    var a := Overlay(m, lo, hi + 1, c);
    var b := Overlay(m, lo, hi, c)[hi + c := Get(Overlay(m, lo, hi, c), hi)];
    assert Range(lo + c, hi + 1 + c) == Range(lo + c, hi + c) + {hi + c};
    forall k | k in a
      ensures Get(a, k) == Get(b, k)
    {
      OverlayAboveAt(m, lo, hi, c, k);
    }
    SameEntries(a, b);
  }

  /** The step of move's shifting loop toward the back, in the loop's own
      terms. */
  lemma ShiftBackStep(m: Sizes, lo: int, i: int, c: int, cur: Sizes)
    requires lo <= i && c >= 0 && cur == Overlay(m, lo, i, -c)
    ensures cur[i - c := Get(cur, i)] == Overlay(m, lo, i + 1, -c)
  {
    var d := -c;
    OverlayExtendAbove(m, lo, i, d);
    assert i + d == i - c;
  }

  lemma OverlayAboveAt(m: Sizes, lo: int, hi: int, c: int, k: int)
    requires lo <= hi && c <= 0
    ensures Get(Overlay(m, lo, hi + 1, c), k) ==
            Get(Overlay(m, lo, hi, c)[hi + c := Get(Overlay(m, lo, hi, c), hi)], k)
  {
    OverlayGet(m, lo, hi + 1, c, k);
    OverlayGet(m, lo, hi, c, k);
    OverlayGet(m, lo, hi, c, hi);
  }

  /** Two maps that agree on their keys and on every read are equal. */
  lemma SameEntries(a: Sizes, b: Sizes)
    requires a.Keys == b.Keys
    requires forall k | k in a :: Get(a, k) == Get(b, k)
    ensures a == b
  {
    forall k | k in a
      ensures a[k] == b[k]
    {
      assert Get(a, k) == Get(b, k);
    }
  }

  /** Stores vals[j] at s + j (the final loops of add and move). */
  function Place(m: Sizes, s: int, vals: seq<Option<Size>>): (r: Sizes)
    ensures r.Keys == m.Keys + Range(s, s + |vals|)
  {
    map k | k in m.Keys + Range(s, s + |vals|) :: PlaceAt(m, s, vals, k)
  }

  /** The entry at k after the block is stored. */
  function PlaceAt(m: Sizes, s: int, vals: seq<Option<Size>>, k: int): Option<Size>
  {
    if s <= k < s + |vals| then vals[k - s] else Get(m, k)
  }

  lemma PlaceGet(m: Sizes, s: int, vals: seq<Option<Size>>, k: int)
    ensures Get(Place(m, s, vals), k) == if s <= k < s + |vals| then vals[k - s] else Get(m, k)
  {
  }

  /** One more iteration of a storing loop. */
  lemma PlaceStep(m: Sizes, s: int, vals: seq<Option<Size>>, j: int)
    requires 0 <= j < |vals|
    ensures Place(m, s, vals[..j + 1]) == Place(m, s, vals[..j])[s + j := vals[j]]
  {
    var a := Place(m, s, vals[..j + 1]);
    var b := Place(m, s, vals[..j])[s + j := vals[j]];
    assert a.Keys == b.Keys;
    forall k | k in a
      ensures Get(a, k) == Get(b, k)
    {
      PlaceGet(m, s, vals[..j + 1], k);
      PlaceGet(m, s, vals[..j], k);
    }
    SameEntries(a, b);
  }

  /** One more iteration of a removing loop. */
  lemma RemoveStep(m: Sizes, s: int, i: int)
    requires s <= i
    ensures (m - Range(s, i)) - {i} == m - Range(s, i + 1)
  {
    var a := (m - Range(s, i)) - {i};
    var b := m - Range(s, i + 1);
    assert a.Keys == b.Keys;
    forall k | k in a
      ensures Get(a, k) == Get(b, k)
    {
    }
    SameEntries(a, b);
  }

  function Measured(vals: seq<Size>): (r: seq<Option<Size>>)
    ensures |r| == |vals| && forall j :: 0 <= j < |vals| ==> r[j] == Some(vals[j])
  {
    seq(|vals|, j requires 0 <= j < |vals| => Some(vals[j]))
  }

  // ---------------------------------------------------------------------
  // makeSpace and add

  /** makeSpace(s, c): for i from size() - 1 down to s, put(i + c, get(i));
      then remove s .. s + c - 1.  size() counts the stored keys. */
  function MakeSpaceResult(m: Sizes, s: int, c: int): Sizes
  {
    Overlay(m, s, |m|, c) - Range(s, s + c)
  }

  /** add(s, sizes...): make room for the new sizes, then store sizes[j] at s + j. */
  function InsertResult(m: Sizes, s: int, vals: seq<Option<Size>>): Sizes
  {
    Place(MakeSpaceResult(m, s, |vals|), s, vals)
  }

  lemma MinusGet(m: Sizes, gone: set<int>, k: int)
    ensures Get(m - gone, k) == if k in gone then None else Get(m, k)
  {
  }

  /** makeSpace on any map, read index by index. */
  lemma MakeSpaceGet(m: Sizes, s: int, c: int, k: int)
    ensures Get(MakeSpaceResult(m, s, c), k) ==
              if s <= k < s + c then None
              else if s + c <= k < |m| + c then Get(m, k - c)
              else Get(m, k)
  {
    MinusGet(Overlay(m, s, |m|, c), Range(s, s + c), k);
    OverlayGet(m, s, |m|, c, k);
  }

  lemma DenseSize(m: Sizes, n: int)
    requires Dense(m, n) && n >= 0
    ensures |m| == n
    ensures forall k :: k in m <==> 0 <= k < n
  {
    RangeSize(0, n);
    assert |m| == |m.Keys|;
  }

  /** On a map without holes, makeSpace moves every entry at or after s up by c
      and leaves s .. s + c - 1 unmeasured. */
  lemma MakeSpaceDense(m: Sizes, n: int, s: int, c: int, k: int)
    requires Dense(m, n) && 0 <= s <= n && c >= 0
    ensures Get(MakeSpaceResult(m, s, c), k) ==
              if k < s then Get(m, k) else if k < s + c then None else Get(m, k - c)
  {
    DenseSize(m, n);
    MakeSpaceGet(m, s, c, k);
  }

  lemma InsertGet(m: Sizes, s: int, vals: seq<Option<Size>>, k: int)
    ensures Get(InsertResult(m, s, vals), k) ==
              if s <= k < s + |vals| then vals[k - s]
              else if s + |vals| <= k < |m| + |vals| then Get(m, k - |vals|)
              else Get(m, k)
  {
    PlaceGet(MakeSpaceResult(m, s, |vals|), s, vals, k);
    MakeSpaceGet(m, s, |vals|, k);
  }

  lemma InsertIn(m: Sizes, s: int, vals: seq<Option<Size>>, k: int)
    ensures k in InsertResult(m, s, vals) <==>
              k in m || s <= k < s + |vals| || s + |vals| <= k < |m| + |vals|
  {
  }

  lemma SameKeys(a: set<int>, b: set<int>, m: Sizes, s: int, vals: seq<Option<Size>>, n: int)
    requires a == InsertResult(m, s, vals).Keys && b == Range(0, n + |vals|)
    requires |m| == n && 0 <= s <= n && forall k :: k in m <==> 0 <= k < n
    ensures a == b
  {
    forall k
      ensures k in a <==> k in b
    {
      InsertIn(m, s, vals, k);
    }
  }

  lemma InsertKeys(m: Sizes, n: int, s: int, vals: seq<Option<Size>>)
    requires Dense(m, n) && 0 <= s <= n
    ensures Dense(InsertResult(m, s, vals), n + |vals|)
  {
    DenseSize(m, n);
    SameKeys(InsertResult(m, s, vals).Keys, Range(0, n + |vals|), m, s, vals, n);
  }

  /** On a map without holes, add(s, vals) keeps the entries before s, stores
      vals at s .. s + |vals| - 1 and moves the rest up: still no holes. */
  lemma InsertDense(m: Sizes, n: int, s: int, vals: seq<Option<Size>>, k: int)
    requires Dense(m, n) && 0 <= s <= n
    ensures Dense(InsertResult(m, s, vals), n + |vals|)
    ensures Get(InsertResult(m, s, vals), k) ==
              if k < s then Get(m, k) else if k < s + |vals| then vals[k - s] else Get(m, k - |vals|)
  {
    DenseSize(m, n);
    InsertKeys(m, n, s, vals);
    InsertGet(m, s, vals, k);
  }

  /** With a hole below the last stored index, makeSpace loses an entry:
      size() is 2 although index 2 is stored, so the entry at 2 is replaced
      by the hole at 1 and nothing arrives at 3. */
  lemma MakeSpacePastHole(a: Size, b: Size)
    ensures var r := MakeSpaceResult(map[0 := Some(a), 2 := Some(b)], 0, 1);
            Get(r, 0) == None && Get(r, 1) == Some(a) && Get(r, 2) == None && Get(r, 3) == None
  {
    var m := map[0 := Some(a), 2 := Some(b)];
    assert m.Keys == {0, 2};
    assert |m| == 2;
    MakeSpaceGet(m, 0, 1, 0);
    MakeSpaceGet(m, 0, 1, 1);
    MakeSpaceGet(m, 0, 1, 2);
    MakeSpaceGet(m, 0, 1, 3);
  }

  /** remove's second loop compares i with size() + a, and size() counts
      stored keys only: with no entry at 0, remove(1, 1) on {1: s, 2: t}
      stops before its first iteration, so t stays at 2 and 1 is a hole. */
  lemma RemovePastHole(s: Size, t: Size)
    ensures RemovedBy(map[1 := Some(s), 2 := Some(t)], 1, 1, map[2 := Some(t)])
  {
    var m := map[1 := Some(s), 2 := Some(t)];
    var r := map[2 := Some(t)];
    assert m.Keys == {1, 2};
    assert ActualCount(|m|, 1, 1) == 1;
    RemoveFirstOfTwo(s, t);
    StateAtStart(t);
    assert ShiftDownStopsAt(RemoveRange(m, 1, 1), 1, 1, 2);
  }

  lemma RemoveFirstOfTwo(s: Size, t: Size)
    ensures RemoveRange(map[1 := Some(s), 2 := Some(t)], 1, 1) == map[2 := Some(t)]
  {
    assert Range(1, 2) == {1} by {
      assert Index(1);
    }
  }

  lemma StateAtStart(t: Size)
    ensures ShiftDownState(map[2 := Some(t)], 1, 1, 2) == map[2 := Some(t)]
  {
    var r := map[2 := Some(t)];
    assert Range(1, 1) == {};
    assert (set k | k in r && (k < 1 || k >= 2)) == {2};
  }

  // ---------------------------------------------------------------------
  // The measured run: what the line packer can consume from index i on.

  /** The keys at or after i: finite, and shrinking as i passes a key. */
  function KeysFrom(m: Sizes, i: int): set<int>
  {
    set k | k in m && k >= i
  }

  lemma KeysFromShrink(m: Sizes, i: int)
    requires i in m
    ensures KeysFrom(m, i + 1) < KeysFrom(m, i)
  {
    var later := KeysFrom(m, i + 1);
    var here := KeysFrom(m, i);
    assert i in here && i !in later;
    assert later <= here;
  }

  /** The sizes stored contiguously from index i up to the first hole. */
  function Run(m: Sizes, i: int): seq<Size>
    decreases KeysFrom(m, i)
  {
    if Get(m, i).Some? then
      KeysFromShrink(m, i);
      [Get(m, i).value] + Run(m, i + 1)
    else []
  }

  /** Each element of the run is the size stored at its index. */
  lemma {:induction false} RunAt(m: Sizes, i: int, j: int)
    requires 0 <= j < |Run(m, i)|
    ensures Get(m, i + j) == Some(Run(m, i)[j])
    decreases j
  {
    if j > 0 {
      RunAt(m, i + 1, j - 1);
    }
  }

  /** Within the run from i or at its end, a stored size means k is inside
      the run, holding the run's element there. */
  lemma RunGoes(m: Sizes, i: int, k: int)
    requires i <= k <= i + |Run(m, i)| && Get(m, k).Some?
    ensures k < i + |Run(m, i)| && Get(m, k) == Some(Run(m, i)[k - i])
  {
    RunEnd(m, i);
    if k < i + |Run(m, i)| {
      RunAt(m, i, k - i);
    }
  }

  /** Within the run from i or at its end, a hole is the end of the run. */
  lemma RunStops(m: Sizes, i: int, k: int)
    requires i <= k <= i + |Run(m, i)| && Get(m, k).None?
    ensures k == i + |Run(m, i)|
  {
    if k < i + |Run(m, i)| {
      RunAt(m, i, k - i);
    }
  }

  /** The run stops at a hole. */
  lemma {:induction false} RunEnd(m: Sizes, i: int)
    ensures Get(m, i + |Run(m, i)|) == None
    decreases KeysFrom(m, i)
  {
    if Get(m, i).Some? {
      KeysFromShrink(m, i);
      RunEnd(m, i + 1);
    }
  }

  /** Dropping j elements of the run is the run j indices further on. */
  lemma {:induction false} RunDrop(m: Sizes, i: int, j: int)
    requires 0 <= j <= |Run(m, i)|
    ensures Run(m, i + j) == Run(m, i)[j..]
    decreases j
  {
    if j > 0 {
      RunDrop(m, i + 1, j - 1);
    }
  }

  /** Two maps that agree on i .. i + c - 1 have runs that agree on their
      first c elements, as long as one of them measures that far. */
  lemma {:induction false} RunAgree(m: Sizes, m': Sizes, i: int, c: int)
    requires 0 <= c <= |Run(m, i)|
    requires forall k :: i <= k < i + c ==> Get(m, k) == Get(m', k)
    ensures c <= |Run(m', i)| && Run(m', i)[..c] == Run(m, i)[..c]
    decreases c
  {
    if c > 0 {
      assert Get(m, i) == Get(m', i);
      RunAgree(m, m', i + 1, c - 1);
      assert Run(m, i)[..c] == [Run(m, i)[0]] + Run(m, i + 1)[..c - 1];
      assert Run(m', i)[..c] == [Run(m', i)[0]] + Run(m', i + 1)[..c - 1];
    }
  }

  /** A set holding every index of lo .. hi - 1 has at least hi - lo elements. */
  lemma {:induction false} RangeInSet(lo: int, hi: int, b: set<int>)
    requires lo <= hi && Range(lo, hi) <= b
    ensures hi - lo <= |b|
    decreases hi - lo
  {
    if lo < hi {
      assert Index(hi - 1);
      assert hi - 1 in b;
      RangeInSet(lo, hi - 1, b - {hi - 1});
    }
  }

  /** The run from 0 is no longer than size(): its indices are all stored. */
  lemma RunWithinSize(m: Sizes)
    ensures |Run(m, 0)| <= |m|
  {
    var r := |Run(m, 0)|;
    forall k | k in Range(0, r)
      ensures k in m
    {
      RunAt(m, 0, k);
    }
    RangeInSet(0, r, m.Keys);
    assert |m| == |m.Keys|;
  }

  // ---------------------------------------------------------------------
  // remove and invalidSizes

  /** actualCount(index, count) against size() entries: count, clamped to
      the entries from index to size() - 1. */
  function ActualCount(size: int, index: int, count: int): (a: int)
    ensures a <= count && a <= size - index
    ensures a == count || a == size - index
  {
    if index + count > size then size - index else count
  }

  /** The first loop of remove and invalidSizes: drop index .. index + a - 1. */
  function RemoveRange(m: Sizes, index: int, a: int): Sizes
  {
    m - Range(index, index + a)
  }

  /** The map before iteration i of remove's second loop, for i >= index + a:
      the entries index + a .. i - 1 of r have moved down by a, those from i
      on are where they were. */
  function ShiftDownState(r: Sizes, index: int, a: int, i: int): Sizes
  {
    var keys := (set k | k in r && (k < index || k >= i)) + Range(index, i - a);
    map k | k in keys :: ShiftDownAt(r, index, a, i, k)
  }

  /** The entry at k before iteration i. */
  function ShiftDownAt(r: Sizes, index: int, a: int, i: int, k: int): Option<Size>
  {
    if index <= k < i - a then Get(r, k + a) else Get(r, k)
  }

  lemma ShiftDownStart(r: Sizes, index: int, a: int)
    requires a >= 0
    requires forall k :: k in r ==> !(index <= k < index + a)
    ensures ShiftDownState(r, index, a, index + a) == r
  {
  }

  /** One iteration: tmp = get(i); remove(i); put(i - a, tmp). */
  lemma ShiftDownStep(r: Sizes, index: int, a: int, i: int)
    requires a >= 0 && index + a <= i
    ensures Get(ShiftDownState(r, index, a, i), i) == Get(r, i)
    ensures ShiftDownState(r, index, a, i + 1) ==
              (ShiftDownState(r, index, a, i) - {i})[i - a := Get(r, i)]
  {
    var cur := ShiftDownState(r, index, a, i);
    var nxt := ShiftDownState(r, index, a, i + 1);
    var upd := (cur - {i})[i - a := Get(r, i)];
    forall k
      ensures k in nxt <==> k in upd
    {
    }
    assert nxt.Keys == upd.Keys;
  }

  /** The step of remove's second loop, in the loop's own terms. */
  lemma ShiftDownNext(r: Sizes, index: int, a: int, i: int, cur: Sizes)
    requires a >= 0 && index + a <= i && cur == ShiftDownState(r, index, a, i)
    ensures (cur - {i})[i - a := Get(cur, i)] == ShiftDownState(r, index, a, i + 1)
  {
    ShiftDownStep(r, index, a, i);
  }

  lemma {:induction false} TwoRangesSize(lo1: int, hi1: int, lo2: int, hi2: int)
    requires lo1 <= hi1 <= lo2 <= hi2
    ensures |Range(lo1, hi1) + Range(lo2, hi2)| == (hi1 - lo1) + (hi2 - lo2)
    decreases hi2 - lo2
  {
    if lo2 < hi2 {
      TwoRangesSize(lo1, hi1, lo2 + 1, hi2);
      var rest := Range(lo1, hi1) + Range(lo2 + 1, hi2);
      assert Range(lo1, hi1) + Range(lo2, hi2) == rest + {lo2};
      assert lo2 !in rest;
    } else {
      RangeSize(lo1, hi1);
      assert Range(lo1, hi1) + Range(lo2, hi2) == Range(lo1, hi1);
    }
  }

  /** Without holes, size() stays n - a during remove's second loop. */
  lemma ShiftDownDenseSize(m: Sizes, n: int, index: int, a: int, j: int)
    requires Dense(m, n) && 0 <= index && 0 <= a && index + a <= j <= n
    ensures |ShiftDownState(RemoveRange(m, index, a), index, a, j)| == n - a
  {
    ShiftDownDenseKeys(m, n, index, a, j);
    SizeOfTwoRanges(ShiftDownState(RemoveRange(m, index, a), index, a, j), j - a, j, n);
  }

  lemma SizeOfTwoRanges(st: Sizes, gap: int, j: int, n: int)
    requires 0 <= gap <= j <= n
    requires st.Keys == Range(0, gap) + Range(j, n)
    ensures |st| == gap + (n - j)
  {
    TwoRangesSize(0, gap, j, n);
    assert |st| == |st.Keys|;
  }

  lemma ShiftDownDenseKeys(m: Sizes, n: int, index: int, a: int, j: int)
    requires Dense(m, n) && 0 <= index && 0 <= a && index + a <= j <= n
    ensures ShiftDownState(RemoveRange(m, index, a), index, a, j).Keys == Range(0, j - a) + Range(j, n)
  {
    var st := ShiftDownState(RemoveRange(m, index, a), index, a, j);
    var both := Range(0, j - a) + Range(j, n);
    forall k
      ensures k in st.Keys <==> k in both
    {
      ShiftDownDenseIn(m, n, index, a, j, k);
      assert Index(k);
    }
  }

  lemma ShiftDownDenseIn(m: Sizes, n: int, index: int, a: int, j: int, k: int)
    requires Dense(m, n) && 0 <= index && 0 <= a && index + a <= j <= n
    ensures k in ShiftDownState(RemoveRange(m, index, a), index, a, j) <==> (0 <= k < j - a || j <= k < n)
  {
    assert k in m <==> Index(k) && 0 <= k < n;
  }

  /** The guard of remove's second loop at iteration i: i < size() + a,
      with size() read from the map as it is before that iteration. */
  ghost predicate ShiftDownGoes(r: Sizes, index: int, a: int, i: int)
  {
    i < |ShiftDownState(r, index, a, i)| + a
  }

  /** The second loop of remove, started at index + a, stops at e: its guard
      fails at e and held at every earlier iteration. Since size() grows by
      at most one per iteration the guard, once false, stays false
      (ShiftDownGoesBack), so it suffices to say that it held at e - 1. */
  ghost predicate ShiftDownStopsAt(r: Sizes, index: int, a: int, e: int)
  {
    index + a <= e && !ShiftDownGoes(r, index, a, e) &&
    (e == index + a || ShiftDownGoes(r, index, a, e - 1))
  }

  lemma CardStep(m: Sizes, j: int, x: int, v: Option<Size>)
    ensures |(m - {j})[x := v]| <= |m| + 1
  {
    var m' := (m - {j})[x := v];
    assert m'.Keys <= m.Keys + {x};
    SubsetSize(m'.Keys, m.Keys + {x});
    assert |m'| == |m'.Keys| && |m| == |m.Keys|;
  }

  lemma SubsetSize(s: set<int>, t: set<int>)
    requires s <= t
    ensures |s| <= |t|
  {
    assert s * t == s;
    assert |t - s| == |t| - |s * t|;
  }

  /** One iteration adds at most one entry, so if the guard holds at i + 1
      it held at i. */
  lemma ShiftDownGoesStep(r: Sizes, index: int, a: int, i: int)
    requires a >= 0 && index + a <= i && ShiftDownGoes(r, index, a, i + 1)
    ensures ShiftDownGoes(r, index, a, i)
  {
    ShiftDownStep(r, index, a, i);
    CardStep(ShiftDownState(r, index, a, i), i, i - a, Get(r, i));
  }

  /** If the guard holds at j it held at every earlier iteration. */
  lemma {:induction false} ShiftDownGoesBack(r: Sizes, index: int, a: int, i: int, j: int)
    requires a >= 0 && index + a <= i <= j && ShiftDownGoes(r, index, a, j)
    ensures ShiftDownGoes(r, index, a, i)
    decreases j - i
  {
    if i < j {
      ShiftDownGoesBack(r, index, a, i + 1, j);
      ShiftDownGoesStep(r, index, a, i);
    }
  }

  /** The loop stops at no more than one index. */
  lemma ShiftDownStopsUnique(r: Sizes, index: int, a: int, e: int, e': int)
    requires a >= 0 && ShiftDownStopsAt(r, index, a, e) && ShiftDownStopsAt(r, index, a, e')
    ensures e == e'
  {
    ShiftDownStopsFirst(r, index, a, e, e');
    ShiftDownStopsFirst(r, index, a, e', e);
  }

  /** A stop index is not above any other index where the loop stops. */
  lemma ShiftDownStopsFirst(r: Sizes, index: int, a: int, e: int, e': int)
    requires a >= 0 && index + a <= e && !ShiftDownGoes(r, index, a, e)
    requires index + a < e' ==> ShiftDownGoes(r, index, a, e' - 1)
    ensures e' <= e
  {
    if e < e' {
      ShiftDownGoesBack(r, index, a, e, e' - 1);
    }
  }

  /** Once i - a reaches every key and index, the guard fails. */
  lemma ShiftDownEnds(r: Sizes, index: int, a: int, i: int, bound: int)
    requires a >= 0 && 0 <= index && index + a <= i
    requires KeysIn(r, bound) && bound + a <= i
    ensures !ShiftDownGoes(r, index, a, i)
  {
    var st := ShiftDownState(r, index, a, i);
    SizeWithin(st.Keys, 0, i - a);
    assert |st| == |st.Keys|;
  }

  /** While the guard holds, i - a stays below bound or index. */
  lemma ShiftDownGoesBelow(r: Sizes, index: int, a: int, i: int, bound: int)
    requires a >= 0 && 0 <= index && index + a <= i && 0 <= bound && KeysIn(r, bound)
    requires ShiftDownGoes(r, index, a, i)
    ensures i - a < (if index <= bound then bound else index)
  {
    var top := if index <= bound then bound else index;
    if i - a >= top {
      ShiftDownEnds(r, index, a, i, top);
    }
  }

  /** The loop, once it has reached j, stops somewhere: the guard fails no
      later than where i - a passes both the keys and index. */
  lemma {:induction false} ShiftDownStopFrom(r: Sizes, index: int, a: int, j: int, bound: int) returns (e: int)
    requires a >= 0 && 0 <= index && index + a <= j && 0 <= bound && KeysIn(r, bound)
    requires j == index + a || ShiftDownGoes(r, index, a, j - 1)
    ensures ShiftDownStopsAt(r, index, a, e)
    decreases (if index <= bound then bound else index) + a - j
  {
    if ShiftDownGoes(r, index, a, j) {
      ShiftDownGoesBelow(r, index, a, j, bound);
      e := ShiftDownStopFrom(r, index, a, j + 1, bound);
    } else {
      e := j;
    }
  }

  /** The loop stops before i - a passes both the keys and index. */
  lemma ShiftDownStopsBelow(r: Sizes, index: int, a: int, e: int, bound: int)
    requires a >= 0 && 0 <= index && 0 <= bound && KeysIn(r, bound)
    requires ShiftDownStopsAt(r, index, a, e)
    ensures e - a <= (if index <= bound then bound else index)
  {
    var top := if index <= bound then bound else index;
    if e - a > top {
      ShiftDownEnds(r, index, a, e - 1, top);
    }
  }

  /** On a map without holes the loop stops exactly at n. */
  lemma ShiftDownDenseStops(m: Sizes, n: int, index: int, a: int)
    requires Dense(m, n) && 0 <= index && 0 <= a && index + a <= n
    ensures ShiftDownStopsAt(RemoveRange(m, index, a), index, a, n)
  {
    ShiftDownDenseGoes(m, n, index, a, n);
    var went := n > index + a;
    if went {
      ShiftDownDenseGoes(m, n, index, a, n - 1);
    }
    ShiftDownStopped(RemoveRange(m, index, a), index, a, n, went);
  }

  /** The loop, having gone through iteration e - 1 (went) and failed its
      guard at e, stops at e. */
  lemma ShiftDownStopped(r: Sizes, index: int, a: int, e: int, went: bool)
    requires index + a <= e && !ShiftDownGoes(r, index, a, e)
    requires went ==> ShiftDownGoes(r, index, a, e - 1)
    requires !went ==> e == index + a
    ensures ShiftDownStopsAt(r, index, a, e)
  {
  }

  /** Without holes, the guard holds exactly below n. */
  lemma ShiftDownDenseGoes(m: Sizes, n: int, index: int, a: int, j: int)
    requires Dense(m, n) && 0 <= index && 0 <= a && index + a <= j <= n
    ensures ShiftDownGoes(RemoveRange(m, index, a), index, a, j) <==> j < n
  {
    ShiftDownDenseSize(m, n, index, a, j);
  }

  /** remove(index, count) on the size map m leaves m': with a the clamped
      count, nothing moves when a is negative (index is past size()); else
      index .. index + a - 1 are removed and the second loop runs to where
      it stops. */
  ghost predicate RemovedBy(m: Sizes, index: int, count: int, m': Sizes)
  {
    var a := ActualCount(|m|, index, count);
    if a < 0 then m' == m
    else exists e :: ShiftDownStopsAt(RemoveRange(m, index, a), index, a, e) &&
                     m' == ShiftDownState(RemoveRange(m, index, a), index, a, e)
  }

  /** The first loop of remove leaves no key in index .. index + a - 1. */
  lemma RemoveRangeGap(m: Sizes, index: int, a: int)
    ensures forall k :: k in RemoveRange(m, index, a) ==> !(index <= k < index + a)
  {
    forall k | k in RemoveRange(m, index, a)
      ensures !(index <= k < index + a)
    {
      assert Index(k);
    }
  }

  /** invalidSizes(index, a) read index by index: holes at index ..
      index + a - 1, everything else kept. */
  lemma RemoveRangeGet(m: Sizes, index: int, a: int, k: int)
    ensures Get(RemoveRange(m, index, a), k) == if index <= k < index + a then None else Get(m, k)
  {
    assert Index(k);
  }

  /** The index where remove's second loop stopped, when it ran. */
  lemma RemovedStop(m: Sizes, index: int, count: int, a: int, m': Sizes) returns (e: int)
    requires RemovedBy(m, index, count, m') && a == ActualCount(|m|, index, count) && a >= 0
    ensures ShiftDownStopsAt(RemoveRange(m, index, a), index, a, e)
    ensures m' == ShiftDownState(RemoveRange(m, index, a), index, a, e)
  {
    e :| ShiftDownStopsAt(RemoveRange(m, index, a), index, a, e) &&
         m' == ShiftDownState(RemoveRange(m, index, a), index, a, e);
  }

  /** On a map without holes, remove(index, count) keeps the entries before
      index, moves every later entry down by the clamped count and leaves no
      hole. */
  lemma RemoveDense(m: Sizes, n: int, index: int, count: int, m': Sizes, k: int)
    requires Dense(m, n) && 0 <= index <= n && count >= 0 && RemovedBy(m, index, count, m')
    ensures Dense(m', n - ActualCount(n, index, count))
    ensures Get(m', k) == if k < index then Get(m, k) else Get(m, k + ActualCount(n, index, count))
  {
    DenseSize(m, n);
    var a := ActualCount(n, index, count);
    var e := RemovedStop(m, index, count, a, m');
    ShiftDownDense(m, n, index, a, e, k);
  }

  /** On a map without holes the second loop of remove stops at n, with
      every later entry moved down by a and no hole left. */
  lemma ShiftDownDense(m: Sizes, n: int, index: int, a: int, e: int, k: int)
    requires Dense(m, n) && 0 <= index && 0 <= a && index + a <= n
    requires ShiftDownStopsAt(RemoveRange(m, index, a), index, a, e)
    ensures e == n
    ensures Dense(ShiftDownState(RemoveRange(m, index, a), index, a, e), n - a)
    ensures Get(ShiftDownState(RemoveRange(m, index, a), index, a, e), k) ==
              if k < index then Get(m, k) else Get(m, k + a)
  {
    var r := RemoveRange(m, index, a);
    ShiftDownDenseStops(m, n, index, a);
    ShiftDownStopsUnique(r, index, a, e, n);
    var st := ShiftDownState(r, index, a, n);
    forall j
      ensures j in st.Keys <==> j in Range(0, n - a)
    {
      ShiftDownDenseIn(m, n, index, a, n, j);
    }
    assert st.Keys == Range(0, n - a);
  }

  // ---------------------------------------------------------------------
  // move

  /** The block of count entries read from index from before any shifting. */
  function Block(m: Sizes, from: int, count: int): (items: seq<Option<Size>>)
    requires count >= 0
    ensures |items| == count && forall j :: 0 <= j < count ==> items[j] == Get(m, from + j)
  {
    seq(count, j requires 0 <= j < count => Get(m, from + j))
  }

  /** The index whose size move(from, to, count) leaves at k.  Toward the
      front (to < from): the block lands on to .. to + count - 1 and the
      entries it jumps over move up by count.  Toward the back
      (to >= from + count): the block lands on to - count .. to - 1 and the
      entries it jumps over move down by count.  Every other index keeps its
      size. */
  function MoveSource(from: int, to: int, count: int, k: int): int
  {
    if to < from then
      if to <= k < to + count then from + (k - to)
      else if to + count <= k < from + count then k - count
      else k
    else
      if to - count <= k < to then from + (k - (to - count))
      else if from <= k < to - count then k + count
      else k
  }

  /** The indices move writes to. */
  function MoveSpan(from: int, to: int, count: int): set<int>
  {
    if to < from then Range(to, from + count) else Range(from, to)
  }

  /** The size map after move(from, to, count). */
  function MoveResult(m: Sizes, from: int, to: int, count: int): Sizes
  {
    map k | k in m.Keys + MoveSpan(from, to, count) :: Get(m, MoveSource(from, to, count, k))
  }

  lemma MoveGet(m: Sizes, from: int, to: int, count: int, k: int)
    requires count >= 0 && (to < from || to >= from + count)
    ensures Get(MoveResult(m, from, to, count), k) == Get(m, MoveSource(from, to, count, k))
  {
    if k !in m && k !in MoveSpan(from, to, count) {
      assert Index(k);
    }
  }

  lemma RangeJoin(lo: int, mid: int, hi: int)
    requires lo <= mid <= hi
    ensures Range(lo, mid) + Range(mid, hi) == Range(lo, hi)
  {
  }

  /** The loops of move toward the front compute MoveResult: shift
      to .. from - 1 up by count, visiting the indices downwards, then store
      the block at to. */
  lemma MoveFrontByLoops(m: Sizes, from: int, to: int, count: int)
    requires count >= 0 && to < from
    ensures MoveResult(m, from, to, count) == Place(Overlay(m, to, from, count), to, Block(m, from, count))
  {
    var r := MoveResult(m, from, to, count);
    var l := Place(Overlay(m, to, from, count), to, Block(m, from, count));
    RangeJoin(to, to + count, from + count);
    assert r.Keys == l.Keys;
    forall k | k in r
      ensures Get(r, k) == Get(l, k)
    {
      MoveGet(m, from, to, count, k);
      PlacedBlockAt(m, Overlay(m, to, from, count), from, to, count, k);
      OverlayGet(m, to, from, count, k);
    }
    SameEntries(r, l);
  }

  /** The loops of move toward the back compute MoveResult: shift
      from + count .. to - 1 down by count, visiting the indices upwards, then
      store the block at to - count. */
  lemma MoveBackByLoops(m: Sizes, from: int, to: int, count: int)
    requires count >= 0 && to >= from + count
    ensures MoveResult(m, from, to, count) == Place(Overlay(m, from + count, to, -count), to - count, Block(m, from, count))
  {
    var r := MoveResult(m, from, to, count);
    var l := Place(Overlay(m, from + count, to, -count), to - count, Block(m, from, count));
    MoveBackKeys(m, from, to, count);
    forall k | k in r
      ensures Get(r, k) == Get(l, k)
    {
      MoveBackGet(m, from, to, count, k);
    }
    SameEntries(r, l);
  }

  lemma MoveBackGet(m: Sizes, from: int, to: int, count: int, k: int)
    requires count >= 0 && to >= from + count
    ensures Get(MoveResult(m, from, to, count), k) ==
            Get(Place(Overlay(m, from + count, to, -count), to - count, Block(m, from, count)), k)
  {
    MoveGet(m, from, to, count, k);
    BackLoopsAt(m, from, to, count, k);
    MoveBackAt(m, Place(Overlay(m, from + count, to, -count), to - count, Block(m, from, count)),
               MoveResult(m, from, to, count), from, to, count, k);
  }

  /** At one index: what the loops leave in l is what move leaves in r. */
  lemma MoveBackAt(m: Sizes, l: Sizes, r: Sizes, from: int, to: int, count: int, k: int)
    requires count >= 0 && to >= from + count
    requires Get(r, k) == Get(m, MoveSource(from, to, count, k))
    requires Get(l, k) == if to - count <= k < to - count + count then Get(m, from + (k - (to - count)))
            else if from + count + -count <= k < to + -count then Get(m, k - -count) else Get(m, k)
    ensures Get(r, k) == Get(l, k)
  {
  }

  lemma BackLoopsAt(m: Sizes, from: int, to: int, count: int, k: int)
    requires count >= 0 && to >= from + count
    ensures Get(Place(Overlay(m, from + count, to, -count), to - count, Block(m, from, count)), k) ==
            if to - count <= k < to - count + count then Get(m, from + (k - (to - count)))
            else if from + count + -count <= k < to + -count then Get(m, k - -count) else Get(m, k)
  {
    PlacedBlockAt(m, Overlay(m, from + count, to, -count), from, to - count, count, k);
    OverlayGet(m, from + count, to, -count, k);
  }

  lemma MoveBackKeys(m: Sizes, from: int, to: int, count: int)
    requires count >= 0 && to >= from + count
    ensures MoveResult(m, from, to, count).Keys ==
            Place(Overlay(m, from + count, to, -count), to - count, Block(m, from, count)).Keys
  {
    RangeJoin(from, to - count, to);
    assert from + count + -count == from && to + -count == to - count;
  }

  lemma PlacedBlockAt(m: Sizes, base: Sizes, from: int, s: int, count: int, k: int)
    requires count >= 0
    ensures Get(Place(base, s, Block(m, from, count)), k) ==
            if s <= k < s + count then Get(m, from + (k - s)) else Get(base, k)
  {
    PlaceGet(base, s, Block(m, from, count), k);
  }

  /** Moving a block back and then to the front again puts every index back
      where it was. */
  lemma MoveBackSourceInverse(a: int, b: int, c: int, k: int)
    requires c >= 0 && b > a + c
    ensures MoveSource(a, b, c, MoveSource(b - c, a, c, k)) == k
  {
  }

  /** Moving a block to the front and then back again puts every index back
      where it was. */
  lemma MoveFrontSourceInverse(a: int, b: int, c: int, k: int)
    requires c >= 0 && b < a
    ensures MoveSource(a, b, c, MoveSource(b, a + c, c, k)) == k
  {
  }

  /** Moving a block back and then to the front again restores every size. */
  lemma MoveBackRoundTrip(m: Sizes, a: int, b: int, c: int, k: int)
    requires c >= 0 && b > a + c
    ensures Get(MoveResult(MoveResult(m, a, b, c), b - c, a, c), k) == Get(m, k)
  {
    MoveGet(MoveResult(m, a, b, c), b - c, a, c, k);
    MoveGet(m, a, b, c, MoveSource(b - c, a, c, k));
    MoveBackSourceInverse(a, b, c, k);
  }

  /** Moving a block to the front and then back again restores every size. */
  lemma MoveFrontRoundTrip(m: Sizes, a: int, b: int, c: int, k: int)
    requires c >= 0 && b < a
    ensures Get(MoveResult(MoveResult(m, a, b, c), b, a + c, c), k) == Get(m, k)
  {
    MoveGet(MoveResult(m, a, b, c), b, a + c, c, k);
    MoveGet(m, a, b, c, MoveSource(b, a + c, c, k));
    MoveFrontSourceInverse(a, b, c, k);
  }

  // ---------------------------------------------------------------------
  // Frames: what each operation leaves below an index, and where its keys
  // lie.

  /** Every key of m lies in 0 .. bound - 1. */
  ghost predicate KeysIn(m: Sizes, bound: int)
  {
    forall k :: k in m ==> 0 <= k < bound
  }

  lemma KeysInSize(m: Sizes, bound: int)
    requires 0 <= bound && KeysIn(m, bound)
    ensures |m| <= bound
  {
    SizeWithin(m.Keys, 0, bound);
    assert |m| == |m.Keys|;
  }

  /** makeSpace(s, c) keeps every entry below s, and its keys stay below
      bound + c. */
  lemma MakeSpaceFrame(m: Sizes, s: int, c: int, bound: int)
    requires 0 <= s && 0 <= c && 0 <= bound && KeysIn(m, bound)
    ensures forall k :: k < s ==> Get(MakeSpaceResult(m, s, c), k) == Get(m, k)
    ensures KeysIn(MakeSpaceResult(m, s, c), bound + c)
  {
    KeysInSize(m, bound);
    forall k | k < s
      ensures Get(MakeSpaceResult(m, s, c), k) == Get(m, k)
    {
      MakeSpaceGet(m, s, c, k);
    }
  }

  /** Storing vals at s keeps every entry below s, and its keys stay below
      bound + s + |vals|. */
  lemma PlaceFrame(m: Sizes, s: int, vals: seq<Option<Size>>, bound: int)
    requires 0 <= s && 0 <= bound && KeysIn(m, bound)
    ensures forall k :: k < s ==> Get(Place(m, s, vals), k) == Get(m, k)
    ensures KeysIn(Place(m, s, vals), bound + s + |vals|)
  {
    forall k | k < s
      ensures Get(Place(m, s, vals), k) == Get(m, k)
    {
      PlaceGet(m, s, vals, k);
    }
  }

  /** Removing index .. index + a - 1 keeps every entry below index and
      adds no key. */
  lemma RemoveRangeFrame(m: Sizes, index: int, a: int, bound: int)
    requires KeysIn(m, bound)
    ensures forall k :: k < index ==> Get(RemoveRange(m, index, a), k) == Get(m, k)
    ensures KeysIn(RemoveRange(m, index, a), bound)
  {
  }

  /** remove(index, count) keeps every entry below index, and its keys stay
      below the larger of bound and index. */
  lemma RemoveFrame(m: Sizes, index: int, count: int, m': Sizes, bound: int)
    requires 0 <= index && count >= 0 && 0 <= bound && KeysIn(m, bound) && RemovedBy(m, index, count, m')
    ensures forall k :: k < index ==> Get(m', k) == Get(m, k)
    ensures KeysIn(m', if index <= bound then bound else index)
  {
    var a := ActualCount(|m|, index, count);
    if a >= 0 {
      var e := RemovedStop(m, index, count, a, m');
      ShiftDownFrame(RemoveRange(m, index, a), index, a, e, bound);
    }
  }

  /** remove's second loop, stopped at e, keeps every entry below index,
      and its keys stay below the larger of bound and index. */
  lemma ShiftDownFrame(r: Sizes, index: int, a: int, e: int, bound: int)
    requires a >= 0 && 0 <= index && 0 <= bound && KeysIn(r, bound)
    requires ShiftDownStopsAt(r, index, a, e)
    ensures forall k :: k < index ==> Get(ShiftDownState(r, index, a, e), k) == Get(r, k)
    ensures KeysIn(ShiftDownState(r, index, a, e), if index <= bound then bound else index)
  {
    ShiftDownStopsBelow(r, index, a, e, bound);
  }

  /** The map when move's shifting loop is about to visit index i: toward
      the front the entries i + 1 .. from - 1 have been copied up by count,
      toward the back the entries from + count .. i - 1 down by count. */
  function MoveShifted(m: Sizes, from: int, to: int, count: int, i: int): Sizes
  {
    if to < from then Overlay(m, i + 1, from, count)
    else Overlay(m, from + count, i, -count)
  }

  lemma MoveShiftedStart(m: Sizes, from: int, to: int, count: int)
    ensures MoveShifted(m, from, to, count, if to < from then from - 1 else from + count) == m
  {
    OverlayEmpty(m, from, from, count);
    OverlayEmpty(m, from + count, from + count, -count);
  }

  /** One round of the shifting loop toward the front: the entry at i is
      copied count places up and the loop moves down to i - 1. */
  lemma ShiftedFrontStep(m: Sizes, from: int, to: int, count: int, i: int, cur: Sizes)
    requires 0 <= count && to < from && i < from && cur == MoveShifted(m, from, to, count, i)
    ensures cur[i + count := Get(cur, i)] == MoveShifted(m, from, to, count, i + -1)
  {
    ShiftUpStep(m, i, from, count, cur);
    assert i + -1 + 1 == i;
  }

  /** One round of the shifting loop toward the back: the entry at i is
      copied count places down and the loop moves up to i + 1. */
  lemma ShiftedBackStep(m: Sizes, from: int, to: int, count: int, i: int, cur: Sizes)
    requires 0 <= count && to >= from && from + count <= i && cur == MoveShifted(m, from, to, count, i)
    ensures cur[i - count := Get(cur, i)] == MoveShifted(m, from, to, count, i + 1)
  {
    ShiftBackStep(m, from + count, i, count, cur);
  }

  /** Copying the block, shifting the entries between and storing the
      block at the place the shifting loop ends is the move. */
  lemma MoveByLoops(m: Sizes, from: int, to: int, count: int)
    requires 0 <= count && (to < from || to >= from + count)
    ensures MoveResult(m, from, to, count) ==
              Place(MoveShifted(m, from, to, count, if to < from then to - 1 else to),
                    if to < from then to else to - count, Block(m, from, count))
  {
    if to < from {
      MoveFrontByLoops(m, from, to, count);
      assert to - 1 + 1 == to;
    } else {
      MoveBackByLoops(m, from, to, count);
    }
  }

  /** move(from, to, count) keeps every entry below both from and to, and
      its keys stay below bound + from + to + count. */
  lemma MoveFrame(m: Sizes, from: int, to: int, count: int, bound: int)
    requires 0 <= from && 0 <= to && count >= 0 && (to < from || to >= from + count)
    requires 0 <= bound && KeysIn(m, bound)
    ensures forall k :: k < from && k < to ==> Get(MoveResult(m, from, to, count), k) == Get(m, k)
    ensures KeysIn(MoveResult(m, from, to, count), bound + from + to + count)
  {
    forall k | k < from && k < to
      ensures Get(MoveResult(m, from, to, count), k) == Get(m, k)
    {
      MoveGet(m, from, to, count, k);
    }
  }
}
