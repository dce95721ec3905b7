/** `bitarea::results`: the sorted id lists of all matching query slots are merged bottom-up into one. */
module ResultMerge {

  ghost predicate Sorted(s: seq<nat>) {
    forall x, y :: 0 <= x < y < |s| ==> s[x] <= s[y]
  }

  /** Two sorted lists in one; of equal elements the right one goes first. */
  function Merge(a: seq<nat>, b: seq<nat>): (m: seq<nat>)
    ensures |m| == |a| + |b|
    decreases |a| + |b|
  {
    if a == [] then b
    else if b == [] then a
    else if a[0] < b[0] then [a[0]] + Merge(a[1..], b)
    else [b[0]] + Merge(a, b[1..])
  }

  lemma {:induction false} MergeElements(a: seq<nat>, b: seq<nat>)
    ensures multiset(Merge(a, b)) == multiset(a) + multiset(b)
    decreases |a| + |b|
  {
    if a != [] && b != [] {
      if a[0] < b[0] {
        assert a == [a[0]] + a[1..];
        MergeElements(a[1..], b);
      } else {
        assert b == [b[0]] + b[1..];
        MergeElements(a, b[1..]);
      }
    }
  }

  lemma SortedPush(x: nat, s: seq<nat>)
    requires Sorted(s) && (s != [] ==> x <= s[0])
    ensures Sorted([x] + s)
  {
    var t := [x] + s;
    forall i, j | 0 <= i < j < |t| ensures t[i] <= t[j] {
      if i == 0 {
        assert t[j] == s[j - 1];
      } else {
        assert t[i] == s[i - 1] && t[j] == s[j - 1];
      }
    }
  }

  lemma {:induction false} MergeSorted(a: seq<nat>, b: seq<nat>)
    requires Sorted(a) && Sorted(b)
    ensures Sorted(Merge(a, b))
    ensures Merge(a, b) != [] ==> Merge(a, b)[0] == if b == [] || (a != [] && a[0] < b[0]) then a[0] else b[0]
    decreases |a| + |b|
  {
    if a != [] && b != [] {
      if a[0] < b[0] {
        MergeSorted(a[1..], b);
        SortedPush(a[0], Merge(a[1..], b));
      } else {
        MergeSorted(a, b[1..]);
        SortedPush(b[0], Merge(a, b[1..]));
      }
    }
  }

  lemma ThreeParts(s: seq<nat>, from: nat, to: nat)
    requires from <= to <= |s|
    ensures s == s[..from] + s[from..to] + s[to..]
  {
  }

  /** `memcpy` of one range between two arrays. */
  method CopyRange(dest: array<nat>, at: nat, source: array<nat>, from: nat, to: nat)
    requires dest != source && from <= to <= source.Length && at + (to - from) <= dest.Length
    modifies dest
    ensures dest[..] == old(dest[..at]) + source[from..to] + old(dest[at + (to - from)..])
  {
    for x := from to to
      invariant forall i | 0 <= i < dest.Length ::
                  dest[i] == if at <= i < at + (x - from) then source[from + (i - at)] else old(dest[i])
    {
      dest[at + (x - from)] := source[x];
    }
    assert dest[..at] == old(dest[..at]) && dest[at..at + (to - from)] == source[from..to];
    assert dest[at + (to - from)..] == old(dest[at + (to - from)..]);
    ThreeParts(dest[..], at, at + (to - from));
  }

  /** The next comparison decides the next element, and leaves the rest to merge. */
  lemma MergeStep(done: seq<nat>, src: seq<nat>, ind1: nat, mid: nat, ind2: nat, hi: nat)
    requires ind1 < mid <= ind2 < hi <= |src|
    ensures var whole := done + Merge(src[ind1..mid], src[ind2..hi]);
            && (src[ind1] < src[ind2] ==> whole == done + [src[ind1]] + Merge(src[ind1 + 1..mid], src[ind2..hi]))
            && (src[ind1] >= src[ind2] ==> whole == done + [src[ind2]] + Merge(src[ind1..mid], src[ind2 + 1..hi]))
  {
    assert src[ind1..mid][1..] == src[ind1 + 1..mid];
    assert src[ind2..hi][1..] == src[ind2 + 1..hi];
  }

  /** What has been merged so far, and what the rest of the two runs will add to it. */
  ghost predicate Underway(src: seq<nat>, done: seq<nat>, ind1: nat, mid: nat, ind2: nat, hi: nat, whole: seq<nat>) {
    ind1 <= mid <= ind2 <= hi <= |src| && done + Merge(src[ind1..mid], src[ind2..hi]) == whole
  }

  /** The smaller of the two front elements goes to `dest[last]`. */
  method TakeSmaller(source: array<nat>, dest: array<nat>, last: nat, ind1: nat, mid: nat, ind2: nat, hi: nat,
                     ghost src: seq<nat>, ghost whole: seq<nat>) returns (ind1': nat, ind2': nat)
    requires source != dest && last < hi <= source.Length == dest.Length && src == source[..]
    requires ind1 < mid <= ind2 < hi && Underway(src, dest[..last], ind1, mid, ind2, hi, whole)
    modifies dest
    ensures Underway(src, dest[..last + 1], ind1', mid, ind2', hi, whole) && dest[hi..] == old(dest[hi..])
    ensures (ind1' == ind1 + 1 && ind2' == ind2) || (ind1' == ind1 && ind2' == ind2 + 1)
  {
    ind1', ind2' := ind1, ind2;
    MergeStep(dest[..last], src, ind1, mid, ind2, hi);
    ghost var done := dest[..last];
    if source[ind1] < source[ind2] {
      dest[last] := source[ind1];
      ind1' := ind1 + 1;
    } else {
      dest[last] := source[ind2];
      ind2' := ind2 + 1;
    }
    assert dest[..last + 1] == done + [dest[last]];
  }

  /** One merge of two neighbouring runs: at most `lim + 1` comparisons until one is used up, then the other's rest. */
  method MergeTwo(source: array<nat>, dest: array<nat>, lo: nat, mid: nat, hi: nat)
    requires source != dest && lo < mid < hi <= source.Length == dest.Length
    modifies dest
    ensures Merged(source[..], old(dest[..]), dest[..], lo, mid, hi)
  {
    var ind1, eind1, ind2, eind2 := lo, mid - 1, mid, hi - 1;
    var last := lo;
    var lim := eind2 - ind2 + eind1 - ind1;
    ghost var src, rest := source[..], dest[hi..];
    ghost var whole := dest[..lo] + Merge(src[lo..mid], src[mid..hi]);
    var ii := 0;
    while ii < lim + 1
      invariant lo <= ind1 <= eind1 == mid - 1 && mid <= ind2 <= eind2 == hi - 1
      invariant ii == (ind1 - lo) + (ind2 - mid) && last == lo + ii < hi
      invariant dest[hi..] == rest && Underway(src, dest[..last], ind1, mid, ind2, hi, whole)
    {
      ind1, ind2 := TakeSmaller(source, dest, last, ind1, mid, ind2, hi, src, whole);
      last := last + 1;
      if ind1 > eind1 {
        FinishMerge(source, dest, last, ind2, hi, src, whole, rest);
        return;
      } else if ind2 > eind2 {
        FinishMerge(source, dest, last, ind1, mid, src, whole, rest);
        return;
      }
      ii := ii + 1;
    }
    assert false;  // the comparisons cannot run out before one of the runs does
  }

  /** What is left of the other run goes behind what is merged. */
  method FinishMerge(source: array<nat>, dest: array<nat>, last: nat, from: nat, to: nat,
                     ghost src: seq<nat>, ghost whole: seq<nat>, ghost rest: seq<nat>)
    requires source != dest && from <= to <= source.Length && last + (to - from) <= dest.Length
    requires src == source[..] && dest[..last] + src[from..to] == whole && dest[last + (to - from)..] == rest
    modifies dest
    ensures dest[..] == whole + rest
  {
    CopyRange(dest, last, source, from, to);
  }

  /** `d'` is `d` with the merged ranges of `src` between `lo` and `hi`. */
  ghost predicate Merged(src: seq<nat>, d: seq<nat>, d': seq<nat>, lo: nat, mid: nat, hi: nat)
    requires lo <= mid <= hi <= |src| == |d|
  {
    d' == d[..lo] + Merge(src[lo..mid], src[mid..hi]) + d[hi..]
  }

  // ----- runs and blocks of runs -----

  /** Where run number `j` starts; past the last run, where all of them end. */
  function Bound(pos: seq<nat>, n: nat, j: nat): nat {
    if j < |pos| then pos[j] else n
  }

  /** Starts of non-empty runs one behind the other, from 0 to `n`. */
  ghost predicate Starts(pos: seq<nat>, n: nat) {
    && (pos == [] ==> n == 0) && (pos != [] ==> pos[0] == 0)
    && (forall i, j :: 0 <= i < j < |pos| ==> pos[i] < pos[j])
    && (forall j :: 0 <= j < |pos| ==> pos[j] < n)
  }

  lemma BoundGrows(pos: seq<nat>, n: nat, i: nat, j: nat)
    requires Starts(pos, n) && i <= j
    ensures Bound(pos, n, i) <= Bound(pos, n, j) <= n
  {
  }

  /** `t` times `h`, by adding up. */
  function Times(t: nat, h: nat): nat {
    if t == 0 then 0 else Times(t - 1, h) + h
  }

  lemma {:induction false} TimesHalves(t: nat, h: nat)
    ensures Times(t, 2 * h) == Times(2 * t, h) && Times(t, 2 * h) + h == Times(2 * t + 1, h)
    ensures Times(t, 2 * h) + 2 * h == Times(t + 1, 2 * h)
  {
    if t > 0 {
      TimesHalves(t - 1, h);
      assert Times(2 * t, h) == Times(2 * t - 1, h) + h;
    }
  }

  /** The ids of `h` runs from run `j` on. */
  ghost function Block(s: seq<nat>, pos: seq<nat>, j: nat, h: nat): seq<nat>
    requires Starts(pos, |s|)
  {
    BoundGrows(pos, |s|, j, j + h);
    s[Bound(pos, |s|, j)..Bound(pos, |s|, j + h)]
  }

  /** Cut into blocks of `h` runs, each block is sorted as a whole. */
  ghost predicate BlocksSorted(s: seq<nat>, pos: seq<nat>, h: nat)
    requires Starts(pos, |s|)
  {
    forall t: nat :: Sorted(Block(s, pos, Times(t, h), h))
  }

  /** The same for the blocks before block number `end`. */
  ghost predicate BlocksSortedBefore(s: seq<nat>, pos: seq<nat>, h: nat, end: nat)
    requires Starts(pos, |s|)
  {
    forall t: nat | t < end :: Sorted(Block(s, pos, Times(t, h), h))
  }

  lemma {:induction false} TimesMono(t: nat, t': nat, k: nat)
    requires t < t'
    ensures Times(t, k) + k <= Times(t', k)
  {
    if t + 1 < t' {
      TimesMono(t, t' - 1, k);
    }
  }

  /** A block before `lo` does not see what happens from `lo` on. */
  lemma EarlierBlock(d: seq<nat>, d': seq<nat>, pos: seq<nat>, k: nat, t': nat, t: nat)
    requires |d| == |d'| && Starts(pos, |d|) && t' < t
    requires d[..Bound(pos, |d|, Times(t, k))] == d'[..Bound(pos, |d|, Times(t, k))]
    ensures Block(d', pos, Times(t', k), k) == Block(d, pos, Times(t', k), k)
  {
    TimesMono(t', t, k);
    var lo := Bound(pos, |d|, Times(t, k));
    BoundGrows(pos, |d|, Times(t', k), Times(t', k) + k);
    BoundGrows(pos, |d|, Times(t', k) + k, Times(t, k));
    var from, to := Bound(pos, |d|, Times(t', k)), Bound(pos, |d|, Times(t', k) + k);
    assert d[from..to] == d[..lo][from..to] && d'[from..to] == d'[..lo][from..to];
  }

  /** One merge puts a sorted block behind what is done, and loses nothing. */
  lemma RangeMerged(src: seq<nat>, d: seq<nat>, d': seq<nat>, lo: nat, mid: nat, hi: nat)
    requires lo <= mid <= hi <= |src| == |d| && Merged(src, d, d', lo, mid, hi)
    requires Sorted(src[lo..mid]) && Sorted(src[mid..hi]) && multiset(d[..lo]) == multiset(src[..lo])
    ensures |d'| == |d| && d'[..lo] == d[..lo] && Sorted(d'[lo..hi]) && multiset(d'[..hi]) == multiset(src[..hi])
  {
    var left, right := src[lo..mid], src[mid..hi];
    SequenceParts(d[..lo], Merge(left, right), d[hi..]);
    MergeSorted(left, right);
    assert src[..hi] == src[..lo] + left + right;
    NothingLost(d[..lo], src[..lo], left, right);
  }

  lemma SequenceParts(a: seq<nat>, b: seq<nat>, c: seq<nat>)
    ensures var s := a + b + c; s[..|a|] == a && s[|a|..|a| + |b|] == b && s[..|a| + |b|] == a + b
  {
  }

  lemma NothingLost(done: seq<nat>, before: seq<nat>, left: seq<nat>, right: seq<nat>)
    requires multiset(done) == multiset(before)
    ensures multiset(done + Merge(left, right)) == multiset(before + left + right)
  {
    MergeElements(left, right);
  }

  /** The pass has dealt with the blocks before block number `t`: they are sorted and hold the ids they held. */
  ghost predicate PassedTo(src: seq<nat>, d: seq<nat>, pos: seq<nat>, k: nat, t: nat)
    requires Starts(pos, |src|)
  {
    var lo := Bound(pos, |src|, Times(t, k));
    |d| == |src| && lo <= |src| && BlocksSortedBefore(d, pos, k, t) && multiset(d[..lo]) == multiset(src[..lo])
  }

  /** The two halves of block number `t` have been merged. */
  lemma BlockMerged(src: seq<nat>, d: seq<nat>, d': seq<nat>, pos: seq<nat>, h: nat, t: nat, mid: nat, hi: nat)
    requires Starts(pos, |src|) && PassedTo(src, d, pos, 2 * h, t)
    requires hi == Bound(pos, |src|, Times(t + 1, 2 * h)) && Times(t + 1, 2 * h) == Times(t, 2 * h) + 2 * h
    requires var lo := Bound(pos, |src|, Times(t, 2 * h));
             && lo <= mid <= hi <= |src| && Merged(src, d, d', lo, mid, hi)
             && Sorted(src[lo..mid]) && Sorted(src[mid..hi])
    ensures PassedTo(src, d', pos, 2 * h, t + 1)
  {
    var j := Times(t, 2 * h);
    RangeMerged(src, d, d', Bound(pos, |src|, j), mid, hi);
    BlocksSortedMore(d, d', pos, 2 * h, t);
  }

  lemma BlocksSortedMore(d: seq<nat>, d': seq<nat>, pos: seq<nat>, k: nat, t: nat)
    requires |d| == |d'| && Starts(pos, |d|) && BlocksSortedBefore(d, pos, k, t)
    requires d[..Bound(pos, |d|, Times(t, k))] == d'[..Bound(pos, |d|, Times(t, k))]
    requires Sorted(Block(d', pos, Times(t, k), k))
    ensures BlocksSortedBefore(d', pos, k, t + 1)
  {
    forall t': nat | t' < t + 1 ensures Sorted(Block(d', pos, Times(t', k), k)) {
      if t' < t {
        EarlierBlock(d, d', pos, k, t', t);
      }
    }
  }

  /** The runs of block number `t`, and the halves they make. */
  lemma HalvesSorted(s: seq<nat>, pos: seq<nat>, h: nat, t: nat)
    requires Starts(pos, |s|) && BlocksSorted(s, pos, h) && Times(t, 2 * h) + h < |pos|
    ensures var j := Times(t, 2 * h);
            var hi := Bound(pos, |s|, j + 2 * h);
            && pos[j] <= pos[j + h] <= hi <= |s| && Times(t + 1, 2 * h) == j + 2 * h
            && Sorted(s[pos[j]..pos[j + h]]) && Sorted(s[pos[j + h]..hi])
  {
    var j := Times(t, 2 * h);
    TimesHalves(t, h);
    BoundGrows(pos, |s|, j, j + h);
    BoundGrows(pos, |s|, j + h, j + 2 * h);
    assert Sorted(Block(s, pos, Times(2 * t, h), h));
    assert Sorted(Block(s, pos, Times(2 * t + 1, h), h));
  }

  /** From block number `t` on there is at most half a block, and it has been copied. */
  lemma TailCopied(src: seq<nat>, d: seq<nat>, d': seq<nat>, pos: seq<nat>, h: nat, t: nat)
    requires Starts(pos, |src|) && BlocksSorted(src, pos, h) && PassedTo(src, d, pos, 2 * h, t)
    requires var j := Times(t, 2 * h);
             var lo := Bound(pos, |src|, j);
             j + h >= |pos| && d' == d[..lo] + src[lo..]
    ensures BlocksSorted(d', pos, 2 * h) && multiset(d') == multiset(src)
  {
    var j := Times(t, 2 * h);
    var n := |src|;
    var lo := Bound(pos, n, j);
    assert src == src[..lo] + src[lo..];
    assert d'[..lo] == d[..lo];
    forall t': nat ensures Sorted(Block(d', pos, Times(t', 2 * h), 2 * h)) {
      TimesHalves(t', h);
      if t' < t {
        EarlierBlock(d, d', pos, 2 * h, t', t);
      } else if t' == t {
        assert Block(d', pos, j, 2 * h) == src[lo..n] == Block(src, pos, Times(2 * t, h), h);
      } else {
        TimesMono(t, t', 2 * h);
        assert Bound(pos, n, Times(t', 2 * h)) == n;
      }
    }
  }

  /** The loop body of a pass, for block number `t`. */
  method MergeBlock(source: array<nat>, dest: array<nat>, pos: seq<nat>, h: nat, j: nat, ghost src: seq<nat>,
                    ghost t: nat) returns (hi: nat)
    requires source != dest && source.Length == dest.Length && h > 0 && src == source[..]
    requires Starts(pos, |src|) && BlocksSorted(src, pos, h) && PassedTo(src, dest[..], pos, 2 * h, t)
    requires j == Times(t, 2 * h) && j + h < |pos|
    modifies dest
    ensures PassedTo(src, dest[..], pos, 2 * h, t + 1)
    ensures hi == Bound(pos, |src|, j + 2 * h) && j + 2 * h == Times(t + 1, 2 * h)
  {
    hi := if j + 2 * h > |pos| - 1 then source.Length else pos[j + 2 * h];
    ghost var before := dest[..];
    HalvesSorted(src, pos, h, t);
    MergeTwo(source, dest, pos[j], pos[j + h], hi);
    BlockMerged(src, before, dest[..], pos, h, t, pos[j + h], hi);
  }

  /** The end of a pass: what no block was left for is copied. */
  method CopyTail(source: array<nat>, dest: array<nat>, pos: seq<nat>, h: nat, last: nat, ghost src: seq<nat>,
                  ghost t: nat)
    requires source != dest && source.Length == dest.Length && src == source[..]
    requires Starts(pos, |src|) && BlocksSorted(src, pos, h) && PassedTo(src, dest[..], pos, 2 * h, t)
    requires last == Bound(pos, |src|, Times(t, 2 * h)) && Times(t, 2 * h) + h >= |pos|
    modifies dest
    ensures BlocksSorted(dest[..], pos, 2 * h) && multiset(dest[..]) == multiset(src)
  {
    ghost var before := dest[..];
    if last < source.Length {
      CopyRange(dest, last, source, last, source.Length);
    }
    assert dest[..] == before[..last] + src[last..];
    TailCopied(src, before, dest[..], pos, h, t);
  }

  /**
   * One pass over blocks of `2 * h` runs: the two halves of each are merged into `dest`, and a last block with
   * only one half is copied. Whether the last run is left out of the loop makes no difference.
   */
  method Pass(source: array<nat>, dest: array<nat>, pos: seq<nat>, h: nat, john: nat)
    requires source != dest && source.Length == dest.Length && h > 0
    requires Starts(pos, source.Length) && |pos| > 0 && |pos| - 1 <= john <= |pos|
    requires BlocksSorted(source[..], pos, h)
    modifies dest
    ensures BlocksSorted(dest[..], pos, 2 * h)
    ensures multiset(dest[..]) == multiset(source[..])
  {
    var n, k := source.Length, 2 * h;
    var last, j := 0, 0;
    ghost var src, t := source[..], 0;
    while j < john
      invariant j == Times(t, k) && last == Bound(pos, n, j)
      invariant PassedTo(src, dest[..], pos, k, t)
    {
      if j + h > |pos| - 1 {
        break;
      }
      last := MergeBlock(source, dest, pos, h, j, src, t);
      j := j + k;
      t := t + 1;
    }
    CopyTail(source, dest, pos, h, last, src, t);
  }

  // ----- all runs -----

  /** The id lists of the first `n` slots, one behind the other, as far as they are hit. */
  ghost function HitIds(vault: seq<seq<nat>>, hits: seq<bool>, n: nat): seq<nat>
    requires n <= |vault| == |hits|
  {
    if n == 0 then [] else HitIds(vault, hits, n - 1) + if hits[n - 1] then vault[n - 1] else []
  }

  lemma RunAdded(s: seq<nat>, pos: seq<nat>, list: seq<nat>)
    requires Starts(pos, |s|) && BlocksSorted(s, pos, 1) && Sorted(list) && list != []
    ensures Starts(pos + [|s|], |s + list|) && BlocksSorted(s + list, pos + [|s|], 1)
  {
    var s', pos' := s + list, pos + [|s|];
    forall t: nat ensures Sorted(Block(s', pos', Times(t, 1), 1)) {
      TimesOne(t);
      if t < |pos| {
        EarlierRun(s, pos, list, t);
        assert Sorted(Block(s, pos, Times(t, 1), 1));
      } else if t == |pos| {
        assert Block(s', pos', t, 1) == list;
      }
    }
  }

  lemma EarlierRun(s: seq<nat>, pos: seq<nat>, list: seq<nat>, t: nat)
    requires Starts(pos, |s|) && list != [] && t < |pos|
    requires Starts(pos + [|s|], |s + list|)
    ensures Block(s + list, pos + [|s|], t, 1) == Block(s, pos, t, 1)
  {
    BoundGrows(pos, |s|, t, t + 1);
    var from, to := Bound(pos, |s|, t), Bound(pos, |s|, t + 1);
    assert (s + list)[from..to] == s[from..to];
  }

  lemma {:induction false} TimesOne(t: nat)
    ensures Times(t, 1) == t
  {
    if t > 0 {
      TimesOne(t - 1);
    }
  }

  /** The ids of all slots that are hit, list by list; slots without ids make no run. */
  method CollectRuns(vault: seq<seq<nat>>, hits: seq<bool>) returns (results: seq<nat>, pos: seq<nat>)
    requires |vault| == |hits| && forall list <- vault :: Sorted(list)
    ensures results == HitIds(vault, hits, |vault|)
    ensures Starts(pos, |results|) && BlocksSorted(results, pos, 1)
  {
    results, pos := [], [];
    for slot := 0 to |vault|
      invariant results == HitIds(vault, hits, slot)
      invariant Starts(pos, |results|) && BlocksSorted(results, pos, 1)
    {
      if hits[slot] {
        var list := vault[slot];
        if |list| > 0 {
          RunAdded(results, pos, list);
          pos := pos + [|results|];
          ghost var before := results;
          for x := 0 to |list|
            invariant results == before + list[..x]
          {
            results := results + [list[x]];
          }
          assert list[..|list|] == list;
        }
      }
    }
  }

  /** With runs of all blocks merged into the first, everything is sorted. */
  lemma OneBlockLeft(s: seq<nat>, pos: seq<nat>, h: nat)
    requires Starts(pos, |s|) && BlocksSorted(s, pos, h) && h >= |pos|
    ensures Sorted(s)
  {
    assert Sorted(Block(s, pos, Times(0, h), h));
    assert Block(s, pos, 0, h) == s;
  }

  /**
   * Doubling passes between two arrays, source and destination changing places after each; the result
   * is left in `out`.
   */
  method MergeRuns(buffer: array<nat>, out: array<nat>, pos: seq<nat>)
    requires buffer != out && buffer.Length == out.Length > 0
    requires Starts(pos, buffer.Length) && BlocksSorted(buffer[..], pos, 1)
    modifies buffer, out
    ensures Sorted(out[..]) && multiset(out[..]) == old(multiset(buffer[..]))
  {
    var x := |pos|;
    var vag := if x % 2 == 1 then -1 else 1;
    var xx := if x % 2 == 1 && x != 1 then x + 1 else x;
    xx := xx * 2;
    var k := 2;
    var source, dest := buffer, out;
    ghost var h := 1;
    while xx > k
      invariant k == 2 * h && h >= 1 && (vag == 1 || vag == -1)
      invariant (source == buffer && dest == out) || (source == out && dest == buffer)
      invariant BlocksSorted(source[..], pos, h)
      invariant multiset(source[..]) == old(multiset(buffer[..]))
      decreases xx - k
    {
      var john := if vag == -1 then x - 1 else x;
      vag := -vag;
      Pass(source, dest, pos, k / 2, john);
      source, dest := dest, source;
      k, h := k * 2, k;
    }
    OneBlockLeft(source[..], pos, h);
    if source != out {
      CopyRange(out, 0, source, 0, out.Length);
      assert out[..] == source[..];
    }
  }

  /** The ids of all slots a document hits, in ascending order; nothing is allocated when there are none. */
  method Results(vault: seq<seq<nat>>, hits: seq<bool>) returns (count: nat, ids: array?<nat>)
    requires |vault| == |hits| && forall list <- vault :: Sorted(list)
    ensures count == |HitIds(vault, hits, |vault|)|
    ensures ids == null <==> count == 0
    ensures ids != null ==> Sorted(ids[..]) && multiset(ids[..]) == multiset(HitIds(vault, hits, |vault|))
  {
    var results, pos := CollectRuns(vault, hits);
    count := |results|;
    if count == 0 {
      return 0, null;
    }
    var out := new nat[count];
    var buffer := new nat[count](i requires 0 <= i < count => results[i]);
    assert buffer[..] == results;
    MergeRuns(buffer, out, pos);
    ids := out;
  }
}
