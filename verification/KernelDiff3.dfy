/** `EditHammingdiff3`: the kernel for words whose lengths differ by three. */
module KernelDiff3 {
  import opened Words
  import opened EditDistance
  import opened Masks
  import opened Insertions

  /** `s[..i]` is embedded in `t[..i + d]` in order, without a replacement. */
  ghost predicate Embeds(s: Word, t: Word, i: nat, d: nat)
    requires i <= |s| && i + d <= |t|
  {
    Ins(s, t, i, i + d) == 0
  }

  /** `i` is the longest prefix of `s` that fits with `d` insertions. */
  ghost predicate Frontier(s: Word, t: Word, i: nat, d: nat)
    requires |s| + d <= |t|
  {
    i < |s| && Embeds(s, t, i, d) && !Embeds(s, t, i + 1, d)
  }

  lemma EmbedsMore(s: Word, t: Word, i: nat, d: nat, d': nat)
    requires i <= |s| && d <= d' && i + d' <= |t|
    requires Embeds(s, t, i, d)
    ensures Embeds(s, t, i, d')
    decreases d' - d
  {
    if d < d' {
      EmbedsMore(s, t, i, d, d' - 1);
    }
  }

  /** One more insertion moves the frontier exactly as far as the characters keep matching. */
  lemma NextFrontier(s: Word, t: Word, a: nat, b: nat, d: nat)
    requires 0 < d && |s| + d <= |t|
    requires Frontier(s, t, a, d - 1)
    requires a <= b < |s| && Embeds(s, t, b, d) && s[b] != t[b + d]
    ensures Frontier(s, t, b, d)
  {
    InsMonoRange(s, t, a + 1, b + 1, d - 1);
    assert Ins(s, t, b + 1, b + 1 + d) == InsCell(s, t, b + 1, b + 1 + d);
  }

  lemma FrontierStops(s: Word, t: Word, i: nat, d: nat)
    requires |s| + d <= |t|
    requires Frontier(s, t, i, d)
    ensures !Embeds(s, t, |s|, d)
  {
    InsMonoRange(s, t, i + 1, |s|, d);
  }

  /** Distance three is the least possible, and is reached exactly by embedding `s` in `t`. */
  lemma EmbedsIsLev(s: Word, t: Word)
    requires |t| == |s| + 3
    ensures Lev(s, t) >= 3
    ensures Embeds(s, t, |s|, 3) <==> Lev(s, t) <= 3
  {
    DistLengths(s, t, |s|, |t|);
    DistAtMostIns(s, t, |s|, |t|);
    if Lev(s, t) <= 3 {
      InsAtMostDist(s, t, |s|, |t|);
    }
  }

  lemma Found(s: Word, t: Word, d: nat)
    requires |t| == |s| + 3 && d <= 3
    requires Embeds(s, t, |s|, d)
    ensures Exact(0x40, s, t)
  {
    EmbedsMore(s, t, |s|, d, 3);
    EmbedsIsLev(s, t);
  }

  lemma NotFound(s: Word, t: Word)
    requires |t| == |s| + 3
    requires !Embeds(s, t, |s|, 3)
    ensures Exact(0, s, t)
  {
    EmbedsIsLev(s, t);
  }

  method EditHammingDiff3(s: Word, t: Word) returns (r: Mask)
    requires |t| == |s| + 3
    ensures Exact(r, s, t)
  {
    var n := |s|;
    var startpos := 0;
    var i := 0;
    while i < n
      invariant 0 <= i <= n && Embeds(s, t, i, 0)
    {
      if s[i] != t[i] {
        startpos := i;
        break;
      }
      i := i + 1;
    }
    if i == n {
      Found(s, t, 0);
      return 0x40;
    }
    var bla := startpos;
    assert Ins(s, t, bla + 1, bla + 1) == InsCell(s, t, bla + 1, bla + 1);
    var diag := 1;
    while diag <= 3
      invariant 1 <= diag <= 4 && 0 <= bla < n
      invariant Embeds(s, t, bla, 0)
      invariant Frontier(s, t, bla, diag - 1) || !Embeds(s, t, n, 3)
    {
      EmbedsMore(s, t, bla, 0, diag);
      i := bla;
      var j := bla + diag;
      if s[i] == t[j] {
        i, j := i + 1, j + 1;
        while i < n
          invariant bla < i <= n && j == i + diag && Embeds(s, t, i, diag)
        {
          if s[i] != t[j] {
            startpos := i;
            break;
          }
          i, j := i + 1, j + 1;
        }
        if i == n {
          Found(s, t, diag);
          return 0x40;
        }
        var bla2 := startpos;
        if Frontier(s, t, bla, diag - 1) {
          NextFrontier(s, t, bla, bla2, diag);
        }
        var diag2 := diag + 1;
        while diag2 <= 3
          invariant diag < diag2 <= 4 && 0 <= bla2 < n
          invariant Embeds(s, t, bla2, diag)
          invariant Frontier(s, t, bla2, diag2 - 1) || !Frontier(s, t, bla, diag - 1) || !Embeds(s, t, n, 3)
        {
          EmbedsMore(s, t, bla2, diag, diag2);
          i := bla2;
          j := bla2 + diag2;
          if s[i] == t[j] {
            i, j := i + 1, j + 1;
            while i < n
              invariant bla2 < i <= n && j == i + diag2 && Embeds(s, t, i, diag2)
            {
              if s[i] != t[j] {
                startpos := i;
                break;
              }
              i, j := i + 1, j + 1;
            }
            if i == n {
              Found(s, t, diag2);
              return 0x40;
            }
            var bla3 := startpos;
            if Frontier(s, t, bla2, diag2 - 1) {
              NextFrontier(s, t, bla2, bla3, diag2);
            }
            var diag3 := diag2 + 1;
            if diag3 == 3 {
              i := bla3;
              j := bla3 + diag3;
              EmbedsMore(s, t, i, diag2, diag3);
              while At(s, i) == At(t, j) && i < n
                invariant bla3 <= i <= n && j == i + diag3 && Embeds(s, t, i, diag3)
                decreases n - i
              {
                i, j := i + 1, j + 1;
              }
              if i == n {
                Found(s, t, diag3);
                return 0x40;
              }
              if Frontier(s, t, bla3, diag2) {
                NextFrontier(s, t, bla3, i, diag3);
                FrontierStops(s, t, i, diag3);
              }
            } else if Frontier(s, t, bla3, diag2) {
              FrontierStops(s, t, bla3, diag2);
            }
          } else if Frontier(s, t, bla2, diag2 - 1) {
            NextFrontier(s, t, bla2, bla2, diag2);
          }
          diag2 := diag2 + 1;
        }
        if Frontier(s, t, bla2, 3) {
          FrontierStops(s, t, bla2, 3);
        }
      } else if Frontier(s, t, bla, diag - 1) {
        NextFrontier(s, t, bla, bla, diag);
      }
      diag := diag + 1;
    }
    if Frontier(s, t, bla, 3) {
      FrontierStops(s, t, bla, 3);
    }
    NotFound(s, t);
    return 0;
  }
}
