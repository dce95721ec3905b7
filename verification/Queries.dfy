/** A query as it comes in: its words in `strcmp` order, each once, and the hash value it is looked up by. */
module Queries {
  import opened Words
  import opened MatchPrune
  import opened TokenStructs

  const MAX_QUERY_WORDS := 5

  /** What a query asks for, whoever asks. */
  datatype Pattern = Pattern(mt: MatchType, dist: nat, words: seq<Word>)

  /** `strcmp`: negative, zero or positive. */
  function StrCmp(a: Word, b: Word): int {
    if a == [] && b == [] then 0
    else if a == [] then -1
    else if b == [] then 1
    else if a[0] < b[0] then -1
    else if a[0] > b[0] then 1
    else StrCmp(a[1..], b[1..])
  }

  lemma {:induction false} StrCmpSwaps(a: Word, b: Word)
    ensures StrCmp(a, b) == -StrCmp(b, a) && (StrCmp(a, b) == 0 <==> a == b)
    decreases |a|
  {
    if a != [] && b != [] && a[0] == b[0] {
      StrCmpSwaps(a[1..], b[1..]);
      assert a == [a[0]] + a[1..] && b == [b[0]] + b[1..];
    }
  }

  lemma {:induction false} StrCmpChains(a: Word, b: Word, c: Word)
    requires StrCmp(a, b) < 0 && StrCmp(b, c) < 0
    ensures StrCmp(a, c) < 0
    decreases |a|
  {
    if a != [] && b != [] && c != [] && a[0] == b[0] == c[0] {
      StrCmpChains(a[1..], b[1..], c[1..]);
    }
  }

  /** The first character that differs decides. */
  lemma {:induction false} FirstDifference(a: Word, b: Word, i: nat)
    requires i < |a| && i < |b| && a[..i] == b[..i] && a[i] < b[i]
    ensures StrCmp(a, b) < 0 < StrCmp(b, a)
    decreases i
  {
    if i > 0 {
      assert a[0] == a[..i][0] == b[..i][0] == b[0];
      assert a[1..][..i - 1] == a[..i][1..] == b[..i][1..] == b[1..][..i - 1];
      FirstDifference(a[1..], b[1..], i - 1);
    }
  }

  /** A word comes in front of every longer word that starts with it. */
  lemma {:induction false} PrefixFirst(a: Word, b: Word)
    requires a < b
    ensures StrCmp(a, b) < 0 < StrCmp(b, a)
    decreases |a|
  {
    if a != [] {
      PrefixFirst(a[1..], b[1..]);
    }
  }

  /** What a query may ask for. */
  ghost predicate IsPattern(p: Pattern) {
    && IsRequest(p.mt, p.dist) && 1 <= |p.words| <= MAX_QUERY_WORDS
    && Ascending(p.words) && forall w <- p.words :: IsToken(w)
  }

  ghost predicate Ascending(words: seq<Word>) {
    forall x, y :: 0 <= x < y < |words| ==> StrCmp(words[x], words[y]) < 0
  }

  lemma AscendingDistinct(words: seq<Word>, x: nat, y: nat)
    requires Ascending(words) && x < y < |words|
    ensures words[x] != words[y]
  {
    StrCmpSwaps(words[x], words[y]);
  }

  /** Queries with the same words have the same token list, whatever order the words came in. */
  lemma {:induction false} SameWordsSameTokens(a: seq<Word>, b: seq<Word>)
    requires Ascending(a) && Ascending(b) && forall w :: w in a <==> w in b
    ensures a == b
    decreases |a|
  {
    if a == [] {
      FirstIsIn(b);
    } else {
      assert a[0] in b;
      assert b[0] in a;
      SameFirst(a, b);
      forall w ensures w in a[1..] <==> w in b[1..] {
        RestOf(a, w);
        RestOf(b, w);
      }
      SameWordsSameTokens(a[1..], b[1..]);
      assert a == [a[0]] + a[1..] && b == [b[0]] + b[1..];
    }
  }

  /** The empty word comes first. */
  lemma EmptyWordFirst(words: seq<Word>)
    requires Ascending(words) && [] in words
    ensures words[0] == []
  {
    StrCmpSwaps(words[0], []);
  }

  lemma FirstIsIn<T>(a: seq<T>)
    ensures a == [] || a[0] in a
  {
  }

  lemma SameFirst(a: seq<Word>, b: seq<Word>)
    requires Ascending(a) && Ascending(b) && a != [] && b != [] && a[0] in b && b[0] in a
    ensures a[0] == b[0]
  {
    StrCmpSwaps(a[0], b[0]);
  }

  lemma RestOf(a: seq<Word>, w: Word)
    requires Ascending(a) && a != []
    ensures w in a[1..] <==> w in a && w != a[0]
  {
    if w in a[1..] {
      var x :| 0 <= x < |a| - 1 && a[1..][x] == w;
      AscendingDistinct(a, 0, x + 1);
    }
  }

  // ----- the hash value -----

  /** What the first `n` characters of the word at position `x` add to the sum. */
  ghost function CharSum(x: nat, w: Word, n: nat): nat
    requires n <= |w|
  {
    if n == 0 then 0 else CharSum(x, w, n - 1) + (x + 1) * n * (w[n - 1] as int)
  }

  /** Every other word counts. */
  ghost function WordSum(words: seq<Word>, n: nat): nat
    requires n <= |words|
  {
    if n == 0 then 0 else WordSum(words, n - 1) + if n % 2 == 1 then CharSum(n - 1, words[n - 1], |words[n - 1]|) else 0
  }

  function TypeNumber(mt: MatchType): nat {
    match mt
    case ExactMatch => 0
    case HammingDist => 1
    case EditDist => 2
  }

  ghost function HashOf(p: Pattern): nat {
    WordSum(p.words, |p.words|) + 100000 * (p.dist + 3 * TypeNumber(p.mt))
  }

  lemma {:induction false} CharChanged(x: nat, w: Word, n: nat, i: nat, c: char)
    requires i < |w| && n <= |w|
    ensures CharSum(x, w[i := c], n) ==
            CharSum(x, w, n) + if i < n then (x + 1) * (i + 1) * (c as int - w[i] as int) else 0
    decreases n
  {
    if n > 0 {
      CharChanged(x, w, n - 1, i, c);
      if i == n - 1 {
        Weighted((x + 1) * n, c as int, w[i] as int);
      }
    }
  }

  lemma Weighted(k: int, c: int, c': int)
    ensures k * c == k * c' + k * (c - c')
  {
  }

  lemma {:induction false} WordChanged(words: seq<Word>, n: nat, x: nat, w: Word)
    requires x < |words| && n <= |words|
    ensures WordSum(words[x := w], n) == WordSum(words, n) +
            if x < n && x % 2 == 0 then CharSum(x, w, |w|) - CharSum(x, words[x], |words[x]|) else 0
    decreases n
  {
    if n > 0 {
      WordChanged(words, n - 1, x, w);
    }
  }

  /** What each character is worth: its value, times its position and that of its word, in every other word. */
  lemma HashChanged(p: Pattern, x: nat, i: nat, c: char)
    requires x < |p.words| && i < |p.words[x]|
    ensures HashOf(p.(words := p.words[x := p.words[x][i := c]])) ==
            HashOf(p) + if x % 2 == 0 then (x + 1) * (i + 1) * (c as int - p.words[x][i] as int) else 0
  {
    WordChanged(p.words, |p.words|, x, p.words[x][i := c]);
    CharChanged(x, p.words[x], |p.words[x]|, i, c);
  }

  lemma {:induction false} NoCharacters(words: seq<Word>, n: nat)
    requires n <= |words| && forall w <- words :: w == []
    ensures WordSum(words, n) == 0
    decreases n
  {
    if n > 0 {
      NoCharacters(words, n - 1);
      assert words[n - 1] in words;
    }
  }

  /** What is there without any characters: 0 to 2 for the type, three times over, and the distance. */
  lemma HashOfNothing(p: Pattern)
    requires forall w <- p.words :: w == []
    ensures HashOf(p) == 100000 * (p.dist + if p.mt.ExactMatch? then 0 else if p.mt.HammingDist? then 3 else 6)
  {
    NoCharacters(p.words, |p.words|);
  }

  lemma HashOfOneWord()
    ensures HashOf(Pattern(EditDist, 1, ["word"])) == 701083
  {
    var w := "word";
    assert CharSum(0, w, 4) == 119 + 2 * 111 + 3 * 114 + 4 * 100 by {
      assert CharSum(0, w, 1) == 119 && CharSum(0, w, 2) == 341 && CharSum(0, w, 3) == 683;
    }
    assert WordSum([w], 1) == 1083;
  }

  /** The words add up to less than what type and distance are multiplied by. */
  ghost predicate Light(p: Pattern) {
    WordSum(p.words, |p.words|) < 100000
  }

  /** The quotient tells type and distance only as long as the words do not spill over into it. */
  lemma HashQuotient(p: Pattern)
    ensures HashOf(p) / 100000 == TypeNumber(p.mt) * 3 + p.dist <==> Light(p)
  {
  }

  lemma {:induction false} LongWordSum(w: Word, n: nat)
    requires n <= |w| && forall x | 0 <= x < |w| :: w[x] == 'z'
    ensures CharSum(2, w, n) == 183 * n * (n + 1)
  {
    if n > 0 {
      LongWordSum(w, n - 1);
    }
  }

  /** Two short words and one of 31 letters. */
  const HEAVY: Pattern := Pattern(ExactMatch, 0, ["aaaa", "bbbb", seq(31, _ => 'z')])

  /** A query heavy enough to be mistaken for one of another type. */
  lemma HeavyQuery()
    ensures IsPattern(HEAVY) && !Light(HEAVY)
    ensures HashOf(HEAVY) / 100000 != TypeNumber(HEAVY.mt) * 3 + HEAVY.dist
  {
    hide WordSum;
    HeavySum(HEAVY.words);
    var w := HEAVY.words[2];
    assert StrCmp("aaaa", "bbbb") < 0 && StrCmp("aaaa", w) < 0 && StrCmp("bbbb", w) < 0;
    HashQuotient(HEAVY);
  }

  lemma HeavySum(words: seq<Word>)
    requires |words| == 3 && |words[2]| == 31 && forall x | 0 <= x < 31 :: words[2][x] == 'z'
    ensures WordSum(words, 3) >= 100000
  {
    LongWordSum(words[2], 31);
  }

  class Query {
    const qid: nat
    const mt: MatchType
    const dist: nat
    var tokens: seq<Word>

    ghost predicate Valid()
      reads this
    {
      Ascending(tokens) && |tokens| <= MAX_QUERY_WORDS && IsRequest(mt, dist) && forall w <- tokens :: IsToken(w)
    }

    function Asked(): Pattern
      reads this
    {
      Pattern(mt, dist, tokens)
    }

    constructor (mt: MatchType, dist: nat, qid: nat)
      requires IsRequest(mt, dist)
      ensures Valid() && this.mt == mt && this.dist == dist && this.qid == qid && tokens == []
    {
      this.mt, this.dist, this.qid := mt, dist, qid;
      tokens := [];
    }

    /** Puts a word where it belongs, unless it is there already. */
    method AddToken(token: Word)
      requires Valid() && IsToken(token) && (|tokens| < MAX_QUERY_WORDS || token in tokens)
      modifies this
      ensures Valid() && |tokens| <= |old(tokens)| + 1 && forall w :: w in tokens <==> w in old(tokens) || w == token
    {
      var i := 0;
      while i < |tokens| && StrCmp(tokens[i], token) < 0
        invariant i <= |tokens|
        invariant forall x | 0 <= x < i :: StrCmp(tokens[x], token) < 0
      {
        i := i + 1;
      }
      if i < |tokens| && StrCmp(tokens[i], token) == 0 {
        StrCmpSwaps(tokens[i], token);
        return;
      }
      Inserted(tokens, i, token);
      tokens := tokens[..i] + [token] + tokens[i..];
    }

    method HashValue() returns (t: nat)
      requires Valid()
      ensures t == HashOf(Asked())
    {
      t := 0;
      var x := 0;
      while x < |tokens|
        invariant x % 2 == 0 && t == WordSum(tokens, if x < |tokens| then x else |tokens|)
      {
        var w := tokens[x];
        ghost var before := t;
        for i := 0 to |w|
          invariant t == before + CharSum(x, w, i)
        {
          t := t + (x + 1) * (i + 1) * (w[i] as int);
        }
        x := x + 2;
      }
      t := t + 100000 * (dist + 3 * TypeNumber(mt));
    }
  }

  lemma Inserted(tokens: seq<Word>, i: nat, token: Word)
    requires Ascending(tokens) && i <= |tokens| && (i < |tokens| ==> StrCmp(tokens[i], token) > 0)
    requires forall x | 0 <= x < i :: StrCmp(tokens[x], token) < 0
    ensures token !in tokens && Ascending(tokens[..i] + [token] + tokens[i..])
    ensures forall w :: w in tokens[..i] + [token] + tokens[i..] <==> w in tokens || w == token
  {
    var tokens' := tokens[..i] + [token] + tokens[i..];
    forall x | i <= x < |tokens| ensures StrCmp(token, tokens[x]) < 0 {
      StrCmpSwaps(tokens[i], token);
      if i < x {
        StrCmpChains(token, tokens[i], tokens[x]);
      }
    }
    forall x | 0 <= x < |tokens| ensures tokens[x] != token {
      StrCmpSwaps(tokens[x], token);
      StrCmpSwaps(token, tokens[x]);
    }
    forall x, y | 0 <= x < y < |tokens'| ensures StrCmp(tokens'[x], tokens'[y]) < 0 {
    }
    assert tokens == tokens[..i] + tokens[i..];
  }
}
