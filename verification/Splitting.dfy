/** How query and document strings are cut into words, and for which strings this goes wrong. */
module Splitting {
  import opened Words

  const SPACE := ' '

  /** The string cut at every single space; the pieces between neighbouring spaces are empty. */
  ghost function Pieces(s: seq<char>): (pieces: seq<Word>)
    ensures pieces != []
  {
    if s == [] then [[]]
    else
      var pieces, c := Pieces(s[..|s| - 1]), s[|s| - 1];
      if c == SPACE then pieces + [[]] else pieces[|pieces| - 1 := pieces[|pieces| - 1] + [c]]
  }

  ghost function NonEmpty(pieces: seq<Word>): seq<Word> {
    if pieces == [] then []
    else NonEmpty(pieces[..|pieces| - 1]) + if pieces[|pieces| - 1] == [] then [] else [pieces[|pieces| - 1]]
  }

  /** The words of a string: its pieces between spaces, as far as there is something in them. */
  ghost function WordsIn(s: seq<char>): seq<Word> {
    NonEmpty(Pieces(s))
  }

  lemma {:induction false} PiecesBoth(a: seq<char>, b: seq<char>)
    ensures Pieces(a + [SPACE] + b) == Pieces(a) + Pieces(b)
    decreases |b|
  {
    var s := a + [SPACE] + b;
    if b == [] {
      assert s == a + [SPACE] && s[..|s| - 1] == a;
    } else {
      var b' := b[..|b| - 1];
      PiecesBoth(a, b');
      assert s[..|s| - 1] == a + [SPACE] + b';
    }
  }

  lemma {:induction false} NonEmptyBoth(a: seq<Word>, b: seq<Word>)
    ensures NonEmpty(a + b) == NonEmpty(a) + NonEmpty(b)
    decreases |b|
  {
    if b == [] {
      assert a + b == a;
    } else {
      NonEmptyBoth(a, b[..|b| - 1]);
      assert (a + b)[..|a + b| - 1] == a + b[..|b| - 1];
    }
  }

  /** A string has no words of its own beyond those on either side of a space. */
  lemma WordsBoth(a: seq<char>, b: seq<char>)
    ensures WordsIn(a + [SPACE] + b) == WordsIn(a) + WordsIn(b)
  {
    PiecesBoth(a, b);
    NonEmptyBoth(Pieces(a), Pieces(b));
  }

  lemma {:induction false} OnePiece(w: Word)
    requires SPACE !in w
    ensures Pieces(w) == [w]
    decreases |w|
  {
    if w != [] {
      OnePiece(w[..|w| - 1]);
      assert w == w[..|w| - 1] + [w[|w| - 1]];
    }
  }

  /** Without a space, a string is one word, or none if it is empty. */
  lemma OneWordOrNone(w: Word)
    requires SPACE !in w
    ensures WordsIn(w) == if w == [] then [] else [w]
  {
    OnePiece(w);
    assert NonEmpty([w][..0]) == [];
  }

  /** Words joined by single spaces are the words of the string. */
  lemma {:induction false} WordsOfJoined(words: seq<Word>)
    requires forall w <- words :: w != [] && SPACE !in w
    ensures WordsIn(Joined(words)) == words
    decreases |words|
  {
    hide WordsIn;
    OneWordOrNone([]);
    if words != [] {
      OneWordOrNone(words[0]);
      WordsOfJoined(words[1..]);
      if |words| > 1 {
        WordsBoth(words[0], Joined(words[1..]));
      }
    }
  }

  ghost function Joined(words: seq<Word>): seq<char> {
    if words == [] then [] else if |words| == 1 then words[0] else words[0] + [SPACE] + Joined(words[1..])
  }

  predicate EndsInSpace(s: seq<char>) {
    s != [] && s[|s| - 1] == SPACE
  }

  /** What has been read so far: complete words, and the one that is being read. */
  ghost predicate ReadTo(s: seq<char>, i: nat, words: seq<Word>, word: Word) {
    && i <= |s| && Pieces(s[..i])[|Pieces(s[..i])| - 1] == word
    && NonEmpty(Pieces(s[..i])[..|Pieces(s[..i])| - 1]) == words
  }

  ghost function Completed(words: seq<Word>, word: Word): seq<Word> {
    words + if word == [] then [] else [word]
  }

  lemma ReadNothing(s: seq<char>)
    ensures ReadTo(s, 0, [], [])
  {
    assert s[..0] == [];
  }

  /** One more character. */
  lemma ReadOne(s: seq<char>, i: nat, words: seq<Word>, word: Word)
    requires ReadTo(s, i, words, word) && i < |s|
    ensures if s[i] == SPACE then ReadTo(s, i + 1, Completed(words, word), [])
            else ReadTo(s, i + 1, words, word + [s[i]])
  {
    var pieces := Pieces(s[..i]);
    assert s[..i + 1][..i] == s[..i];
    if s[i] == SPACE {
      assert (pieces + [[]])[..|pieces|] == pieces;
    } else {
      assert pieces[|pieces| - 1 := word + [s[i]]][..|pieces| - 1] == pieces[..|pieces| - 1];
    }
  }

  lemma ReadAll(s: seq<char>, words: seq<Word>, word: Word)
    requires ReadTo(s, |s|, words, word)
    ensures WordsIn(s) == Completed(words, word)
    ensures EndsInSpace(s) ==> word == []
  {
    assert s[..|s|] == s;
  }

  /** Past the spaces, the first of which completes the word before it. */
  method SkipSpaces(s: seq<char>, start: nat, ghost words: seq<Word>, ghost word: Word) returns (i: nat)
    requires ReadTo(s, start, words, word) && (word == [] || (start < |s| && s[start] == SPACE))
    ensures start <= i <= |s| && ReadTo(s, i, Completed(words, word), []) && (i < |s| ==> s[i] != SPACE)
    ensures i == |s| ==> i == start || EndsInSpace(s)
  {
    i := start;
    while i < |s| && s[i] == SPACE
      invariant start <= i <= |s| && (i == |s| ==> i == start || EndsInSpace(s))
      invariant if i == start then ReadTo(s, i, words, word) else ReadTo(s, i, Completed(words, word), [])
    {
      ReadOne(s, i, if i == start then words else Completed(words, word), if i == start then word else []);
      i := i + 1;
    }
  }

  /** Up to the next space, or the end. */
  method ReadWord(s: seq<char>, start: nat, ghost words: seq<Word>) returns (i: nat, word: Word)
    requires ReadTo(s, start, words, [])
    ensures start <= i <= |s| && ReadTo(s, i, words, word) && (i < |s| ==> s[i] == SPACE)
    ensures |word| == i - start && (word != [] && i == |s| ==> !EndsInSpace(s))
  {
    i, word := start, [];
    while i < |s| && s[i] != SPACE
      invariant start <= i <= |s| && ReadTo(s, i, words, word) && |word| == i - start
      invariant i > start ==> s[i - 1] != SPACE
    {
      ReadOne(s, i, words, word);
      word := word + [s[i]];
      i := i + 1;
    }
  }

  /** The loop of `StartQuery`: right unless the string ends in a space, for then an empty word comes on top. */
  method SplitQuery(s: seq<char>) returns (words: seq<Word>)
    ensures words == WordsIn(s) + if EndsInSpace(s) then [[]] else []
  {
    hide ReadTo;
    words := [];
    var i := 0;
    ghost var done: seq<Word>, word: Word := [], [];
    ReadNothing(s);
    while i < |s|
      invariant 0 <= i <= |s| && ReadTo(s, i, done, word)
      invariant s == [] ==> words == done == [] && word == []
      invariant i < |s| ==> words == Completed(done, word) && (word == [] || s[i] == SPACE)
      invariant i == |s| && s != [] ==> words == done + [word] && (word == [] <==> EndsInSpace(s))
      decreases |s| - i
    {
      i := SkipSpaces(s, i, done, word);
      done := Completed(done, word);
      var next;
      i, next := ReadWord(s, i, done);
      words := words + [next];
      word := next;
    }
    ReadAll(s, done, word);
    assert WordsIn(s) + [] == WordsIn(s);
  }

  /**
   * The loop of `JobDedup`: right unless the document ends in a space. Then, with all words read, it comes to a turn
   * that changes nothing, and repeats that for ever.
   */
  method SplitDocument(s: seq<char>) returns (words: seq<Word>, forever: bool)
    ensures words == WordsIn(s) && (forever <==> EndsInSpace(s))
  {
    hide ReadTo;
    words, forever := [], false;
    var i := 0;
    ghost var done: seq<Word>, word: Word := [], [];
    ReadNothing(s);
    var docEnd := |s| == 0;
    while !docEnd
      invariant 0 <= i && words == Completed(done, word)
      invariant if docEnd then ReadTo(s, |s|, done, word) && !EndsInSpace(s)
                else i <= |s| && word == [] && ReadTo(s, i, done, []) && (i == |s| ==> EndsInSpace(s))
      decreases if docEnd then 0 else 1, |s| - i
    {
      var start := i;
      i := SkipSpaces(s, i, done, []);
      var next;
      i, next := ReadWord(s, i, done);
      if |next| == 0 {
        if i == start {
          ReadAll(s, done, []);
          return words, true;
        }
        continue;
      }
      words := words + [next];
      if i == |s| {
        docEnd, word := true, next;
      } else {
        ReadOne(s, i, done, next);
        done := words;
      }
      i := i + 1;
    }
    ReadAll(s, done, word);
  }

  lemma WordAndSpace()
    ensures WordsIn("word ") == ["word"]
  {
    hide ReadTo, WordsIn;
    var s := "word ";
    ReadNothing(s);
    ReadOne(s, 0, [], "");
    ReadOne(s, 1, [], "w");
    ReadOne(s, 2, [], "wo");
    ReadOne(s, 3, [], "wor");
    ReadOne(s, 4, [], "word");
    ReadAll(s, ["word"], "");
  }

  /** The shortest case: one word with a space behind it. */
  method TrailingSpace() returns (query: seq<Word>, document: seq<Word>, forever: bool)
    ensures query == ["word", ""] && document == ["word"] && forever
  {
    WordAndSpace();
    query := SplitQuery("word ");
    document, forever := SplitDocument("word ");
  }
}
