/** Three of the sentence features the summarizer scores: overlap with the title
    (`title_score`), closeness to the ideal length (`length_score`) and position in the
    document (`sentence_position`). */
module Features {
  import opened StopWords
  import opened Keywords

  /** The ideal sentence length, in words (`ideal`). */
  const Ideal: real := 20.0

  function Abs(x: real): (r: real)
    ensures r >= 0.0 && (r == x || r == -x)
  {
    if x < 0.0 then -x else x
  }

  /** How many words of `sentence`, repeats included, are not stop-words and occur in
      `title`. */
  function MatchCount(sentence: seq<string>, title: seq<string>): (n: nat)
    ensures n <= |sentence|
    ensures n == 0 <==> forall w :: w in sentence && !IsStopWord(w) ==> w !in title
  {
    if sentence == [] then 0
    else
      var w := sentence[0];
      assert forall x :: x in sentence <==> x == w || x in sentence[1..];
      (if !IsStopWord(w) && w in title then 1 else 0) + MatchCount(sentence[1..], title)
  }

  /** Every word of the sentence counts on its own, repeats included: the count of a
      concatenation is the sum of the counts. */
  lemma {:induction false} MatchCountAppend(a: seq<string>, b: seq<string>, title: seq<string>)
    ensures MatchCount(a + b, title) == MatchCount(a, title) + MatchCount(b, title)
  {
    if a == [] {
      assert a + b == b;
    } else {
      assert (a + b)[0] == a[0];
      assert (a + b)[1..] == a[1..] + b;
      MatchCountAppend(a[1..], b, title);
    }
  }

  /** A single word counts once when it is a title word other than a stop-word. */
  lemma MatchCountOne(w: string, title: seq<string>)
    ensures MatchCount([w], title) == if !IsStopWord(w) && w in title then 1 else 0
  {
    assert [w][1..] == [];
  }

  lemma Share(n: nat, d: nat)
    requires d > 0
    ensures n as real / d as real >= 0.0
    ensures n as real / d as real == 0.0 <==> n == 0
    ensures n as real / d as real * d as real == n as real
    ensures n <= d ==> n as real / d as real <= 1.0
    ensures n as real / d as real <= n as real
  {
  }

  /** `title_score(title, sentence)`: the share of the title's non-stop-words that the
      sentence's non-stop-words hit, counting every hit, so repeats in the sentence can
      push it above 1. */
  function TitleScore(title: seq<string>, sentence: seq<string>): real {
    HitShare(sentence, ContentWords(title))
  }

  /** The hits of `sentence` on the words `t`, as a share of `|t|`; 0 when `t` is empty. */
  function HitShare(sentence: seq<string>, t: seq<string>): (r: real)
    ensures t == [] ==> r == 0.0
    ensures t != [] ==> r * |t| as real == MatchCount(sentence, t) as real
  {
    if t == [] then 0.0
    else
      var n := MatchCount(sentence, t);
      Share(n, |t|);
      n as real / |t| as real
  }

  /** The title score is never negative, is 0 exactly when no title word other than a
      stop-word occurs in the sentence, and is at most the sentence length. */
  lemma TitleScoreRange(title: seq<string>, sentence: seq<string>)
    ensures TitleScore(title, sentence) >= 0.0
    ensures TitleScore(title, sentence) == 0.0 <==>
      ContentWords(title) == [] || forall w :: w in sentence ==> w !in ContentWords(title)
    ensures TitleScore(title, sentence) <= |sentence| as real
  {
    var t := ContentWords(title);
    if t != [] {
      Share(MatchCount(sentence, t), |t|);
      MatchCountZero(sentence, t);
    }
  }

  lemma MatchCountZero(sentence: seq<string>, t: seq<string>)
    requires forall w :: w in t ==> !IsStopWord(w)
    ensures MatchCount(sentence, t) == 0 <==> forall w :: w in sentence ==> w !in t
  {
  }

  /** A sentence that repeats a title word scores above 1. */
  lemma TitleScoreCanExceedOne(w: string)
    requires !IsStopWord(w)
    ensures TitleScore([w], [w, w]) == 2.0
  {
    var t := [w];
    assert ContentWords(t) == t by {
      assert ContentWords(t[1..]) == [];
    }
    var s := [w, w];
    assert MatchCount(s[1..][1..], t) == 0;
  }

  lemma {:induction false} SubsetSize<T>(a: set<T>, b: set<T>)
    requires a <= b
    ensures |a| <= |b|
    decreases |a|
  {
    if a != {} {
      var x :| x in a;
      SubsetSize(a - {x}, b - {x});
    }
  }

  /** Without repeated words a sentence hits each title word at most once. */
  lemma {:induction false} MatchCountDistinct(sentence: seq<string>, title: seq<string>)
    requires forall a, b :: 0 <= a < b < |sentence| ==> sentence[a] != sentence[b]
    ensures MatchCount(sentence, title) ==
      |set w | w in sentence && !IsStopWord(w) && w in title|
  {
    if sentence != [] {
      var w := sentence[0];
      var rest := sentence[1..];
      MatchCountDistinct(rest, title);
      var all := set x | x in sentence && !IsStopWord(x) && x in title;
      var tail := set x | x in rest && !IsStopWord(x) && x in title;
      assert w !in rest;
      if !IsStopWord(w) && w in title {
        assert all == tail + {w};
      } else {
        assert all == tail;
      }
    }
  }

  /** Title-score is at most 1 for a sentence that repeats no word. */
  lemma TitleScoreAtMostOne(title: seq<string>, sentence: seq<string>)
    requires forall a, b :: 0 <= a < b < |sentence| ==> sentence[a] != sentence[b]
    ensures TitleScore(title, sentence) <= 1.0
  {
    var t := ContentWords(title);
    if t != [] {
      MatchCountAtMostTitle(sentence, t);
      Share(MatchCount(sentence, t), |t|);
    }
  }

  lemma MatchCountAtMostTitle(sentence: seq<string>, t: seq<string>)
    requires forall a, b :: 0 <= a < b < |sentence| ==> sentence[a] != sentence[b]
    ensures MatchCount(sentence, t) <= |t|
  {
    MatchCountDistinct(sentence, t);
    var hit := set w | w in sentence && !IsStopWord(w) && w in t;
    SubsetSize(hit, set w | w in t);
    SetOfSeqSize(t);
  }

  /** `length_score(n)`: 1 at the ideal length of 20 words, falling by 1/20 for every word
      away from it, 0 at 0 and at 40 words and negative beyond. */
  function LengthScore(len: int): (r: real)
    ensures len <= 20 ==> r == len as real / 20.0
    ensures len >= 20 ==> r == (40 - len) as real / 20.0
  {
    1.0 - Abs(Ideal - len as real) / Ideal
  }

  /** The length score peaks at 1 for the ideal length only, is 0 at 0 and at 40 words, and
      is negative outside that range. */
  lemma LengthScoreShape(len: int)
    ensures LengthScore(len) <= 1.0
    ensures LengthScore(len) == 1.0 <==> len == 20
    ensures LengthScore(len) == 0.0 <==> len == 0 || len == 40
    ensures LengthScore(len) < 0.0 <==> len < 0 || len > 40
  {
  }

  /** The length score is symmetric about the ideal length. */
  lemma LengthScoreSymmetric(d: int)
    ensures LengthScore(20 + d) == LengthScore(20 - d)
  {
  }

  /** A length closer to the ideal never scores lower. */
  lemma LengthScoreCloserIsBetter(a: int, b: int)
    requires b - 20 >= a - 20 >= 0 || b - 20 <= a - 20 <= 0
    ensures LengthScore(a) >= LengthScore(b)
  {
  }

  /** The weights of the position table, decile by decile from the start of the document;
      past the ninth decile a sentence gets 0. */
  const DecileWeights: seq<real> := [0.17, 0.23, 0.14, 0.08, 0.05, 0.04, 0.06, 0.04, 0.15]

  /** `sentence_position(i, size)` for the 1-based index `i` of a sentence among `size`:
      the weight of the decile `i / size` falls in, each decile open below and closed above.
      The quotient is compared by cross-multiplication, so `i / size <= k / 10` is
      `10 * i <= k * size`. */
  function SentencePosition(i: int, size: int): (r: real)
    requires size > 0
    ensures r == 0.0 || r in DecileWeights
    ensures i <= 0 || 10 * i > 9 * size ==> r == 0.0
    ensures i == size ==> r == 0.0
  {
    if 0 < i && 10 * i <= size then 0.17
    else if size < 10 * i && 10 * i <= 2 * size then 0.23
    else if 2 * size < 10 * i && 10 * i <= 3 * size then 0.14
    else if 3 * size < 10 * i && 10 * i <= 4 * size then 0.08
    else if 4 * size < 10 * i && 10 * i <= 5 * size then 0.05
    else if 5 * size < 10 * i && 10 * i <= 6 * size then 0.04
    else if 6 * size < 10 * i && 10 * i <= 7 * size then 0.06
    else if 7 * size < 10 * i && 10 * i <= 8 * size then 0.04
    else if 8 * size < 10 * i && 10 * i <= 9 * size then 0.15
    else 0.0
  }

  /** The decile a 1-based position falls in: the least `d` with `i / size <= d / 10`. */
  function Decile(i: nat, size: nat): (d: nat)
    requires 0 < i && 0 < size
    ensures 1 <= d
    ensures (d - 1) * size < 10 * i <= d * size
  {
    var d := (10 * i + size - 1) / size;
    assert d * size + (10 * i + size - 1) % size == 10 * i + size - 1;
    d
  }

  /** The chain of tests in `SentencePosition` is a table lookup by decile. */
  lemma SentencePositionByDecile(i: nat, size: nat)
    requires 0 < i && 0 < size
    ensures Decile(i, size) <= 9 ==> SentencePosition(i, size) == DecileWeights[Decile(i, size) - 1]
    ensures Decile(i, size) > 9 ==> SentencePosition(i, size) == 0.0
  {
    var d := Decile(i, size);
    if d <= 9 {
      InDecile(i, size, d);
    } else {
      assert 9 * size <= (d - 1) * size by {
        MulMono(9, d - 1, size);
      }
    }
  }

  lemma MulMono(a: nat, b: nat, c: nat)
    requires a <= b
    ensures a * c <= b * c
  {
  }

  lemma InDecile(i: nat, size: nat, d: nat)
    requires 0 < size && 1 <= d <= 9
    requires (d - 1) * size < 10 * i <= d * size
    ensures SentencePosition(i, size) == DecileWeights[d - 1]
  {
    var x := 10 * i;
    if d == 1 {
      assert x <= size;
    } else if d == 2 {
      assert size < x <= 2 * size;
    } else if d == 3 {
      assert 2 * size < x <= 3 * size;
    } else if d == 4 {
      assert 3 * size < x <= 4 * size;
    } else if d == 5 {
      assert 4 * size < x <= 5 * size;
    } else if d == 6 {
      assert 5 * size < x <= 6 * size;
    } else if d == 7 {
      assert 6 * size < x <= 7 * size;
    } else if d == 8 {
      assert 7 * size < x <= 8 * size;
    } else {
      assert 8 * size < x <= 9 * size;
    }
  }
}
