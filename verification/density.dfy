/** The two keyword features of a sentence: summation-based selection (`sbs`), the mean
    keyword weight of its words, and density-based selection (`dbs`), which rewards
    keywords that stand close together. */
module Density {
  import opened StopWords

  /** The keyword weights of the document, as `keywords` builds them. */
  type KeywordTable = map<string, real>

  predicate NonNegative(kw: KeywordTable) {
    forall k :: k in kw ==> kw[k] >= 0.0
  }

  predicate Positive(kw: KeywordTable) {
    forall k :: k in kw ==> kw[k] > 0.0
  }

  predicate AtMost(kw: KeywordTable, bound: real) {
    forall k :: k in kw ==> kw[k] <= bound
  }

  /** The weight of each keyword among `words`, added up word by word, repeats included. */
  function HitWeights(words: seq<string>, kw: KeywordTable): real {
    if words == [] then 0.0
    else (if words[0] in kw then kw[words[0]] else 0.0) + HitWeights(words[1..], kw)
  }

  /** One word adds its weight when it is a keyword and nothing otherwise. */
  lemma HitWeightsOne(w: string, kw: KeywordTable)
    ensures HitWeights([w], kw) == if w in kw then kw[w] else 0.0
  {
    assert [w][1..] == [];
  }

  /** The sum runs over the words one after the other, repeats included: the weights of a
      concatenation are the weights of its parts added up. */
  lemma {:induction false} HitWeightsAppend(a: seq<string>, b: seq<string>, kw: KeywordTable)
    ensures HitWeights(a + b, kw) == HitWeights(a, kw) + HitWeights(b, kw)
  {
    if a == [] {
      assert a + b == b;
    } else {
      assert (a + b)[0] == a[0];
      assert (a + b)[1..] == a[1..] + b;
      HitWeightsAppend(a[1..], b, kw);
    }
  }

  /** Zero exactly when no word is a keyword, once every weight is positive. */
  lemma {:induction false} HitWeightsZero(words: seq<string>, kw: KeywordTable)
    requires Positive(kw)
    ensures HitWeights(words, kw) >= 0.0
    ensures HitWeights(words, kw) == 0.0 <==> forall w :: w in words ==> w !in kw
  {
    if words != [] {
      HitWeightsZero(words[1..], kw);
      assert forall w :: w in words <==> w == words[0] || w in words[1..];
    }
  }

  /** Between 0 and `bound` per word when every weight is. */
  lemma {:induction false} HitWeightsBounds(words: seq<string>, kw: KeywordTable, bound: real)
    requires NonNegative(kw) && AtMost(kw, bound) && bound >= 0.0
    ensures 0.0 <= HitWeights(words, kw) <= bound * |words| as real
  {
    if words != [] {
      HitWeightsBounds(words[1..], kw, bound);
      assert bound * |words| as real == bound + bound * |words[1..]| as real;
    }
  }

  lemma {:induction false} HitWeightsNone(words: seq<string>, kw: KeywordTable)
    requires forall w :: w in words ==> w !in kw
    ensures HitWeights(words, kw) == 0.0
  {
    if words != [] {
      assert words[0] in words;
      assert forall w :: w in words[1..] ==> w in words;
      HitWeightsNone(words[1..], kw);
    }
  }

  /** `sbs(words, keywords)`: the keyword weight of the sentence's words averaged over all
      its words, scaled by 1/10; 0 for a sentence without words or without keywords. */
  function Sbs(words: seq<string>, kw: KeywordTable): (r: real)
    ensures words == [] ==> r == 0.0
    ensures (forall w :: w in words ==> w !in kw) ==> r == 0.0
    ensures NonNegative(kw) ==> r >= 0.0
  {
    if words == [] then 0.0
    else
      var n := |words| as real;
      var total := HitWeights(words, kw);
      assert (forall w :: w in words ==> w !in kw) ==> total == 0.0 by {
        if forall w :: w in words ==> w !in kw {
          HitWeightsNone(words, kw);
        }
      }
      assert NonNegative(kw) ==> total >= 0.0 by {
        if NonNegative(kw) {
          HitWeightsNonNegative(words, kw);
        }
      }
      assert 1.0 / n > 0.0;
      (1.0 / n * total) / 10.0
  }

  lemma {:induction false} HitWeightsNonNegative(words: seq<string>, kw: KeywordTable)
    requires NonNegative(kw)
    ensures HitWeights(words, kw) >= 0.0
  {
    if words != [] {
      HitWeightsNonNegative(words[1..], kw);
    }
  }

  /** `sbs` is the summed keyword weight of the words, repeats included, over the number of
      words and over 10. */
  lemma SbsIsMeanHit(words: seq<string>, kw: KeywordTable)
    requires words != []
    ensures Sbs(words, kw) * |words| as real * 10.0 == HitWeights(words, kw)
  {
    var n := |words| as real;
    var total := HitWeights(words, kw);
    assert Sbs(words, kw) == (1.0 / n * total) / 10.0;
    assert (1.0 / n * total) / 10.0 * n * 10.0 == total;
  }

  /** With weights in `[0, bound]` the score stays in `[0, bound / 10]`: a sentence made only
      of keywords of the highest weight reaches the top. */
  lemma SbsBounds(words: seq<string>, kw: KeywordTable, bound: real)
    requires NonNegative(kw) && AtMost(kw, bound) && bound >= 0.0
    ensures 0.0 <= Sbs(words, kw) <= bound / 10.0
  {
    if words != [] {
      var n := |words| as real;
      var total := HitWeights(words, kw);
      HitWeightsBounds(words, kw, bound);
      assert 1.0 / n * total <= 1.0 / n * (bound * n);
    }
  }

  /** With positive weights, `sbs` is 0 exactly for the sentences without a keyword. */
  lemma SbsZeroIffNoKeyword(words: seq<string>, kw: KeywordTable)
    requires Positive(kw)
    ensures Sbs(words, kw) == 0.0 <==> forall w :: w in words ==> w !in kw
  {
    if words != [] {
      HitWeightsZero(words, kw);
    }
  }

  /** A keyword hit: the position of the word in the sentence and its weight. */
  datatype Hit = Hit(pos: nat, weight: real)

  /** The keyword hits among `words[i..]`, in order. */
  function HitsFrom(words: seq<string>, kw: KeywordTable, i: nat): (hs: seq<Hit>)
    requires i <= |words|
    ensures forall a :: 0 <= a < |hs| ==>
      i <= hs[a].pos < |words| && words[hs[a].pos] in kw && hs[a].weight == kw[words[hs[a].pos]]
    ensures Increasing(hs)
    decreases |words| - i
  {
    if i == |words| then []
    else
      var rest := HitsFrom(words, kw, i + 1);
      if words[i] in kw then
        var hs := [Hit(i, kw[words[i]])] + rest;
        assert forall a :: 0 < a < |hs| ==> hs[a] == rest[a - 1];
        hs
      else rest
  }

  /** No keyword of `words[i..]` is missed. */
  lemma {:induction false} HitsFromComplete(words: seq<string>, kw: KeywordTable, i: nat, p: nat)
    requires i <= p < |words| && words[p] in kw
    ensures exists a :: 0 <= a < |HitsFrom(words, kw, i)| && HitsFrom(words, kw, i)[a].pos == p
    decreases |words| - i
  {
    var hs := HitsFrom(words, kw, i);
    if p == i {
      assert hs[0].pos == p;
    } else {
      HitsFromComplete(words, kw, i + 1, p);
      var rest := HitsFrom(words, kw, i + 1);
      var a :| 0 <= a < |rest| && rest[a].pos == p;
      if words[i] in kw {
        assert hs[a + 1] == rest[a];
      } else {
        assert hs[a] == rest[a];
      }
    }
  }

  /** Every keyword hit of a sentence, left to right. */
  function Hits(words: seq<string>, kw: KeywordTable): seq<Hit> {
    HitsFrom(words, kw, 0)
  }

  predicate Increasing(hs: seq<Hit>) {
    forall a, b :: 0 <= a < b < |hs| ==> hs[a].pos < hs[b].pos
  }

  /** The contribution of two consecutive hits: the product of their weights over the
      square of the distance between them. */
  function PairTerm(older: Hit, newer: Hit): real
    requires older.pos < newer.pos
  {
    var gap := newer.pos - older.pos;
    (newer.weight * older.weight) / (gap * gap) as real
  }

  /** The contributions of all consecutive pairs of hits. */
  function PairSum(hs: seq<Hit>): real
    requires Increasing(hs)
  {
    if |hs| < 2 then 0.0 else PairTerm(hs[0], hs[1]) + PairSum(hs[1..])
  }

  lemma {:induction false} PairSumNonNegative(hs: seq<Hit>)
    requires Increasing(hs)
    requires forall a :: 0 <= a < |hs| ==> hs[a].weight >= 0.0
    ensures PairSum(hs) >= 0.0
  {
    if |hs| >= 2 {
      PairSumNonNegative(hs[1..]);
      var gap := hs[1].pos - hs[0].pos;
      assert hs[1].weight * hs[0].weight >= 0.0;
      assert (gap * gap) as real > 0.0;
    }
  }

  /** The last keyword seen so far while scanning a sentence. */
  datatype LastHit = NoHit | Seen(hit: Hit)

  function Prior(last: LastHit): seq<Hit> {
    match last
    case NoHit => []
    case Seen(h) => [h]
  }

  /** The loop of `dbs`: scanning `words[i..]`, each keyword adds the product of its weight
      and the previous keyword's, over the squared distance to it. The previous keyword
      always lies strictly before `i`, so the distance is never zero. */
  function Scan(words: seq<string>, kw: KeywordTable, i: nat, last: LastHit, acc: real): (r: real)
    requires i <= |words|
    requires last.Seen? ==> last.hit.pos < i
    ensures i == |words| ==> r == acc
    ensures NonNegative(kw) && (last.Seen? ==> last.hit.weight >= 0.0) ==> r >= acc
    ensures (forall j :: i <= j < |words| ==> words[j] !in kw) ==> r == acc
    decreases |words| - i
  {
    if i == |words| then acc
    else if words[i] in kw then
      var hit := Hit(i, kw[words[i]]);
      match last
      case NoHit => Scan(words, kw, i + 1, Seen(hit), acc)
      case Seen(prev) =>
        assert NonNegative(kw) && prev.weight >= 0.0 ==> PairTerm(prev, hit) >= 0.0 by {
          if NonNegative(kw) && prev.weight >= 0.0 {
            var gap := hit.pos - prev.pos;
            assert hit.weight * prev.weight >= 0.0;
            assert (gap * gap) as real > 0.0;
          }
        }
        Scan(words, kw, i + 1, Seen(hit), acc + PairTerm(prev, hit))
    else Scan(words, kw, i + 1, last, acc)
  }

  /** The scan adds exactly the pair contributions of the hits it has yet to see, chained
      after the last one it saw. */
  lemma {:induction false} ScanIsPairSum(words: seq<string>, kw: KeywordTable, i: nat, last: LastHit, acc: real)
    requires i <= |words|
    requires last.Seen? ==> last.hit.pos < i
    ensures Increasing(Prior(last) + HitsFrom(words, kw, i))
    ensures Scan(words, kw, i, last, acc) == acc + PairSum(Prior(last) + HitsFrom(words, kw, i))
    decreases |words| - i, 1
  {
    PriorIncreasing(words, kw, i, last);
    var hs := HitsFrom(words, kw, i);
    if i == |words| {
      assert |Prior(last) + hs| < 2;
    } else if words[i] in kw {
      ScanHitIsPairSum(words, kw, i, last, acc);
    } else {
      assert hs == HitsFrom(words, kw, i + 1);
      ScanIsPairSum(words, kw, i + 1, last, acc);
    }
  }

  /** The step of `ScanIsPairSum` at a keyword. */
  lemma {:induction false} ScanHitIsPairSum(words: seq<string>, kw: KeywordTable, i: nat, last: LastHit, acc: real)
    requires i < |words| && words[i] in kw
    requires last.Seen? ==> last.hit.pos < i
    ensures Increasing(Prior(last) + HitsFrom(words, kw, i))
    ensures Scan(words, kw, i, last, acc) == acc + PairSum(Prior(last) + HitsFrom(words, kw, i))
    decreases |words| - i, 0
  {
    PriorIncreasing(words, kw, i, last);
    var hit := Hit(i, kw[words[i]]);
    HitsFromHit(words, kw, i);
    var hs := HitsFrom(words, kw, i);
    if last.NoHit? {
      assert Scan(words, kw, i, last, acc) == Scan(words, kw, i + 1, Seen(hit), acc);
      ScanIsPairSum(words, kw, i + 1, Seen(hit), acc);
      assert Prior(last) + hs == Prior(Seen(hit)) + HitsFrom(words, kw, i + 1);
      assert Scan(words, kw, i, last, acc) == acc + PairSum(Prior(last) + hs);
    } else {
      var prev := last.hit;
      var term := PairTerm(prev, hit);
      assert Scan(words, kw, i, last, acc) == Scan(words, kw, i + 1, Seen(hit), acc + term);
      ScanIsPairSum(words, kw, i + 1, Seen(hit), acc + term);
      assert Prior(last) + hs == [prev] + hs;
      PairSumCons(prev, hs);
      assert hs[0] == hit;
      assert PairSum(Prior(last) + hs) == term + PairSum(hs);
      assert Scan(words, kw, i, last, acc) == acc + PairSum(Prior(last) + hs);
    }
  }

  lemma HitsFromHit(words: seq<string>, kw: KeywordTable, i: nat)
    requires i < |words| && words[i] in kw
    ensures HitsFrom(words, kw, i) == Prior(Seen(Hit(i, kw[words[i]]))) + HitsFrom(words, kw, i + 1)
  {
  }

  /** The pair sum of a list of hits with one more hit in front. */
  lemma PairSumCons(h: Hit, hs: seq<Hit>)
    requires hs != [] && h.pos < hs[0].pos && Increasing(hs)
    ensures Increasing([h] + hs)
    ensures PairSum([h] + hs) == PairTerm(h, hs[0]) + PairSum(hs)
  {
    var all := [h] + hs;
    forall a, b | 0 <= a < b < |all|
      ensures all[a].pos < all[b].pos
    {
      if a > 0 {
        assert all[a] == hs[a - 1] && all[b] == hs[b - 1];
      } else if b > 1 {
        assert all[b] == hs[b - 1];
      }
    }
    assert all[1..] == hs;
  }

  lemma PriorIncreasing(words: seq<string>, kw: KeywordTable, i: nat, last: LastHit)
    requires i <= |words|
    requires last.Seen? ==> last.hit.pos < i
    ensures Increasing(Prior(last) + HitsFrom(words, kw, i))
  {
    var hs := HitsFrom(words, kw, i);
    if last.NoHit? {
      assert Prior(last) + hs == hs;
    } else if hs != [] {
      PairSumCons(last.hit, hs);
    }
  }

  /** The number of distinct keywords among `words`: `len(set(keywords) & set(words))`. */
  function KeywordsIn(words: seq<string>, kw: KeywordTable): set<string> {
    set w | w in words && w in kw
  }

  /** The factor `1 / (k * (k + 1))` of `dbs`, with `k` one more than the number of
      distinct keywords of the sentence: at most 1/2, reached without any keyword. */
  function DbsScale(words: seq<string>, kw: KeywordTable): (c: real)
    ensures 0.0 < c <= 0.5
    ensures KeywordsIn(words, kw) == {} ==> c == 0.5
  {
    var k := (|KeywordsIn(words, kw)| + 1) as real;
    assert k * (k + 1.0) >= 2.0;
    1.0 / (k * (k + 1.0))
  }

  /** `dbs(words, keywords)`: the pair contributions of consecutive keyword hits, summed by
      the scan and scaled by `DbsScale`; 0 for a sentence without words. */
  function Dbs(words: seq<string>, kw: KeywordTable): (r: real)
    ensures words == [] ==> r == 0.0
  {
    if words == [] then 0.0
    else DbsScale(words, kw) * Scan(words, kw, 0, NoHit, 0.0)
  }

  /** `dbs` is the pair sum over the sentence's hits, scaled by the keyword count. */
  lemma DbsIsPairSum(words: seq<string>, kw: KeywordTable)
    requires words != []
    ensures Increasing(Hits(words, kw))
    ensures Dbs(words, kw) == DbsScale(words, kw) * PairSum(Hits(words, kw))
  {
    ScanFromStart(words, kw);
  }

  lemma ScanFromStart(words: seq<string>, kw: KeywordTable)
    ensures Increasing(Hits(words, kw))
    ensures Scan(words, kw, 0, NoHit, 0.0) == PairSum(Hits(words, kw))
  {
    ScanIsPairSum(words, kw, 0, NoHit, 0.0);
    assert Prior(NoHit) + Hits(words, kw) == Hits(words, kw);
  }

  /** Fewer than two keyword hits leave nothing to pair: `dbs` is 0. */
  lemma DbsNeedsTwoHits(words: seq<string>, kw: KeywordTable)
    requires |Hits(words, kw)| < 2
    ensures Dbs(words, kw) == 0.0
  {
    if words != [] {
      DbsIsPairSum(words, kw);
    }
  }

  /** Non-negative weights give a non-negative `dbs`. */
  lemma DbsNonNegative(words: seq<string>, kw: KeywordTable)
    requires NonNegative(kw)
    ensures Dbs(words, kw) >= 0.0
  {
    if words != [] {
      DbsIsPairSum(words, kw);
      var hs := Hits(words, kw);
      PairSumNonNegative(hs);
      var k := (|KeywordsIn(words, kw)| + 1) as real;
      assert k * (k + 1.0) > 0.0;
    }
  }

  /** Stop-words never score: a sentence of stop-words only has neither keyword feature
      when no keyword is a stop-word, as `keywords` guarantees. */
  lemma StopWordsScoreNothing(words: seq<string>, kw: KeywordTable)
    requires forall w :: w in words ==> IsStopWord(w)
    requires forall k :: k in kw ==> !IsStopWord(k)
    ensures Sbs(words, kw) == 0.0 && Dbs(words, kw) == 0.0
  {
    assert forall w :: w in words ==> w !in kw;
    HitsNone(words, kw, 0);
    DbsNeedsTwoHits(words, kw);
  }

  lemma {:induction false} HitsNone(words: seq<string>, kw: KeywordTable, i: nat)
    requires i <= |words|
    requires forall w :: w in words ==> w !in kw
    ensures HitsFrom(words, kw, i) == []
    decreases |words| - i
  {
    if i < |words| {
      assert words[i] in words;
      HitsNone(words, kw, i + 1);
    }
  }
}
