/** The keyword table of a document (`keywords`): its ten most frequent words that are not
    stop-words, each weighted by its relative frequency in the whole document. */
module Keywords {
  import opened Tokenizer
  import opened StopWords
  import opened Ranking

  /** The most entries a keyword table holds. */
  const MaxKeywords: nat := 10

  /** How often `w` occurs in `ws`: the count `Counter(ws)` keeps for it. */
  function Occurrences(ws: seq<string>, w: string): (n: nat)
    ensures n <= |ws|
    ensures n > 0 <==> w in ws
  {
    if ws == [] then 0
    else
      assert w in ws <==> ws[0] == w || w in ws[1..];
      (if ws[0] == w then 1 else 0) + Occurrences(ws[1..], w)
  }

  /** Index of the first occurrence of `w` in `ws`. */
  function IndexOf(ws: seq<string>, w: string): (i: nat)
    requires w in ws
    ensures i < |ws| && ws[i] == w
    ensures forall j :: 0 <= j < i ==> ws[j] != w
  {
    if ws[0] == w then 0 else 1 + IndexOf(ws[1..], w)
  }

  /** The distinct words of `ws`, each once, in order of first occurrence: the keys of
      `Counter(ws)` in their insertion order. */
  function FirstOccurrences(ws: seq<string>): (r: seq<string>)
    ensures Distinct(r)
    ensures forall w :: w in r <==> w in ws
  {
    if ws == [] then []
    else
      var init := ws[..|ws| - 1];
      var last := ws[|ws| - 1];
      var d := FirstOccurrences(init);
      assert ws == init + [last];
      if last in d then d else d + [last]
  }

  lemma IndexOfPrefix(init: seq<string>, last: string, w: string)
    requires w in init
    ensures IndexOf(init + [last], w) == IndexOf(init, w)
  {
    var i, j := IndexOf(init, w), IndexOf(init + [last], w);
    assert (init + [last])[i] == w;
  }

  /** `FirstOccurrences` lists the words in the order they first appear. */
  lemma {:induction false} FirstOccurrencesInOrder(ws: seq<string>)
    ensures forall p, q :: 0 <= p < q < |FirstOccurrences(ws)| ==>
      IndexOf(ws, FirstOccurrences(ws)[p]) < IndexOf(ws, FirstOccurrences(ws)[q])
  {
    if ws != [] {
      var init := ws[..|ws| - 1];
      var last := ws[|ws| - 1];
      var d := FirstOccurrences(init);
      var r := FirstOccurrences(ws);
      assert ws == init + [last];
      FirstOccurrencesInOrder(init);
      forall p, q | 0 <= p < q < |r|
        ensures IndexOf(ws, r[p]) < IndexOf(ws, r[q])
      {
        IndexOfPrefix(init, last, r[p]);
        if q < |d| {
          IndexOfPrefix(init, last, r[q]);
        } else {
          assert r[q] == last && last !in init;
        }
      }
    }
  }

  /** The words of `ws` that are not stop-words, in order. */
  function ContentWords(ws: seq<string>): (r: seq<string>)
    ensures |r| <= |ws|
    ensures forall w :: w in r <==> w in ws && !IsStopWord(w)
  {
    if ws == [] then []
    else
      assert forall w :: w in ws <==> w == ws[0] || w in ws[1..];
      (if IsStopWord(ws[0]) then [] else [ws[0]]) + ContentWords(ws[1..])
  }

  /** The filter keeps the order and the repeats of the words: filtering two runs of words
      one after the other is filtering each of them. */
  lemma {:induction false} ContentWordsAppend(a: seq<string>, b: seq<string>)
    ensures ContentWords(a + b) == ContentWords(a) + ContentWords(b)
  {
    if a == [] {
      assert a + b == b;
    } else {
      var head := if IsStopWord(a[0]) then [] else [a[0]];
      assert (a + b)[0] == a[0];
      assert (a + b)[1..] == a[1..] + b;
      ContentWordsAppend(a[1..], b);
      assert ContentWords(a + b) == head + ContentWords(a[1..] + b);
      assert ContentWords(a) == head + ContentWords(a[1..]);
    }
  }

  /** Dropping stop-words leaves the count of every other word unchanged. */
  lemma {:induction false} ContentOccurrences(ws: seq<string>, w: string)
    requires !IsStopWord(w)
    ensures Occurrences(ContentWords(ws), w) == Occurrences(ws, w)
  {
    if ws != [] {
      ContentOccurrences(ws[1..], w);
      var head := if IsStopWord(ws[0]) then [] else [ws[0]];
      OccurrencesAppend(head, ContentWords(ws[1..]), w);
    }
  }

  lemma {:induction false} OccurrencesAppend(a: seq<string>, b: seq<string>, w: string)
    ensures Occurrences(a + b, w) == Occurrences(a, w) + Occurrences(b, w)
  {
    if a == [] {
      assert a + b == b;
    } else {
      assert (a + b)[0] == a[0];
      assert (a + b)[1..] == a[1..] + b;
      OccurrencesAppend(a[1..], b, w);
      assert Occurrences(a + b, w) == (if a[0] == w then 1 else 0) + Occurrences(a[1..] + b, w);
    }
  }

  /** The weight of a word seen `count` times among `total` words:
      `count / total * 1.5 + 1`. */
  function Weight(count: nat, total: nat): (w: real)
    requires 1 <= count <= total
    ensures 1.0 < w <= 2.5
  {
    var freq := count as real / total as real;
    assert 0.0 < freq <= 1.0 by {
      assert count as real <= total as real;
    }
    freq * 1.5 + 1.0
  }

  /** The counts of the distinct words `keys` in `ws`, as reals so they can be ranked. */
  function Counts(ws: seq<string>, keys: seq<string>): (v: seq<real>)
    ensures |v| == |keys|
  {
    seq(|keys|, p requires 0 <= p < |keys| => Occurrences(ws, keys[p]) as real)
  }

  /** The words `keywords` keeps, best first: the distinct non-stop-words of `words`
      ranked by count, ties going to the word that appears first, cut after ten. */
  function TopWords(words: seq<string>): (r: seq<string>)
    ensures |r| == Min(MaxKeywords, |FirstOccurrences(ContentWords(words))|)
    ensures Distinct(r)
    ensures forall k :: k in r ==> k in words && !IsStopWord(k)
    ensures KeptBeatDropped(words, ContentWords(words), r)
    ensures |FirstOccurrences(ContentWords(words))| <= MaxKeywords ==>
      forall u :: u in words && !IsStopWord(u) ==> u in r
    ensures (exists u :: u in words && !IsStopWord(u)) ==> r != []
  {
    var content := ContentWords(words);
    var keys := FirstOccurrences(content);
    var counts := Counts(content, keys);
    var top := TopRanked(counts, MaxKeywords);
    var r := seq(|top|, a requires 0 <= a < |top| => keys[top[a]]);
    assert TopWordsParts(words, content, keys, counts, top, r);
    TopWordsFacts(words, content, keys, counts, top, r);
    TopWordsBeat(words, content, keys, counts, top, r);
    TopWordsCover(words, content, keys, counts, top, r);
    r
  }

  /** Every word kept in `r` beats every non-stop-word of `words` left out: it occurs more
      often, or as often and comes earlier in `content`, the non-stop-words of `words`. */
  predicate KeptBeatDropped(words: seq<string>, content: seq<string>, r: seq<string>) {
    forall k, u :: k in r && u in words && !IsStopWord(u) && u !in r ==>
      && k in content && u in content
      && (|| Occurrences(words, k) > Occurrences(words, u)
          || (&& Occurrences(words, k) == Occurrences(words, u)
              && IndexOf(content, k) < IndexOf(content, u)))
  }

  /** The ingredients `TopWords` is built from. */
  predicate TopWordsParts(words: seq<string>, content: seq<string>, keys: seq<string>,
                          counts: seq<real>, top: seq<nat>, r: seq<string>)
  {
    && content == ContentWords(words)
    && keys == FirstOccurrences(content)
    && counts == Counts(content, keys)
    && top == TopRanked(counts, MaxKeywords)
    && |r| == |top| && (forall a :: 0 <= a < |top| ==> top[a] < |keys|)
    && (forall a :: 0 <= a < |top| ==> r[a] == keys[top[a]])
  }

  lemma TopWordsFacts(words: seq<string>, content: seq<string>, keys: seq<string>,
                      counts: seq<real>, top: seq<nat>, r: seq<string>)
    requires TopWordsParts(words, content, keys, counts, top, r)
    ensures Distinct(r)
    ensures forall k :: k in r ==> k in words && !IsStopWord(k)
  {
    TopWordsDistinct(words, content, keys, counts, top, r);
    forall k | k in r
      ensures k in words && !IsStopWord(k)
    {
      var a :| 0 <= a < |r| && r[a] == k;
      assert k in keys;
    }
  }

  /** The stable top-ten cut, read back in terms of words. */
  lemma TopWordsBeat(words: seq<string>, content: seq<string>, keys: seq<string>,
                     counts: seq<real>, top: seq<nat>, r: seq<string>)
    requires TopWordsParts(words, content, keys, counts, top, r)
    ensures KeptBeatDropped(words, content, r)
  {
    forall k, u | k in r && u in words && !IsStopWord(u) && u !in r
      ensures k in content && u in content
      ensures || Occurrences(words, k) > Occurrences(words, u)
              || (&& Occurrences(words, k) == Occurrences(words, u)
                  && IndexOf(content, k) < IndexOf(content, u))
    {
      TopWordsDominate(words, content, keys, counts, top, r, k, u);
    }
  }

  /** How many words `TopWords` keeps, and that it keeps them all when there are few. */
  lemma TopWordsCover(words: seq<string>, content: seq<string>, keys: seq<string>,
                      counts: seq<real>, top: seq<nat>, r: seq<string>)
    requires TopWordsParts(words, content, keys, counts, top, r)
    ensures |r| == Min(MaxKeywords, |keys|)
    ensures |keys| <= MaxKeywords ==> forall u :: u in words && !IsStopWord(u) ==> u in r
    ensures (exists u :: u in words && !IsStopWord(u)) ==> r != []
  {
    if |keys| <= MaxKeywords {
      forall u | u in words && !IsStopWord(u)
        ensures u in r
      {
        assert u in content && u in keys;
        var j :| 0 <= j < |keys| && keys[j] == u;
        assert j in top;
        var b :| 0 <= b < |top| && top[b] == j;
        assert r[b] == u;
      }
    }
    forall u | u in words && !IsStopWord(u)
      ensures r != []
    {
      assert u in content && u in keys;
    }
  }

  lemma TopWordsDistinct(words: seq<string>, content: seq<string>, keys: seq<string>,
                         counts: seq<real>, top: seq<nat>, r: seq<string>)
    requires TopWordsParts(words, content, keys, counts, top, r)
    ensures Distinct(r)
  {
    forall a, b | 0 <= a < b < |r|
      ensures r[a] != r[b]
    {
      assert top[a] != top[b];
    }
  }

  lemma TopWordsDominate(words: seq<string>, content: seq<string>, keys: seq<string>,
                         counts: seq<real>, top: seq<nat>, r: seq<string>, k: string, u: string)
    requires TopWordsParts(words, content, keys, counts, top, r)
    requires k in r && u in words && !IsStopWord(u) && u !in r
    ensures k in content && u in content
    ensures || Occurrences(words, k) > Occurrences(words, u)
            || (&& Occurrences(words, k) == Occurrences(words, u)
                && IndexOf(content, k) < IndexOf(content, u))
  {
    var a :| 0 <= a < |r| && r[a] == k;
    assert k in keys;
    assert u in content && u in keys;
    var j :| 0 <= j < |keys| && keys[j] == u;
    var i := top[a];
    assert j !in top by {
      forall b | 0 <= b < |top|
        ensures top[b] != j
      {
        assert r[b] in r;
      }
    }
    assert Outranks(counts, i, j);
    assert counts[i] == Occurrences(content, k) as real;
    assert counts[j] == Occurrences(content, u) as real;
    ContentOccurrences(words, k);
    ContentOccurrences(words, u);
    if counts[i] == counts[j] {
      assert i < j;
      FirstOccurrencesInOrder(content);
      assert IndexOf(content, keys[i]) < IndexOf(content, keys[j]);
    }
  }

  /** `keywords(text)`: the words `TopWords` keeps, each weighted by `Weight` of its count
      against the number of all words of the text, stop-words included; empty for a text
      without words. */
  function Keywords(text: string): (r: map<string, real>)
    ensures |r| == |TopWords(SplitWords(text))|
    ensures |r| <= MaxKeywords
    ensures forall k :: k in r ==> k in TopWords(SplitWords(text))
    ensures forall k :: k in r ==> !IsStopWord(k) && k in SplitWords(text)
    ensures forall k :: k in r ==> 1.0 < r[k] <= 2.5
  {
    var words := SplitWords(text);
    if words == [] then map[]
    else
      var content := ContentWords(words);
      var chosen := TopWords(words);
      DistinctSetSize(chosen);
      var r := map k | k in chosen :: Weight(Occurrences(content, k), |words|);
      assert r.Keys == set k | k in chosen;
      r
  }

  lemma {:induction false} SetOfSeqSize<T>(s: seq<T>)
    ensures |set x | x in s| <= |s|
  {
    if s != [] {
      SetOfSeqSize(s[1..]);
      assert (set x | x in s) == {s[0]} + (set x | x in s[1..]);
    }
  }

  /** A list without repeats has as many elements as its set. */
  lemma {:induction false} DistinctSetSize<T>(s: seq<T>)
    requires Distinct(s)
    ensures |set x | x in s| == |s|
  {
    if s != [] {
      DistinctSetSize(s[1..]);
      assert (set x | x in s) == {s[0]} + (set x | x in s[1..]);
      assert s[0] !in s[1..];
    }
  }

  /** The keys are exactly the words `TopWords` keeps. */
  lemma KeywordKeys(text: string)
    ensures forall k :: k in Keywords(text) <==> k in TopWords(SplitWords(text))
  {
  }

  /** Each weight is the word's relative frequency among all the words of the text,
      stop-words included, scaled by 1.5 and raised by 1. */
  lemma KeywordWeights(text: string)
    ensures forall k :: k in Keywords(text) ==>
      Keywords(text)[k] == Weight(Occurrences(SplitWords(text), k), |SplitWords(text)|)
  {
    forall k | k in Keywords(text)
      ensures Keywords(text)[k] == Weight(Occurrences(SplitWords(text), k), |SplitWords(text)|)
    {
      ContentOccurrences(SplitWords(text), k);
    }
  }

  /** The table is empty exactly when the text has no word that is not a stop-word. */
  lemma KeywordsEmpty(text: string)
    ensures Keywords(text) == map[] <==> forall w :: w in SplitWords(text) ==> IsStopWord(w)
  {
    var words := SplitWords(text);
    var chosen := TopWords(words);
    if words != [] && chosen != [] {
      assert chosen[0] in Keywords(text);
    }
  }
}
