/** The extractive summary itself: every sentence with words gets a weighted score
    (`score`), the best `max_sents` are kept and put back in document order (`summarize`). */
module Summarizer {
  import opened Tokenizer
  import opened Keywords
  import opened Features
  import opened Density
  import opened Ranking
  import opened StopWords

  /** The weighted score of a sentence from its five features: title overlap weighs 1.5,
      the mean of the two keyword features, times 10, weighs 2, length and position 1 each,
      over 4. Per unit, the keyword features dominate. */
  function Composite(title: real, length: real, position: real, sbs: real, dbs: real): (r: real)
    ensures r == 0.375 * title + 2.5 * sbs + 2.5 * dbs + 0.25 * length + 0.25 * position
  {
    var frequency := (sbs + dbs) / 2.0 * 10.0;
    (title * 1.5 + frequency * 2.0 + length * 1.0 + position * 1.0) / 4.0
  }

  /** The score is monotone in every feature. */
  lemma CompositeMonotone(t: real, l: real, p: real, s: real, d: real,
                          t': real, l': real, p': real, s': real, d': real)
    requires t <= t' && l <= l' && p <= p' && s <= s' && d <= d'
    ensures Composite(t, l, p, s, d) <= Composite(t', l', p', s', d')
  {
  }

  predicate Wordy(s: string) {
    SplitWords(s) != []
  }

  /** The score of the `i`-th sentence (counting from 0) among `sentences`, as the loop of
      `score` computes it; the position feature sees the 1-based index. */
  function SentenceScore(sentences: seq<string>, i: nat, titleWords: seq<string>, kw: KeywordTable): (r: real)
    requires i < |sentences|
    ensures NonNegative(kw) ==> r >= 0.25 * LengthScore(|SplitWords(sentences[i])|)
  {
    var words := SplitWords(sentences[i]);
    TitleScoreRange(titleWords, words);
    assert NonNegative(kw) ==> Dbs(words, kw) >= 0.0 by {
      if NonNegative(kw) {
        DbsNonNegative(words, kw);
      }
    }
    Composite(TitleScore(titleWords, words), LengthScore(|words|),
              SentencePosition(i + 1, |sentences|), Sbs(words, kw), Dbs(words, kw))
  }

  /** The score of every sentence, by position; `score` only uses those of the sentences
      with words. */
  function ScoreVector(sentences: seq<string>, titleWords: seq<string>, kw: KeywordTable): (v: seq<real>)
    ensures |v| == |sentences|
  {
    seq(|sentences|, i requires 0 <= i < |sentences| => SentenceScore(sentences, i, titleWords, kw))
  }

  /** Whether each sentence has words, by position. */
  function WordyFlags(sentences: seq<string>): (f: seq<bool>)
    ensures |f| == |sentences|
  {
    seq(|sentences|, i requires 0 <= i < |sentences| => Wordy(sentences[i]))
  }

  /** One entry of the ranking `score` builds: the key `(i, s)` and its score. */
  datatype Ranked = Ranked(index: nat, sentence: string, score: real)

  predicate ByIndex(rs: seq<Ranked>) {
    forall a, b :: 0 <= a < b < |rs| ==> rs[a].index < rs[b].index
  }

  /** The arguments of the loop of `score`: the sentences, whether each has words, and the
      score each would get. */
  predicate Aligned(sentences: seq<string>, wordy: seq<bool>, sv: seq<real>) {
    |wordy| == |sentences| && |sv| == |sentences|
  }

  /** An entry is the `index`-th sentence, which has words, with its score. */
  predicate Scored(sentences: seq<string>, wordy: seq<bool>, sv: seq<real>, x: Ranked)
    requires Aligned(sentences, wordy, sv)
  {
    && x.index < |sentences|
    && x.sentence == sentences[x.index]
    && wordy[x.index]
    && x.score == sv[x.index]
  }

  /** The loop of `score` from the `i`-th sentence on: one entry per sentence with words, in
      sentence order; sentences without words are skipped. */
  function RankFrom(sentences: seq<string>, wordy: seq<bool>, sv: seq<real>, i: nat): (r: seq<Ranked>)
    requires Aligned(sentences, wordy, sv) && i <= |sentences|
    ensures forall a :: 0 <= a < |r| ==> i <= r[a].index && Scored(sentences, wordy, sv, r[a])
    ensures ByIndex(r)
    decreases |sentences| - i
  {
    if i == |sentences| then []
    else
      var rest := RankFrom(sentences, wordy, sv, i + 1);
      if wordy[i] then
        var r := [Ranked(i, sentences[i], sv[i])] + rest;
        assert forall a :: 0 < a < |r| ==> r[a] == rest[a - 1];
        r
      else rest
  }

  /** No sentence with words is left out of the ranking. */
  lemma {:induction false} RankFromComplete(sentences: seq<string>, wordy: seq<bool>, sv: seq<real>, i: nat, p: nat)
    requires Aligned(sentences, wordy, sv) && i <= p < |sentences| && wordy[p]
    ensures exists a :: 0 <= a < |RankFrom(sentences, wordy, sv, i)| && RankFrom(sentences, wordy, sv, i)[a].index == p
    decreases |sentences| - i
  {
    var r := RankFrom(sentences, wordy, sv, i);
    var rest := RankFrom(sentences, wordy, sv, i + 1);
    if p == i {
      assert r[0].index == p;
    } else {
      RankFromComplete(sentences, wordy, sv, i + 1, p);
      var a :| 0 <= a < |rest| && rest[a].index == p;
      if wordy[i] {
        assert r[a + 1] == rest[a];
      } else {
        assert r[a] == rest[a];
      }
    }
  }

  /** `score(sentences, titleWords, keywords)`: the entries `(i, s)` of the sentences with
      words, in sentence order, each with its score. */
  function Score(sentences: seq<string>, titleWords: seq<string>, kw: KeywordTable): (r: seq<Ranked>)
    ensures forall a :: 0 <= a < |r| ==>
      Scored(sentences, WordyFlags(sentences), ScoreVector(sentences, titleWords, kw), r[a])
    ensures ByIndex(r)
    ensures forall p :: 0 <= p < |sentences| && WordyFlags(sentences)[p] ==>
      exists a :: 0 <= a < |r| && r[a].index == p
  {
    var wordy := WordyFlags(sentences);
    var sv := ScoreVector(sentences, titleWords, kw);
    var r := RankFrom(sentences, wordy, sv, 0);
    assert forall p :: 0 <= p < |sentences| && wordy[p] ==> exists a :: 0 <= a < |r| && r[a].index == p by {
      forall p | 0 <= p < |sentences| && wordy[p]
        ensures exists a :: 0 <= a < |r| && r[a].index == p
      {
        RankFromComplete(sentences, wordy, sv, 0, p);
      }
    }
    r
  }

  function Scores(ranked: seq<Ranked>): (v: seq<real>)
    ensures |v| == |ranked| && forall a :: 0 <= a < |v| ==> v[a] == ranked[a].score
  {
    seq(|ranked|, a requires 0 <= a < |ranked| => ranked[a].score)
  }

  /** `x` comes before `y` in `most_common`: a higher score, or the same score and an earlier
      sentence. */
  predicate Beats(x: Ranked, y: Ranked) {
    x.score > y.score || (x.score == y.score && x.index < y.index)
  }

  /** The positions in `ranked` of the `k` best entries, in sentence order: `most_common(k)`
      followed by `sorted` on the key. */
  function Picks(ranked: seq<Ranked>, k: nat): (ps: seq<nat>)
    ensures |ps| == Min(k, |ranked|)
    ensures Ascending(ps) && InRange(Scores(ranked), ps)
    ensures forall a, j :: 0 <= a < |ps| && 0 <= j < |ranked| && j !in ps ==>
      Outranks(Scores(ranked), ps[a], j)
    ensures k >= |ranked| ==> forall j :: 0 <= j < |ranked| ==> j in ps
  {
    var top := TopRanked(Scores(ranked), k);
    var ps := SortAscending(top);
    assert forall a :: 0 <= a < |ps| ==> ps[a] in top;
    ps
  }

  /** The entries `summarize` keeps, in sentence order, with the guarantee of
      `most_common`: every kept entry beats every entry left out. */
  function Selection(ranked: seq<Ranked>, k: nat): (sel: seq<Ranked>)
    requires ByIndex(ranked)
    ensures |sel| == Min(k, |ranked|)
    ensures ByIndex(sel)
    ensures forall x :: x in sel ==> x in ranked
    ensures forall x, y :: x in sel && y in ranked && y !in sel ==> Beats(x, y)
    ensures k >= |ranked| ==> forall y :: y in ranked ==> y in sel
  {
    var ps := Picks(ranked, k);
    var sel := seq(|ps|, a requires 0 <= a < |ps| => ranked[ps[a]]);
    SelectionBeats(ranked, ps, sel);
    SelectionKeepsAll(ranked, k, ps, sel);
    sel
  }

  lemma SelectionKeepsAll(ranked: seq<Ranked>, k: nat, ps: seq<nat>, sel: seq<Ranked>)
    requires k >= |ranked| ==> forall j :: 0 <= j < |ranked| ==> j in ps
    requires InRange(Scores(ranked), ps)
    requires |sel| == |ps| && forall a :: 0 <= a < |ps| ==> sel[a] == ranked[ps[a]]
    ensures k >= |ranked| ==> forall y :: y in ranked ==> y in sel
  {
    if k >= |ranked| {
      forall y | y in ranked
        ensures y in sel
      {
        var j :| 0 <= j < |ranked| && ranked[j] == y;
        assert j in ps;
        var a :| 0 <= a < |ps| && ps[a] == j;
        assert sel[a] == y;
      }
    }
  }

  lemma SelectionBeats(ranked: seq<Ranked>, ps: seq<nat>, sel: seq<Ranked>)
    requires ByIndex(ranked) && InRange(Scores(ranked), ps)
    requires forall a, j :: 0 <= a < |ps| && 0 <= j < |ranked| && j !in ps ==>
      Outranks(Scores(ranked), ps[a], j)
    requires |sel| == |ps| && forall a :: 0 <= a < |ps| ==> sel[a] == ranked[ps[a]]
    ensures forall x, y :: x in sel && y in ranked && y !in sel ==> Beats(x, y)
  {
    forall x, y | x in sel && y in ranked && y !in sel
      ensures Beats(x, y)
    {
      var a :| 0 <= a < |sel| && sel[a] == x;
      var j :| 0 <= j < |ranked| && ranked[j] == y;
      assert j !in ps by {
        forall b | 0 <= b < |ps|
          ensures ps[b] != j
        {
          assert sel[b] in sel;
        }
      }
      assert Outranks(Scores(ranked), ps[a], j);
    }
  }

  /** The guards of `summarize` that return an empty summary before anything is scored;
      `kw` is the keyword table of the text. */
  predicate Declined(tok: SentenceTokenizer, title: string, text: string, maxSents: int, kw: KeywordTable) {
    || text == [] || title == [] || maxSents <= 0
    || SplitSentences(tok, text) == [] || kw == map[] || SplitWords(title) == []
  }

  /** The sentences `summarize` keeps, as entries of the ranking, in sentence order. */
  function Chosen(tok: SentenceTokenizer, title: string, text: string, maxSents: int, kw: KeywordTable): (sel: seq<Ranked>)
    ensures Declined(tok, title, text, maxSents, kw) ==> sel == []
  {
    if Declined(tok, title, text, maxSents, kw) then []
    else Selection(Score(SplitSentences(tok, text), SplitWords(title), kw), maxSents)
  }

  /** Past the guards, the choice is `most_common(max_sents)` of the ranking, in sentence
      order. */
  lemma ChosenIsSelection(tok: SentenceTokenizer, title: string, text: string, maxSents: int, kw: KeywordTable)
    requires !Declined(tok, title, text, maxSents, kw)
    ensures var ranked := Score(SplitSentences(tok, text), SplitWords(title), kw);
      var sel := Chosen(tok, title, text, maxSents, kw);
      && |sel| == Min(maxSents, |ranked|)
      && ByIndex(sel)
      && (forall x :: x in sel ==> x in ranked)
      && (forall x, y :: x in sel && y in ranked && y !in sel ==> Beats(x, y))
      && (maxSents >= |ranked| ==> forall y :: y in ranked ==> y in sel)
  {
  }

  /** The body of `summarize` once the keyword table `kw` of the text is at hand: the
      chosen sentences, as text. */
  function SummarizeWith(tok: SentenceTokenizer, title: string, text: string, maxSents: int, kw: KeywordTable): (r: seq<string>)
    ensures Declined(tok, title, text, maxSents, kw) ==> r == []
    ensures |r| == |Chosen(tok, title, text, maxSents, kw)|
    ensures forall j :: 0 <= j < |r| ==> r[j] == Chosen(tok, title, text, maxSents, kw)[j].sentence
  {
    Sentences(Chosen(tok, title, text, maxSents, kw))
  }

  function Sentences(sel: seq<Ranked>): (r: seq<string>)
    ensures |r| == |sel| && forall j :: 0 <= j < |r| ==> r[j] == sel[j].sentence
  {
    seq(|sel|, j requires 0 <= j < |sel| => sel[j].sentence)
  }

  /** The summary is made of sentences of the text, each with words, in their order in the
      text. */
  lemma SummaryInTextOrder(tok: SentenceTokenizer, title: string, text: string, maxSents: int, kw: KeywordTable)
    requires !Declined(tok, title, text, maxSents, kw)
    ensures var sentences := SplitSentences(tok, text);
      var sel := Chosen(tok, title, text, maxSents, kw);
      && (forall a :: 0 <= a < |sel| ==>
            sel[a].index < |sentences| && WordyFlags(sentences)[sel[a].index]
            && SummarizeWith(tok, title, text, maxSents, kw)[a] == sentences[sel[a].index])
      && (forall a, b :: 0 <= a < b < |sel| ==> sel[a].index < sel[b].index)
  {
    var sentences := SplitSentences(tok, text);
    var sv := ScoreVector(sentences, SplitWords(title), kw);
    var ranked := Score(sentences, SplitWords(title), kw);
    ChosenIsSelection(tok, title, text, maxSents, kw);
    KeptBeatLeftOut(sentences, WordyFlags(sentences), sv, ranked, Chosen(tok, title, text, maxSents, kw));
  }

  /** No sentence with words that the summary leaves out has a better score than one it
      keeps, and on equal scores the earlier sentence is kept. */
  lemma SummaryKeepsBest(tok: SentenceTokenizer, title: string, text: string, maxSents: int, kw: KeywordTable)
    requires !Declined(tok, title, text, maxSents, kw)
    ensures var sentences := SplitSentences(tok, text);
      var sel := Chosen(tok, title, text, maxSents, kw);
      var sv := ScoreVector(sentences, SplitWords(title), kw);
      && (forall a :: 0 <= a < |sel| ==> sel[a].index < |sentences|)
      && forall a, p ::
        (&& 0 <= a < |sel| && 0 <= p < |sentences| && WordyFlags(sentences)[p]
         && forall b :: 0 <= b < |sel| ==> sel[b].index != p)
        ==> (|| sv[sel[a].index] > sv[p]
             || (sv[sel[a].index] == sv[p] && sel[a].index < p))
  {
    var sentences := SplitSentences(tok, text);
    var sv := ScoreVector(sentences, SplitWords(title), kw);
    var ranked := Score(sentences, SplitWords(title), kw);
    ChosenIsSelection(tok, title, text, maxSents, kw);
    KeptBeatLeftOut(sentences, WordyFlags(sentences), sv, ranked, Chosen(tok, title, text, maxSents, kw));
  }

  /** The summary has `maxSents` sentences, or all the sentences with words when there are
      fewer, and then it has every one of them. */
  lemma SummaryLength(tok: SentenceTokenizer, title: string, text: string, maxSents: int, kw: KeywordTable)
    requires !Declined(tok, title, text, maxSents, kw)
    ensures var sentences := SplitSentences(tok, text);
      var ranked := Score(sentences, SplitWords(title), kw);
      && |SummarizeWith(tok, title, text, maxSents, kw)| == Min(maxSents, |ranked|)
      && (maxSents >= |ranked| ==>
            forall p :: 0 <= p < |sentences| && WordyFlags(sentences)[p] ==>
              exists a :: 0 <= a < |Chosen(tok, title, text, maxSents, kw)| && Chosen(tok, title, text, maxSents, kw)[a].index == p)
  {
    var sentences := SplitSentences(tok, text);
    var ranked := Score(sentences, SplitWords(title), kw);
    var sel := Chosen(tok, title, text, maxSents, kw);
    ChosenIsSelection(tok, title, text, maxSents, kw);
    if maxSents >= |ranked| {
      KeepsAllSentences(sentences, WordyFlags(sentences), ranked, sel);
    }
  }

  /** A choice that keeps every entry of a complete ranking keeps every sentence with
      words. */
  lemma KeepsAllSentences(sentences: seq<string>, wordy: seq<bool>, ranked: seq<Ranked>, sel: seq<Ranked>)
    requires |wordy| == |sentences|
    requires forall p :: 0 <= p < |sentences| && wordy[p] ==>
      exists a :: 0 <= a < |ranked| && ranked[a].index == p
    requires forall y :: y in ranked ==> y in sel
    ensures forall p :: 0 <= p < |sentences| && wordy[p] ==>
      exists a :: 0 <= a < |sel| && sel[a].index == p
  {
    forall p | 0 <= p < |sentences| && wordy[p]
      ensures exists a :: 0 <= a < |sel| && sel[a].index == p
    {
      var c :| 0 <= c < |ranked| && ranked[c].index == p;
      assert ranked[c] in sel;
      var a :| 0 <= a < |sel| && sel[a] == ranked[c];
    }
  }

  /** A choice among the entries of a ranking that beats every entry left out, read back
      in terms of sentence positions. */
  lemma KeptBeatLeftOut(sentences: seq<string>, wordy: seq<bool>, sv: seq<real>,
                        ranked: seq<Ranked>, sel: seq<Ranked>)
    requires Aligned(sentences, wordy, sv)
    requires forall a :: 0 <= a < |ranked| ==> Scored(sentences, wordy, sv, ranked[a])
    requires forall p :: 0 <= p < |sentences| && wordy[p] ==>
      exists a :: 0 <= a < |ranked| && ranked[a].index == p
    requires forall x :: x in sel ==> x in ranked
    requires forall x, y :: x in sel && y in ranked && y !in sel ==> Beats(x, y)
    ensures forall a :: 0 <= a < |sel| ==> Scored(sentences, wordy, sv, sel[a]) && sel[a].index < |sv|
    ensures forall a, p ::
            (&& 0 <= a < |sel| && 0 <= p < |sentences| && wordy[p]
             && forall b :: 0 <= b < |sel| ==> sel[b].index != p)
            ==> (|| sv[sel[a].index] > sv[p]
                 || (sv[sel[a].index] == sv[p] && sel[a].index < p))
  {
    forall a | 0 <= a < |sel|
      ensures Scored(sentences, wordy, sv, sel[a])
    {
      assert sel[a] in ranked;
    }
    forall a, p | && 0 <= a < |sel| && 0 <= p < |sentences| && wordy[p]
                  && forall b :: 0 <= b < |sel| ==> sel[b].index != p
      ensures Beats(sel[a], Ranked(p, sentences[p], sv[p]))
    {
      var c :| 0 <= c < |ranked| && ranked[c].index == p;
      assert ranked[c] !in sel;
      assert sel[a] in sel;
    }
  }

  /** `summarize(title, text, max_sents)`: the keyword table is built once from the whole
      text, and the sentences are scored against it. */
  function Summarize(tok: SentenceTokenizer, title: string, text: string, maxSents: int): (r: seq<string>)
    ensures || text == [] || title == [] || maxSents <= 0
            || SplitSentences(tok, text) == [] || Keywords.Keywords(text) == map[]
            || SplitWords(title) == []
            ==> r == []
  {
    SummarizeWith(tok, title, text, maxSents, Keywords.Keywords(text))
  }

  /** A text whose every word is a stop-word has no keyword, so no summary. */
  lemma StopWordTextHasNoSummary(tok: SentenceTokenizer, title: string, text: string, maxSents: int)
    requires forall w :: w in SplitWords(text) ==> IsStopWord(w)
    ensures Summarize(tok, title, text, maxSents) == []
  {
    KeywordsEmpty(text);
  }
}
