/** The one rule of the stored article record that is not plain storage: on saving, a
    missing short title is derived from the title, for the history list. */
module ArticleSummary {
  import opened Text

  /** The most words a short title keeps. */
  const ShortWords: nat := 4

  const Ellipsis: string := "..."

  /** The short title `save` stores: kept when already set or when the title is empty;
      otherwise the title itself when it has at most four words, and else its first four
      words joined by single spaces, followed by an ellipsis. */
  function SavedShortTitle(title: string, shortTitle: string): (r: string)
    ensures title == [] || shortTitle != [] ==> r == shortTitle
    ensures title != [] && shortTitle == [] && |Split(title)| <= ShortWords ==> r == title
    ensures title != [] && shortTitle == [] && |Split(title)| > ShortWords ==>
      r == JoinSpaced(Split(title)[..ShortWords]) + Ellipsis
    ensures title != [] ==> r != []
  {
    if title != [] && shortTitle == [] then
      var words := Split(title);
      if |words| > ShortWords then
        var r := JoinSpaced(words[..ShortWords]) + Ellipsis;
        assert |r| >= |Ellipsis|;
        r
      else title
    else shortTitle
  }

  /** A derived short title splits back into the first three words of the title and the
      fourth with the ellipsis attached: the words themselves are never altered. */
  lemma DerivedShortTitleWords(title: string)
    requires |Split(title)| > ShortWords
    ensures var words := Split(title);
      Split(SavedShortTitle(title, [])) == words[..3] + [words[3] + Ellipsis]
  {
    var words := Split(title);
    var first := words[..ShortWords];
    JoinAppend(first, Ellipsis);
    var parts := first[..3] + [first[3] + Ellipsis];
    assert first[..3] == words[..3];
    forall i | 0 <= i < |parts|
      ensures IsWord(parts[i])
    {
      if i < 3 {
        assert parts[i] == words[i];
      } else {
        assert parts[i] == words[3] + Ellipsis;
        assert IsWord(words[3]);
        assert forall j :: 0 <= j < |Ellipsis| ==> !IsSpace(Ellipsis[j]);
      }
    }
    SplitJoin(parts);
  }

  /** So a short title never has more than four words. */
  lemma ShortTitleAtMostFourWords(title: string)
    ensures |Split(SavedShortTitle(title, []))| <= ShortWords
  {
    if |Split(title)| > ShortWords {
      DerivedShortTitleWords(title);
    }
  }

  /** Saving twice changes nothing more than saving once. */
  lemma SaveIdempotent(title: string, shortTitle: string)
    ensures SavedShortTitle(title, SavedShortTitle(title, shortTitle)) == SavedShortTitle(title, shortTitle)
  {
  }
}
