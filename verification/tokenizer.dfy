/** Splitting a document into word tokens (`split_words`) and into sentences
    (`split_sentences`). */
module Tokenizer {
  import opened Text

  /** The characters `re.sub(r'[^\w ]', '', s)` keeps. */
  predicate IsWordOrSpace(c: char) {
    IsWordChar(c) || c == ' '
  }

  /** `re.sub(r'[^\w ]', '', s)`: keeps the word characters and the plain spaces, in order,
      and removes every other character. */
  function KeepWordChars(s: string): (r: string)
    ensures |r| <= |s|
    ensures forall i :: 0 <= i < |r| ==> IsWordOrSpace(r[i])
    ensures (forall i :: 0 <= i < |s| ==> IsWordOrSpace(s[i])) ==> r == s
    ensures |s| == 1 ==> r == (if IsWordOrSpace(s[0]) then s else [])
  {
    if s == [] then []
    else
      var tail := KeepWordChars(s[1..]);
      var r := (if IsWordOrSpace(s[0]) then [s[0]] else []) + tail;
      assert forall i :: 0 < i < |s| ==> s[1..][i - 1] == s[i];
      r
  }

  /** The substitution works character by character: filtering a concatenation filters
      each part. */
  lemma {:induction false} KeepWordCharsAppend(a: string, b: string)
    ensures KeepWordChars(a + b) == KeepWordChars(a) + KeepWordChars(b)
  {
    if a == [] {
      assert a + b == b;
    } else {
      var head := if IsWordOrSpace(a[0]) then [a[0]] else [];
      assert (a + b)[0] == a[0];
      assert (a + b)[1..] == a[1..] + b;
      KeepWordCharsAppend(a[1..], b);
      assert KeepWordChars(a + b) == head + KeepWordChars(a[1..] + b);
      assert KeepWordChars(a) == head + KeepWordChars(a[1..]);
    }
  }

  /** What `split_words` promises of each token: non-empty, made of word characters only
      (so without spaces or punctuation) and lower-cased. */
  predicate IsToken(t: string) {
    |t| > 0 && forall i :: 0 <= i < |t| ==> IsWordChar(t[i]) && !IsUpper(t[i])
  }

  predicate IsDot(c: char) {
    c == '.'
  }

  /** `piece.strip('.').lower()`. */
  function Token(piece: string): (t: string)
    ensures |t| <= |piece|
    ensures forall i :: 0 <= i < |t| ==> !IsUpper(t[i])
    ensures t == [] || (t[0] != '.' && t[|t| - 1] != '.')
    ensures (forall i :: 0 <= i < |piece| ==> piece[i] != '.') ==> t == Lower(piece)
  {
    var stripped := Strip(piece, IsDot);
    assert forall i :: 0 <= i < |stripped| ==> (LowerChar(stripped[i]) == '.' <==> stripped[i] == '.');
    Lower(stripped)
  }

  /** `split_words(text)`: the lower-cased whitespace-separated pieces of `text` once every
      character other than a word character or a space is deleted. */
  function SplitWords(text: string): (r: seq<string>)
    ensures forall i :: 0 <= i < |r| ==> IsToken(r[i])
  {
    var kept := KeepWordChars(text);
    var pieces := Split(kept);
    SplitKeepsClass(kept, IsWordOrSpace);
    var r := seq(|pieces|, i requires 0 <= i < |pieces| => Token(pieces[i]));
    assert forall i :: 0 <= i < |pieces| ==> r[i] == Lower(pieces[i]) && IsToken(r[i]) by {
      forall i | 0 <= i < |pieces|
        ensures r[i] == Lower(pieces[i]) && IsToken(r[i])
      {
        WordOfKeptIsWordChars(pieces[i]);
      }
    }
    r
  }

  /** A piece `split()` cut from kept characters holds word characters only, so it has no
      dot to strip. */
  lemma WordOfKeptIsWordChars(p: string)
    requires IsWord(p)
    requires forall j :: 0 <= j < |p| ==> IsWordOrSpace(p[j])
    ensures forall j :: 0 <= j < |p| ==> IsWordChar(p[j])
    ensures Strip(p, IsDot) == p
    ensures IsToken(Lower(p))
  {
    assert forall j :: 0 <= j < |p| ==> !IsDot(p[j]);
  }

  /** `strip('.')` never changes a piece: every token is the lower-cased piece. */
  lemma SplitWordsArePieces(text: string)
    ensures |SplitWords(text)| == |Split(KeepWordChars(text))|
    ensures forall i :: 0 <= i < |SplitWords(text)| ==>
      SplitWords(text)[i] == Lower(Split(KeepWordChars(text))[i])
  {
    var kept := KeepWordChars(text);
    var pieces := Split(kept);
    SplitKeepsClass(kept, IsWordOrSpace);
    forall i | 0 <= i < |pieces|
      ensures SplitWords(text)[i] == Lower(pieces[i])
    {
      WordOfKeptIsWordChars(pieces[i]);
    }
  }

  /** A text without a single word character has no tokens. */
  lemma SplitWordsWithoutWordChars(text: string)
    requires forall i :: 0 <= i < |text| ==> !IsWordChar(text[i])
    ensures SplitWords(text) == []
  {
    var kept := KeepWordChars(text);
    KeepWordCharsOnlySpaces(text);
    SplitBlank(kept);
  }

  lemma {:induction false} KeepWordCharsOnlySpaces(s: string)
    requires forall i :: 0 <= i < |s| ==> !IsWordChar(s[i])
    ensures forall i :: 0 <= i < |KeepWordChars(s)| ==> KeepWordChars(s)[i] == ' '
  {
    if s != [] {
      KeepWordCharsOnlySpaces(s[1..]);
    }
  }

  /** Every character of a spaced join of tokens is a word character or a space. */
  lemma {:induction false} JoinedTokensKept(ts: seq<string>)
    requires forall i :: 0 <= i < |ts| ==> IsToken(ts[i])
    ensures forall j :: 0 <= j < |JoinSpaced(ts)| ==> IsWordOrSpace(JoinSpaced(ts)[j])
  {
    if |ts| > 1 {
      JoinedTokensKept(ts[1..]);
      var tail := JoinSpaced(ts[1..]);
      var s := JoinSpaced(ts);
      assert s == ts[0] + [' '] + tail;
      forall j | 0 <= j < |s|
        ensures IsWordOrSpace(s[j])
      {
        if j < |ts[0]| {
          assert s[j] == ts[0][j];
        } else if j > |ts[0]| {
          assert s[j] == tail[j - |ts[0]| - 1];
        }
      }
    }
  }

  /** Tokens are a fixed point of tokenising: re-splitting the tokens joined by spaces gives
      back the same tokens. */
  lemma SplitWordsRoundTrip(text: string)
    ensures SplitWords(JoinSpaced(SplitWords(text))) == SplitWords(text)
  {
    var ts := SplitWords(text);
    JoinedTokensSplit(ts);
    SplitWordsOfTokens(JoinSpaced(ts), ts);
  }

  /** A text whose filtered pieces are already tokens tokenises into exactly those pieces. */
  lemma SplitWordsOfTokens(text: string, ts: seq<string>)
    requires forall i :: 0 <= i < |ts| ==> IsToken(ts[i])
    requires Split(KeepWordChars(text)) == ts
    ensures SplitWords(text) == ts
  {
    SplitWordsArePieces(text);
    TokensAreLower(ts);
    assert forall i :: 0 <= i < |ts| ==> SplitWords(text)[i] == Lower(ts[i]) == ts[i];
  }

  /** Tokens joined by spaces pass the filter unchanged and split back into themselves. */
  lemma JoinedTokensSplit(ts: seq<string>)
    requires forall i :: 0 <= i < |ts| ==> IsToken(ts[i])
    ensures Split(KeepWordChars(JoinSpaced(ts))) == ts
  {
    TokensAreWords(ts);
    SplitJoin(ts);
    JoinedTokensKept(ts);
    assert KeepWordChars(JoinSpaced(ts)) == JoinSpaced(ts);
  }

  lemma TokensAreWords(ts: seq<string>)
    requires forall i :: 0 <= i < |ts| ==> IsToken(ts[i])
    ensures forall i :: 0 <= i < |ts| ==> IsWord(ts[i])
  {
    forall i | 0 <= i < |ts|
      ensures IsWord(ts[i])
    {
      assert forall j :: 0 <= j < |ts[i]| ==> IsWordChar(ts[i][j]) && !IsSpace(ts[i][j]);
    }
  }

  lemma TokensAreLower(ts: seq<string>)
    requires forall i :: 0 <= i < |ts| ==> IsToken(ts[i])
    ensures forall i :: 0 <= i < |ts| ==> Lower(ts[i]) == ts[i]
  {
    forall i | 0 <= i < |ts|
      ensures Lower(ts[i]) == ts[i]
    {
      LowerIdentity(ts[i]);
    }
  }

  /** What the sentence-boundary detector (`nltk.sent_tokenize`) hands back: the raw pieces
      of the text, or the exception it raised. */
  datatype SentenceSplit = Raised | Pieces(items: seq<string>)

  /** The sentence-boundary detector itself; its internals are not part of this model. */
  type SentenceTokenizer = string -> SentenceSplit

  /** `s.replace('\n', ' ')`. */
  function ReplaceNewlines(s: string): (r: string)
    ensures |r| == |s|
    ensures forall i :: 0 <= i < |s| ==> r[i] == (if s[i] == '\n' then ' ' else s[i])
  {
    seq(|s|, i requires 0 <= i < |s| => if s[i] == '\n' then ' ' else s[i])
  }

  predicate NotNewline(c: char) {
    c != '\n'
  }

  /** A sentence as `split_sentences` returns it: no line break inside and no whitespace
      at either end. */
  predicate IsCleanSentence(s: string) {
    (forall i :: 0 <= i < |s| ==> s[i] != '\n')
    && (s == [] || (!IsSpace(s[0]) && !IsSpace(s[|s| - 1])))
  }

  /** `s.replace('\n', ' ').strip()`. */
  function CleanSentence(piece: string): (r: string)
    ensures IsCleanSentence(r)
    ensures |r| <= |piece|
  {
    var replaced := ReplaceNewlines(piece);
    StripKeepsClass(replaced, IsSpace, NotNewline);
    Strip(replaced, IsSpace)
  }

  /** `r` is `piece[lo..hi]` with each line break turned into a space, and everything of
      `piece` outside `lo..hi` is whitespace. */
  predicate CleanedSegment(piece: string, r: string, lo: nat, hi: nat) {
    && lo <= hi <= |piece| && |r| == hi - lo
    && (forall k :: 0 <= k < hi - lo ==>
          r[k] == (if piece[lo + k] == '\n' then ' ' else piece[lo + k]))
    && (forall j :: 0 <= j < lo ==> IsSpace(piece[j]))
    && (forall j :: hi <= j < |piece| ==> IsSpace(piece[j]))
  }

  /** What cleaning leaves of a piece: the segment between its leading and its trailing
      whitespace, with each line break inside turned into a space. */
  lemma CleanSentenceSegment(piece: string)
    ensures exists lo, hi :: CleanedSegment(piece, CleanSentence(piece), lo, hi)
  {
    var replaced := ReplaceNewlines(piece);
    var r := CleanSentence(piece);
    assert r == Strip(replaced, IsSpace);
    var lo, hi :| && 0 <= lo <= hi <= |replaced| && r == replaced[lo..hi]
                  && (forall j :: 0 <= j < lo ==> IsSpace(replaced[j]))
                  && (forall j :: hi <= j < |replaced| ==> IsSpace(replaced[j]));
    CleanedFromStripped(piece, r, lo, hi);
  }

  /** A segment of the replaced piece with whitespace on either side is a cleaned segment
      of the piece itself. */
  lemma CleanedFromStripped(piece: string, r: string, lo: nat, hi: nat)
    requires lo <= hi <= |piece| && r == ReplaceNewlines(piece)[lo..hi]
    requires forall j :: 0 <= j < lo ==> IsSpace(ReplaceNewlines(piece)[j])
    requires forall j :: hi <= j < |piece| ==> IsSpace(ReplaceNewlines(piece)[j])
    ensures CleanedSegment(piece, r, lo, hi)
  {
    var replaced := ReplaceNewlines(piece);
    forall j | 0 <= j < lo
      ensures IsSpace(piece[j])
    {
      assert IsSpace(replaced[j]);
      SpaceBeforeReplace(piece[j]);
    }
    forall j | hi <= j < |piece|
      ensures IsSpace(piece[j])
    {
      assert IsSpace(replaced[j]);
      SpaceBeforeReplace(piece[j]);
    }
    forall k | 0 <= k < hi - lo
      ensures r[k] == (if piece[lo + k] == '\n' then ' ' else piece[lo + k])
    {
      assert r[k] == replaced[lo + k];
    }
  }

  lemma SpaceBeforeReplace(c: char)
    requires IsSpace(if c == '\n' then ' ' else c)
    ensures IsSpace(c)
  {
  }

  /** The raw pieces that pass the length test `len(s) > 15`. */
  function LongPieces(pieces: seq<string>): (r: seq<string>)
    ensures |r| <= |pieces|
    ensures forall j :: 0 <= j < |r| ==> |r[j]| > 15
  {
    if pieces == [] then []
    else
      assert forall p :: p in pieces <==> p == pieces[0] || p in pieces[1..];
      (if |pieces[0]| > 15 then [pieces[0]] else []) + LongPieces(pieces[1..])
  }

  /** A raw piece passes the length test exactly when it is longer than 15 characters. */
  lemma {:induction false} LongPiecesExactly(pieces: seq<string>)
    ensures forall p :: p in LongPieces(pieces) <==> p in pieces && |p| > 15
  {
    if pieces != [] {
      LongPiecesExactly(pieces[1..]);
      assert forall p :: p in pieces <==> p == pieces[0] || p in pieces[1..];
    }
  }

  /** The length test keeps the order and the repeats of the pieces: filtering two runs of
      pieces one after the other is filtering each of them. */
  lemma {:induction false} LongPiecesAppend(a: seq<string>, b: seq<string>)
    ensures LongPieces(a + b) == LongPieces(a) + LongPieces(b)
  {
    if a == [] {
      assert a + b == b;
    } else {
      assert (a + b)[0] == a[0];
      assert (a + b)[1..] == a[1..] + b;
      LongPiecesAppend(a[1..], b);
    }
  }

  /** The list comprehension of `split_sentences`: the length test is made on the raw
      piece, and only the pieces that pass it are cleaned. */
  function KeepLong(pieces: seq<string>): (r: seq<string>)
    ensures |r| == |LongPieces(pieces)|
    ensures forall j :: 0 <= j < |r| ==> r[j] == CleanSentence(LongPieces(pieces)[j])
  {
    if pieces == [] then []
    else
      var tail := KeepLong(pieces[1..]);
      var long := LongPieces(pieces[1..]);
      if |pieces[0]| > 15 then
        var r := [CleanSentence(pieces[0])] + tail;
        assert LongPieces(pieces) == [pieces[0]] + long;
        assert forall j :: 0 < j < |r| ==> r[j] == tail[j - 1] && LongPieces(pieces)[j] == long[j - 1];
        r
      else
        assert LongPieces(pieces) == long;
        tail
  }

  /** `split_sentences(text)`: the cleaned pieces of the detector's output that were longer
      than 15 characters before cleaning; nothing at all when the detector raised. */
  function SplitSentences(tok: SentenceTokenizer, text: string): (r: seq<string>)
    ensures tok(text).Raised? ==> r == []
    ensures tok(text).Pieces? ==> |r| == |LongPieces(tok(text).items)|
    ensures forall j :: 0 <= j < |r| ==> IsCleanSentence(r[j])
  {
    match tok(text)
    case Raised => []
    case Pieces(pieces) => KeepLong(pieces)
  }

  /** The length test looks at the raw piece: a clean sentence followed by line breaks is
      kept as that sentence alone, however short it is, once the piece is long enough. */
  lemma ShortSentenceKept(w: string, n: nat)
    requires w != [] && IsCleanSentence(w)
    requires |w| + n > 15
    ensures KeepLong([w + seq(n, i => '\n')]) == [w]
  {
    var piece := w + seq(n, i => '\n');
    var replaced := ReplaceNewlines(piece);
    assert replaced == w + seq(n, i => ' ');
    assert LongPieces([piece]) == [piece] by {
      assert LongPieces([piece][1..]) == [];
    }
    assert FirstKept(replaced, IsSpace, 0) == 0;
    LastKeptAt(replaced, IsSpace, 0, |replaced|, |w|);
    assert replaced[0..|w|] == w;
  }

  /** So a sentence of three characters can come out of `split_sentences`. */
  lemma ThreeCharacterSentence()
    ensures KeepLong(["Hi." + seq(13, i => '\n')]) == ["Hi."]
  {
    ShortSentenceKept("Hi.", 13);
  }
}
