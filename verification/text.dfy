/** The parts of Python's `str` behaviour that the summarizer and the short-title rule rely on:
    the `isspace` class, the `\w` class, `lower()`, `strip()`, `split()` and `' '.join()`. */
module Text {

  /** `str.isspace()`: every character for which it holds, which are exactly the
      characters `split()` and `strip()` without arguments cut on. */
  predicate IsSpace(c: char) {
    || c == ' ' || ('\t' <= c <= '\r') || ('\U{1C}' <= c <= '\U{1F}')
    || c == '\U{85}' || c == '\U{A0}' || c == '\U{1680}' || ('\U{2000}' <= c <= '\U{200A}')
    || c == '\U{2028}' || c == '\U{2029}' || c == '\U{202F}' || c == '\U{205F}' || c == '\U{3000}'
  }

  /** The regular-expression class `\w`, on ASCII: letters, digits and the underscore. */
  predicate IsWordChar(c: char) {
    ('a' <= c <= 'z') || ('A' <= c <= 'Z') || ('0' <= c <= '9') || c == '_'
  }

  predicate IsUpper(c: char) {
    'A' <= c <= 'Z'
  }

  /** `lower()` on one ASCII character; every other character is its own lower case. */
  function LowerChar(c: char): (d: char)
    ensures !IsUpper(d)
    ensures IsWordChar(c) <==> IsWordChar(d)
    ensures !IsUpper(c) ==> d == c
  {
    if IsUpper(c) then (c as int - 'A' as int + 'a' as int) as char else c
  }

  function Lower(s: string): (r: string)
    ensures |r| == |s|
    ensures forall i :: 0 <= i < |s| ==> r[i] == LowerChar(s[i])
  {
    seq(|s|, i requires 0 <= i < |s| => LowerChar(s[i]))
  }

  /** Lower-casing changes nothing in a string that has no upper-case letter. */
  lemma LowerIdentity(s: string)
    requires forall i :: 0 <= i < |s| ==> !IsUpper(s[i])
    ensures Lower(s) == s
  {
  }

  /** Index of the first character at or after `i` that `drop` does not hold for
      (`|s|` when there is none). */
  function FirstKept(s: string, drop: char -> bool, i: nat): (n: nat)
    requires i <= |s|
    ensures i <= n <= |s|
    ensures forall j :: i <= j < n ==> drop(s[j])
    ensures n == |s| || !drop(s[n])
    decreases |s| - i
  {
    if i < |s| && drop(s[i]) then FirstKept(s, drop, i + 1) else i
  }

  /** End of the kept part of `s[lo..hi]`: the index just after its last character
      that `drop` does not hold for (`lo` when there is none). */
  function LastKept(s: string, drop: char -> bool, lo: nat, hi: nat): (n: nat)
    requires lo <= hi <= |s|
    ensures lo <= n <= hi
    ensures forall j :: n <= j < hi ==> drop(s[j])
    ensures n == lo || !drop(s[n - 1])
    decreases hi
  {
    if lo < hi && drop(s[hi - 1]) then LastKept(s, drop, lo, hi - 1) else hi
  }

  /** `s.strip(chars)`: removes the leading and the trailing characters that `drop` holds for. */
  function Strip(s: string, drop: char -> bool): (r: string)
    ensures |r| <= |s|
    ensures r == [] || (!drop(r[0]) && !drop(r[|r| - 1]))
    ensures (forall i :: 0 <= i < |s| ==> !drop(s[i])) ==> r == s
    ensures (forall i :: 0 <= i < |s| ==> drop(s[i])) ==> r == []
    ensures exists lo, hi ::
              && 0 <= lo <= hi <= |s| && r == s[lo..hi]
              && (forall j :: 0 <= j < lo ==> drop(s[j]))
              && (forall j :: hi <= j < |s| ==> drop(s[j]))
  {
    var lo := FirstKept(s, drop, 0);
    var hi := LastKept(s, drop, lo, |s|);
    assert (forall i :: 0 <= i < |s| ==> !drop(s[i])) ==> lo == 0 && hi == |s| by {
      if (forall i :: 0 <= i < |s| ==> !drop(s[i])) && |s| > 0 {
        assert !drop(s[0]) && !drop(s[|s| - 1]);
      }
    }
    s[lo..hi]
  }

  /** Every character `strip` keeps comes from the stripped string: a class of characters
      that covers the string covers what is left of it. */
  lemma StripKeepsClass(s: string, drop: char -> bool, ok: char -> bool)
    requires forall i :: 0 <= i < |s| ==> ok(s[i])
    ensures forall i :: 0 <= i < |Strip(s, drop)| ==> ok(Strip(s, drop)[i])
  {
    var lo := FirstKept(s, drop, 0);
    var hi := LastKept(s, drop, lo, |s|);
    assert Strip(s, drop) == s[lo..hi];
  }

  /** A word that `split()` can return: non-empty and free of whitespace. */
  predicate IsWord(w: string) {
    |w| > 0 && forall i :: 0 <= i < |w| ==> !IsSpace(w[i])
  }

  /** Index just after the run of non-whitespace characters that starts at `i`. */
  function WordEnd(s: string, i: nat): (n: nat)
    requires i <= |s|
    ensures i <= n <= |s|
    ensures forall j :: i <= j < n ==> !IsSpace(s[j])
    ensures n == |s| || IsSpace(s[n])
    decreases |s| - i
  {
    if i < |s| && !IsSpace(s[i]) then WordEnd(s, i + 1) else i
  }

  /** The words of `s[i..]`, as `split()` finds them. */
  function SplitFrom(s: string, i: nat): (r: seq<string>)
    requires i <= |s|
    ensures forall k :: 0 <= k < |r| ==> IsWord(r[k])
    decreases |s| - i
  {
    var a := FirstKept(s, IsSpace, i);
    if a == |s| then []
    else
      var b := WordEnd(s, a);
      var w := s[a..b];
      assert IsWord(w);
      var tail := SplitFrom(s, b);
      var r := [w] + tail;
      assert forall k :: 0 < k < |r| ==> r[k] == tail[k - 1];
      r
  }

  /** `s.split()`: the maximal runs of non-whitespace characters, left to right. */
  function Split(s: string): (r: seq<string>)
    ensures forall k :: 0 <= k < |r| ==> IsWord(r[k])
  {
    SplitFrom(s, 0)
  }

  /** A string made of whitespace only splits into no words. */
  lemma SplitBlank(s: string)
    requires forall i :: 0 <= i < |s| ==> IsSpace(s[i])
    ensures Split(s) == []
  {
  }

  /** Every character of every word of `s[i..]` comes from `s[i..]`: a class of characters
      that covers the string covers every word. */
  lemma {:induction false} SplitFromKeepsClass(s: string, i: nat, ok: char -> bool)
    requires i <= |s|
    requires forall j :: i <= j < |s| ==> ok(s[j])
    ensures forall k, j :: 0 <= k < |SplitFrom(s, i)| && 0 <= j < |SplitFrom(s, i)[k]| ==> ok(SplitFrom(s, i)[k][j])
    decreases |s| - i
  {
    var a := FirstKept(s, IsSpace, i);
    if a < |s| {
      var b := WordEnd(s, a);
      SplitFromKeepsClass(s, b, ok);
      var r, tail := SplitFrom(s, i), SplitFrom(s, b);
      assert r == [s[a..b]] + tail;
      forall k, j | 0 <= k < |r| && 0 <= j < |r[k]|
        ensures ok(r[k][j])
      {
        if k == 0 {
          assert r[k][j] == s[a + j];
        } else {
          assert r[k] == tail[k - 1];
        }
      }
    }
  }

  lemma SplitKeepsClass(s: string, ok: char -> bool)
    requires forall j :: 0 <= j < |s| ==> ok(s[j])
    ensures forall k, j :: 0 <= k < |Split(s)| && 0 <= j < |Split(s)[k]| ==> ok(Split(s)[k][j])
  {
    SplitFromKeepsClass(s, 0, ok);
  }

  /** Splitting is blind to a prefix it has already passed. */
  lemma {:induction false} SplitFromShift(p: string, t: string, i: nat)
    requires i <= |t|
    ensures SplitFrom(p + t, |p| + i) == SplitFrom(t, i)
    decreases |t| - i
  {
    var s := p + t;
    var a := FirstKeptShift(p, t, i);
    if a < |t| {
      var b := WordEndShift(p, t, a);
      SplitFromShift(p, t, b);
      var w1, w2 := s[|p| + a..|p| + b], t[a..b];
      assert forall j :: 0 <= j < |w1| ==> w1[j] == s[|p| + a + j] == t[a + j] == w2[j];
      assert w1 == w2;
      assert SplitFrom(s, |p| + i) == [w1] + SplitFrom(s, |p| + b);
      assert SplitFrom(t, i) == [w2] + SplitFrom(t, b);
    }
  }

  /** The end of the kept part is the index `n` that every characterisation points to. */
  lemma {:induction false} LastKeptAt(s: string, drop: char -> bool, lo: nat, hi: nat, n: nat)
    requires lo <= n <= hi <= |s|
    requires forall j :: n <= j < hi ==> drop(s[j])
    requires n == lo || !drop(s[n - 1])
    ensures LastKept(s, drop, lo, hi) == n
    decreases hi
  {
    if n < hi {
      LastKeptAt(s, drop, lo, hi - 1, n);
    }
  }

  lemma {:induction false} FirstKeptShift(p: string, t: string, i: nat) returns (a: nat)
    requires i <= |t|
    ensures a == FirstKept(t, IsSpace, i)
    ensures FirstKept(p + t, IsSpace, |p| + i) == |p| + a
    decreases |t| - i
  {
    var s := p + t;
    if i < |t| && IsSpace(t[i]) {
      assert s[|p| + i] == t[i];
      a := FirstKeptShift(p, t, i + 1);
    } else {
      assert i < |t| ==> s[|p| + i] == t[i];
      a := i;
    }
  }

  lemma {:induction false} WordEndShift(p: string, t: string, i: nat) returns (b: nat)
    requires i <= |t|
    ensures b == WordEnd(t, i)
    ensures WordEnd(p + t, |p| + i) == |p| + b
    decreases |t| - i
  {
    var s := p + t;
    if i < |t| && !IsSpace(t[i]) {
      assert s[|p| + i] == t[i];
      b := WordEndShift(p, t, i + 1);
    } else {
      assert i < |t| ==> s[|p| + i] == t[i];
      b := i;
    }
  }

  /** `' '.join(ws)`. */
  function JoinSpaced(ws: seq<string>): (r: string)
    ensures ws != [] ==> ws[0] <= r
  {
    if |ws| == 0 then ""
    else if |ws| == 1 then ws[0]
    else ws[0] + " " + JoinSpaced(ws[1..])
  }

  /** A word followed by nothing or by whitespace is the first word `split()` returns. */
  lemma SplitCons(w: string, rest: string)
    requires IsWord(w)
    requires rest == [] || IsSpace(rest[0])
    ensures Split(w + rest) == [w] + Split(rest)
  {
    var s := w + rest;
    assert s[0] == w[0];
    assert FirstKept(s, IsSpace, 0) == 0;
    var b := WordEndShift(w, rest, 0);
    assert b == 0;
    var e := WordEndPrefix(s, |w|);
    assert s[0..|w|] == w;
    SplitFromShift(w, rest, 0);
  }

  lemma {:induction false} WordEndPrefix(s: string, n: nat) returns (e: nat)
    requires n <= |s|
    requires forall j :: 0 <= j < n ==> !IsSpace(s[j])
    requires n == |s| || IsSpace(s[n])
    ensures e == n && WordEnd(s, 0) == n
  {
    e := n;
    WordEndFrom(s, 0, n);
  }

  lemma {:induction false} WordEndFrom(s: string, i: nat, n: nat)
    requires i <= n <= |s|
    requires forall j :: i <= j < n ==> !IsSpace(s[j])
    requires n == |s| || IsSpace(s[n])
    ensures WordEnd(s, i) == n
    decreases n - i
  {
    if i < n {
      WordEndFrom(s, i + 1, n);
    }
  }

  lemma SplitSkipsSpace(c: char, s: string)
    requires IsSpace(c)
    ensures Split([c] + s) == Split(s)
  {
    var a := FirstKeptShift([c], s, 0);
    assert FirstKept([c] + s, IsSpace, 0) == FirstKept([c] + s, IsSpace, 1);
    SplitFromShift([c], s, 0);
  }

  /** Splitting what `' '.join` built gives back the words it joined. */
  lemma {:induction false} SplitJoin(ws: seq<string>)
    requires forall i :: 0 <= i < |ws| ==> IsWord(ws[i])
    ensures Split(JoinSpaced(ws)) == ws
  {
    if |ws| == 1 {
      SplitCons(ws[0], "");
      assert ws[0] + "" == ws[0];
    } else if |ws| > 1 {
      var tail := JoinSpaced(ws[1..]);
      assert JoinSpaced(ws) == ws[0] + ([' '] + tail);
      SplitCons(ws[0], [' '] + tail);
      SplitSkipsSpace(' ', tail);
      SplitJoin(ws[1..]);
      assert ws == [ws[0]] + ws[1..];
    }
  }

  /** Appending to a joined string glues the suffix to the last word. */
  lemma {:induction false} JoinAppend(ws: seq<string>, x: string)
    requires |ws| > 0
    ensures JoinSpaced(ws) + x == JoinSpaced(ws[..|ws| - 1] + [ws[|ws| - 1] + x])
  {
    var vs := ws[..|ws| - 1] + [ws[|ws| - 1] + x];
    if |ws| == 1 {
    } else {
      JoinAppend(ws[1..], x);
      assert vs[1..] == ws[1..][..|ws[1..]| - 1] + [ws[1..][|ws[1..]| - 1] + x];
    }
  }
}
