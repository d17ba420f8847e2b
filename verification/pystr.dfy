/**
 The two Python string operations the header parser relies on: `str.split()`
 called without arguments, and `str.lower()`. Strings are sequences of
 Unicode scalar values, as Python's `str` is.
 */
module PyStr {

  /** Python's `str.isspace()`: the characters `str.split()` treats as separators. */
  predicate IsSpace(c: char) {
    || ('\t' <= c <= '\r')                 // tab, line feed, vertical tab, form feed, carriage return
    || ('\U{1C}' <= c <= '\U{1F}')         // file, group, record and unit separators
    || c == ' '
    || c == '\U{85}' || c == '\U{A0}'      // next line, no-break space
    || c == '\U{1680}'                      // Ogham space mark
    || ('\U{2000}' <= c <= '\U{200A}')     // en quad .. hair space
    || c == '\U{2028}' || c == '\U{2029}'  // line and paragraph separators
    || c == '\U{202F}' || c == '\U{205F}'  // narrow no-break space, medium mathematical space
    || c == '\U{3000}'                      // ideographic space
  }

  predicate AllSpace(s: string) {
    forall i :: 0 <= i < |s| ==> IsSpace(s[i])
  }

  predicate NoSpace(s: string) {
    forall i :: 0 <= i < |s| ==> !IsSpace(s[i])
  }

  /** A non-empty run of non-whitespace characters: what `split()` yields. */
  predicate IsWord(s: string) {
    |s| > 0 && NoSpace(s)
  }

  /** Length of the longest prefix of `s` holding no whitespace. */
  function WordLength(s: string): (n: nat)
    ensures n <= |s|
    ensures NoSpace(s[..n])
    ensures n < |s| ==> IsSpace(s[n])
    decreases |s|
  {
    if s == [] || IsSpace(s[0]) then 0
    else
      var m := WordLength(s[1..]);
      assert s[..1 + m] == [s[0]] + s[1..][..m];
      1 + m
  }

  /**
   `s.split()`: the maximal runs of non-whitespace characters of `s`, in
   order. Leading and trailing whitespace yield nothing, and a run of several
   whitespace characters separates like a single one.
   */
  function Split(s: string): (parts: seq<string>)
    ensures forall i :: 0 <= i < |parts| ==> IsWord(parts[i])
    decreases |s|
  {
    if s == [] then []
    else if IsSpace(s[0]) then Split(s[1..])
    else
      var n := WordLength(s);
      [s[..n]] + Split(s[n..])
  }

  /** ASCII lower-casing of one character; every other character is kept. */
  function AsciiLower(c: char): char {
    if 'A' <= c <= 'Z' then (c as int + 32) as char else c
  }

  /**
   `s.lower()`, restricted to the ASCII letters. The model only ever compares
   the result with the all-ASCII word "bearer"; no character outside ASCII
   lower-cases to one of its letters under Python's full Unicode mapping, so
   the comparison comes out the same.
   */
  function Lower(s: string): (r: string)
    ensures |r| == |s|
    ensures forall i :: 0 <= i < |r| ==> !('A' <= r[i] <= 'Z')
    ensures forall i :: 0 <= i < |s| && 'A' <= s[i] <= 'Z' ==> r[i] as int == s[i] as int + 32
    ensures forall i :: 0 <= i < |s| && !('A' <= s[i] <= 'Z') ==> r[i] == s[i]
  {
    seq(|s|, i requires 0 <= i < |s| => AsciiLower(s[i]))
  }

  /**
   The inverse of `Split`: a string written as words separated by gaps of
   whitespace. `gaps[0]` comes before the first word and the last gap after
   the last word.
   */
  function Join(gaps: seq<string>, words: seq<string>): string
    requires |gaps| == |words| + 1
    decreases words
  {
    if words == [] then gaps[0]
    else gaps[0] + words[0] + Join(gaps[1..], words[1..])
  }

  /**
   `gaps` and `words` describe a string whose split is exactly `words`:
   every word is a word, every gap is whitespace, and the gaps between two
   words are not empty (the outer two may be).
   */
  predicate Separates(gaps: seq<string>, words: seq<string>) {
    && |gaps| == |words| + 1
    && (forall i :: 0 <= i < |words| ==> IsWord(words[i]))
    && (forall i :: 0 <= i < |gaps| ==> AllSpace(gaps[i]))
    && (forall i :: 0 < i < |words| ==> gaps[i] != [])
  }

  /** The whitespace runs of `s` around the parts `Split(s)` returns. */
  function Gaps(s: string): (gaps: seq<string>)
    ensures |gaps| > 0
    decreases |s|
  {
    if s == [] then [[]]
    else if IsSpace(s[0]) then
      var g := Gaps(s[1..]);
      [[s[0]] + g[0]] + g[1..]
    else
      [[]] + Gaps(s[WordLength(s)..])
  }

  /** A string that starts with whitespace has a non-empty leading gap. */
  lemma {:induction false} GapsHead(s: string)
    requires s != [] && IsSpace(s[0])
    ensures Gaps(s)[0] != []
  {
  }

  /** `split()` gives no part exactly when the string is empty or only whitespace. */
  lemma {:induction false} SplitEmptyIffAllSpace(s: string)
    ensures Split(s) == [] <==> AllSpace(s)
    decreases |s|
  {
    if s != [] {
      SplitEmptyIffAllSpace(s[1..]);
      if IsSpace(s[0]) {
        if AllSpace(s[1..]) {
          assert forall i :: 1 <= i < |s| ==> s[i] == s[1..][i - 1];
        }
      }
    }
  }

  /** Leading whitespace does not change the split. */
  lemma {:induction false} SplitSkipsSpace(ws: string, s: string)
    requires AllSpace(ws)
    ensures Split(ws + s) == Split(s)
    decreases |ws|
  {
    if ws != [] {
      assert (ws + s)[0] == ws[0] && IsSpace(ws[0]);
      assert (ws + s)[1..] == ws[1..] + s;
      assert forall i :: 0 <= i < |ws[1..]| ==> ws[1..][i] == ws[i + 1];
      SplitSkipsSpace(ws[1..], s);
    } else {
      assert ws + s == s;
    }
  }

  /** A word followed by nothing or by whitespace is split off whole. */
  lemma {:induction false} WordLengthOfWord(w: string, rest: string)
    requires NoSpace(w)
    requires rest == [] || IsSpace(rest[0])
    ensures WordLength(w + rest) == |w|
    decreases |w|
  {
    if w != [] {
      assert (w + rest)[1..] == w[1..] + rest;
      WordLengthOfWord(w[1..], rest);
    }
  }

  /** ... so the split of a word followed by the rest starts with that word. */
  lemma {:induction false} SplitWord(w: string, rest: string)
    requires IsWord(w)
    requires rest == [] || IsSpace(rest[0])
    ensures Split(w + rest) == [w] + Split(rest)
  {
    WordLengthOfWord(w, rest);
    assert (w + rest)[..|w|] == w;
    assert (w + rest)[|w|..] == rest;
  }

  /** Round trip: splitting a well-separated join gives back its words. */
  lemma {:induction false} SplitJoin(gaps: seq<string>, words: seq<string>)
    requires Separates(gaps, words)
    ensures Split(Join(gaps, words)) == words
    decreases words
  {
    if words == [] {
      SplitEmptyIffAllSpace(gaps[0]);
    } else {
      var tail := Join(gaps[1..], words[1..]);
      SeparatesTail(gaps, words);
      SplitJoin(gaps[1..], words[1..]);
      SplitWord(words[0], tail);
      assert Join(gaps, words) == gaps[0] + (words[0] + tail);
      SplitSkipsSpace(gaps[0], words[0] + tail);
    }
  }

  /** What follows the first word of a separated join is again separated, and starts with a gap. */
  lemma SeparatesTail(gaps: seq<string>, words: seq<string>)
    requires Separates(gaps, words) && words != []
    ensures Separates(gaps[1..], words[1..])
    ensures var tail := Join(gaps[1..], words[1..]); tail == [] || IsSpace(tail[0])
  {
    var tail := Join(gaps[1..], words[1..]);
    if words[1..] == [] {
      assert tail == gaps[1];
    } else {
      assert gaps[1] != [];
      assert tail == gaps[1] + (words[1] + Join(gaps[2..], words[2..]));
      assert tail[0] == gaps[1][0];
    }
  }

  /**
   The other direction, in two halves: the split of any string, with the
   string's own whitespace runs, is well separated ...
   */
  lemma {:induction false} SplitSeparated(s: string)
    ensures Separates(Gaps(s), Split(s))
    decreases |s|
  {
    if s == [] {
    } else if IsSpace(s[0]) {
      SplitSeparated(s[1..]);
      UnfoldAtSpace(s);
      WidenSeparates(s[0], Gaps(s[1..]), Split(s[1..]));
    } else {
      var rest := s[WordLength(s)..];
      UnfoldAtWord(s);
      SplitSeparated(rest);
      if Split(rest) != [] {
        GapsHead(rest);
      }
      PrependSeparates([], s[..WordLength(s)], Gaps(rest), Split(rest));
    }
  }

  /** ... and joins back to the string itself, so `Split` loses nothing but whitespace. */
  lemma {:induction false} JoinGapsSplit(s: string)
    ensures |Gaps(s)| == |Split(s)| + 1 && Join(Gaps(s), Split(s)) == s
    decreases |s|
  {
    if s == [] {
    } else if IsSpace(s[0]) {
      JoinGapsSplit(s[1..]);
      UnfoldAtSpace(s);
      JoinWiden(s[0], Gaps(s[1..]), Split(s[1..]));
      assert [s[0]] + s[1..] == s;
    } else {
      UnfoldAtWord(s);
      var n := WordLength(s);
      JoinGapsSplit(s[n..]);
      JoinPrepend(s[..n], Gaps(s[n..]), Split(s[n..]), s[n..], Gaps(s), Split(s));
      assert s[..n] + s[n..] == s;
    }
  }

  /** `Split` and `Gaps` on a string that starts with whitespace. */
  lemma UnfoldAtSpace(s: string)
    requires s != [] && IsSpace(s[0])
    ensures Split(s) == Split(s[1..])
    ensures Gaps(s) == [[s[0]] + Gaps(s[1..])[0]] + Gaps(s[1..])[1..]
  {
  }

  /** `Split` and `Gaps` on a string that starts with a word. */
  lemma UnfoldAtWord(s: string)
    requires s != [] && !IsSpace(s[0])
    ensures 0 < WordLength(s) && IsWord(s[..WordLength(s)])
    ensures Split(s) == [s[..WordLength(s)]] + Split(s[WordLength(s)..])
    ensures Gaps(s) == [[]] + Gaps(s[WordLength(s)..])
  {
  }

  /** One more whitespace character in front keeps the words and their separation. */
  lemma WidenSeparates(c: char, gaps: seq<string>, words: seq<string>)
    requires IsSpace(c) && Separates(gaps, words)
    ensures Separates([[c] + gaps[0]] + gaps[1..], words)
  {
    var g := [[c] + gaps[0]] + gaps[1..];
    assert AllSpace([c] + gaps[0]) by {
      assert AllSpace(gaps[0]);
      assert forall i :: 0 < i < |[c] + gaps[0]| ==> ([c] + gaps[0])[i] == gaps[0][i - 1];
    }
    assert forall i :: 0 < i < |g| ==> g[i] == gaps[i];
  }

  /** One more whitespace character in front of the first gap puts it in front of the join. */
  lemma JoinWiden(c: char, gaps: seq<string>, words: seq<string>)
    requires |gaps| == |words| + 1
    ensures Join([[c] + gaps[0]] + gaps[1..], words) == [c] + Join(gaps, words)
  {
    if words != [] {
      var rest := Join(gaps[1..], words[1..]);
      assert [words[0]] + words[1..] == words;
      assert [gaps[0]] + gaps[1..] == gaps;
      JoinCons([c] + gaps[0], words[0], gaps[1..], words[1..]);
      JoinCons(gaps[0], words[0], gaps[1..], words[1..]);
      assert ([c] + gaps[0]) + words[0] + rest == [c] + (gaps[0] + words[0] + rest);
    }
  }

  /** A word, and the gap before it, added in front of a separated string. */
  lemma PrependSeparates(gap: string, w: string, gaps: seq<string>, words: seq<string>)
    requires AllSpace(gap) && IsWord(w) && Separates(gaps, words)
    requires words != [] ==> gaps[0] != []
    ensures Separates([gap] + gaps, [w] + words)
  {
    var g, p := [gap] + gaps, [w] + words;
    assert forall i :: 0 < i < |g| ==> g[i] == gaps[i - 1];
    assert forall i :: 0 < i < |p| ==> p[i] == words[i - 1];
  }

  /** A word, with an empty gap before it, added in front of a join. */
  lemma JoinPrepend(w: string, gaps: seq<string>, words: seq<string>, s: string, gaps': seq<string>, words': seq<string>)
    requires |gaps| == |words| + 1 && Join(gaps, words) == s
    requires gaps' == [[]] + gaps && words' == [w] + words
    ensures |gaps'| == |words'| + 1 && Join(gaps', words') == w + s
  {
    JoinCons([], w, gaps, words);
    assert [] + w == w;
  }

  /** `Join` unfolded once, for a first gap and word given apart. */
  lemma JoinCons(gap: string, w: string, gaps: seq<string>, words: seq<string>)
    requires |gaps| == |words| + 1
    ensures Join([gap] + gaps, [w] + words) == gap + w + Join(gaps, words)
  {
    assert ([gap] + gaps)[1..] == gaps && ([w] + words)[1..] == words;
  }
}
