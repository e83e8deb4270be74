/** The string operations title normalisation is built from: Python's
    `str.split()` with no separator, `" ".join`, `str.strip()` and
    `str.lower()`, and `normalize_title` itself. */
module Text {

  /** The code points Python's `str.isspace()` accepts, which are the ones
      `str.split()` and `str.strip()` treat as whitespace. */
  predicate IsSpace(c: char) {
    var n := c as int;
    (9 <= n <= 13) || (28 <= n <= 32) || n == 0x85 || n == 0xA0 || n == 0x1680
    || (0x2000 <= n <= 0x200A) || n == 0x2028 || n == 0x2029 || n == 0x202F
    || n == 0x205F || n == 0x3000
  }

  /** Lower-casing of one character (ASCII letters only). */
  function LowerChar(c: char): char {
    if 'A' <= c <= 'Z' then (c as int + 32) as char else c
  }

  /** `s.lower()` */
  function Lower(s: string): (r: string)
    ensures |r| == |s|
    ensures forall i :: 0 <= i < |s| ==> r[i] == LowerChar(s[i])
  {
    seq(|s|, i requires 0 <= i < |s| => LowerChar(s[i]))
  }

  /** `s.lstrip()` */
  function TrimStart(s: string): (r: string)
    ensures |r| <= |s| && r == s[|s| - |r|..]
    ensures r == [] || !IsSpace(r[0])
  {
    if s != [] && IsSpace(s[0]) then TrimStart(s[1..]) else s
  }

  /** `s.rstrip()` */
  function TrimEnd(s: string): (r: string)
    ensures |r| <= |s| && r == s[..|r|]
    ensures r == [] || !IsSpace(r[|r| - 1])
  {
    if s != [] && IsSpace(s[|s| - 1]) then TrimEnd(s[..|s| - 1]) else s
  }

  /** `s.strip()` */
  function Strip(s: string): string {
    TrimEnd(TrimStart(s))
  }

  /** Length of the run of non-whitespace characters that starts `s`. */
  function WordLen(s: string): (n: nat)
    ensures n <= |s|
    ensures forall i :: 0 <= i < n ==> !IsSpace(s[i])
    ensures n < |s| ==> IsSpace(s[n])
  {
    if s == [] || IsSpace(s[0]) then 0 else 1 + WordLen(s[1..])
  }

  /** `s.split()`: the maximal runs of non-whitespace characters. */
  function Words(s: string): seq<string>
    decreases |s|
  {
    var t := TrimStart(s);
    if t == [] then [] else
      var n := WordLen(t);
      [t[..n]] + Words(t[n..])
  }

  /** `sep.join(ws)` */
  function Join(ws: seq<string>, sep: string): string {
    if |ws| == 0 then ""
    else if |ws| == 1 then ws[0]
    else ws[0] + sep + Join(ws[1..], sep)
  }

  /** `normalize_title`: collapse whitespace runs to one space, trim, lower-case;
      a falsy title (here the empty string) gives the empty string. Whatever
      the input, the result is lower-case with no leading, trailing or
      repeated whitespace, and it is empty exactly when the title has no
      words. */
  function NormalizeTitle(title: string): (r: string)
    ensures IsNormalized(r)
    ensures r == "" <==> Words(title) == []
  {
    if title == "" then "" else
      var joined := Join(Words(title), " ");
      WordsAreClean(title);
      JoinIsSingleSpaced(Words(title));
      StripKeepsSingleSpaced(joined);
      LowerKeepsSingleSpaced(joined);
      Lower(Strip(joined))
  }

  /** Each word lower-cased. */
  function LowerWords(ws: seq<string>): seq<string> {
    seq(|ws|, i requires 0 <= i < |ws| => Lower(ws[i]))
  }

  /** No whitespace except single spaces strictly between non-whitespace
      characters. */
  ghost predicate SingleSpaced(s: string) {
    && (forall i :: 0 <= i < |s| && IsSpace(s[i]) ==> s[i] == ' ' && 0 < i < |s| - 1)
    && NoAdjacentSpaces(s)
  }

  ghost predicate NoAdjacentSpaces(s: string) {
    forall i, j {:trigger s[i], s[j]} :: 0 <= i && j == i + 1 && j < |s| ==> !IsSpace(s[i]) || !IsSpace(s[j])
  }

  ghost predicate LowerCase(s: string) {
    forall i :: 0 <= i < |s| ==> LowerChar(s[i]) == s[i]
  }

  /** The shape every normalised title has. */
  ghost predicate IsNormalized(s: string) {
    SingleSpaced(s) && LowerCase(s)
  }

  ghost predicate SpaceFree(w: string) {
    forall i :: 0 <= i < |w| ==> !IsSpace(w[i])
  }

  /** Every word is non-empty and free of whitespace. */
  ghost predicate CleanWords(ws: seq<string>) {
    forall i :: 0 <= i < |ws| ==> ws[i] != [] && SpaceFree(ws[i])
  }

  lemma {:induction false} WordsAreClean(s: string)
    ensures CleanWords(Words(s))
    decreases |s|
  {
    var t := TrimStart(s);
    if t != [] {
      var n := WordLen(t);
      FirstWordClean(t);
      WordsAreClean(t[n..]);
      assert Words(s) == [t[..n]] + Words(t[n..]);
      CleanWordsCons(t[..n], Words(t[n..]));
    }
  }

  /** The first word of a string that starts with non-whitespace. */
  lemma FirstWordClean(t: string)
    requires t != [] && !IsSpace(t[0])
    ensures WordLen(t) > 0 && SpaceFree(t[..WordLen(t)])
  {
    var w := t[..WordLen(t)];
    forall i | 0 <= i < |w| ensures !IsSpace(w[i]) {
      assert w[i] == t[i];
    }
  }

  lemma CleanWordsCons(w: string, rest: seq<string>)
    requires w != [] && SpaceFree(w) && CleanWords(rest)
    ensures CleanWords([w] + rest)
  {
    forall i | 0 <= i < |[w] + rest| ensures ([w] + rest)[i] != [] && SpaceFree(([w] + rest)[i]) {
      if i > 0 {
        assert ([w] + rest)[i] == rest[i - 1];
      }
    }
  }

  lemma {:induction false} JoinIsSingleSpaced(ws: seq<string>)
    requires CleanWords(ws)
    ensures SingleSpaced(Join(ws, " "))
    ensures ws != [] ==> Join(ws, " ") != []
  {
    if |ws| > 1 {
      var rest := Join(ws[1..], " ");
      JoinIsSingleSpaced(ws[1..]);
      var s := ws[0] + " " + rest;
      assert Join(ws, " ") == s;
      assert rest != [] && !IsSpace(rest[0]);
      var w := ws[0];
      assert forall k :: 0 <= k < |w| ==> s[k] == w[k];
      forall i | 0 <= i < |s| && IsSpace(s[i])
        ensures s[i] == ' ' && 0 < i < |s| - 1 && !IsSpace(s[i + 1])
      {
        if i > |w| {
          assert s[i] == rest[i - |w| - 1];
          assert s[i + 1] == rest[i - |w|];
        }
      }
    }
  }

  lemma StripKeepsSingleSpaced(s: string)
    requires SingleSpaced(s)
    ensures Strip(s) == s
  {
    if s != [] {
      assert !IsSpace(s[0]);
      assert !IsSpace(s[|s| - 1]);
    }
  }

  lemma LowerKeepsSingleSpaced(s: string)
    requires SingleSpaced(s)
    ensures IsNormalized(Lower(s))
  {
    var r := Lower(s);
    forall i | 0 <= i < |r| && IsSpace(r[i])
      ensures r[i] == ' ' && 0 < i < |r| - 1 && !IsSpace(r[i + 1])
    {
      assert IsSpace(s[i]);
      assert r[i + 1] == LowerChar(s[i + 1]);
    }
  }

  lemma WordsFromWordStart(s: string)
    requires s != [] && !IsSpace(s[0])
    ensures Words(s) == [s[..WordLen(s)]] + Words(s[WordLen(s)..])
  {
    assert TrimStart(s) == s;
  }

  lemma WordsSkipSpace(s: string)
    requires s != [] && IsSpace(s[0])
    ensures Words(s) == Words(s[1..])
  {
    assert TrimStart(s) == TrimStart(s[1..]);
    assert TrimStart(s[1..]) == TrimStart(TrimStart(s[1..])) by {
      TrimStartTwice(s[1..]);
    }
  }

  lemma TrimStartTwice(s: string)
    ensures TrimStart(TrimStart(s)) == TrimStart(s)
  {
  }

  lemma SingleSpacedSuffix(s: string, k: nat)
    requires SingleSpaced(s) && k < |s| && !IsSpace(s[k])
    ensures SingleSpaced(s[k..])
  {
    var tail := s[k..];
    forall i | 0 <= i < |tail| && IsSpace(tail[i])
      ensures tail[i] == ' ' && 0 < i < |tail| - 1 && !IsSpace(tail[i + 1])
    {
      assert tail[i] == s[k + i];
      assert tail[i + 1] == s[k + i + 1];
    }
  }

  lemma WordsOfOneWord(s: string)
    requires s != [] && !IsSpace(s[0]) && WordLen(s) == |s|
    ensures Words(s) == [s]
  {
    WordsFromWordStart(s);
    assert s[WordLen(s)..] == [] && s[..WordLen(s)] == s;
    assert Words([]) == [];
  }

  lemma WordsOfWordThenSpace(s: string, n: nat)
    requires s != [] && !IsSpace(s[0]) && n == WordLen(s) && n + 1 < |s|
    requires IsSpace(s[n]) && !IsSpace(s[n + 1])
    ensures Words(s) == [s[..n]] + Words(s[n + 1..])
  {
    WordsFromWordStart(s);
    WordsSkipSpace(s[n..]);
    DropDrop(s, n);
  }

  lemma SplitAround(s: string, n: nat)
    requires n < |s| && s[n] == ' '
    ensures s == s[..n] + " " + s[n + 1..]
  {
  }

  lemma DropDrop(s: string, n: nat)
    requires n < |s|
    ensures s[n..][1..] == s[n + 1..]
  {
  }

  lemma JoinCons(w: string, rest: seq<string>)
    requires rest != []
    ensures Join([w] + rest, " ") == w + " " + Join(rest, " ")
  {
    assert ([w] + rest)[1..] == rest;
  }

  /** Splitting a single-spaced string and joining the words with one space
      gives the string back. */
  lemma {:induction false} SplitJoin(s: string)
    requires SingleSpaced(s)
    ensures Join(Words(s), " ") == s
    ensures s != [] ==> Words(s) != []
    decreases |s|
  {
    if s == [] {
      assert Words(s) == [];
    } else {
      assert !IsSpace(s[0]);
      var n := WordLen(s);
      if n == |s| {
        WordsOfOneWord(s);
      } else {
        assert s[n] == ' ' && n < |s| - 1;
        assert !IsSpace(s[n + 1]) by {
          assert s[n] == s[n];
          assert s[n + 1] == s[n + 1];
        }
        var tail := s[n + 1..];
        WordsOfWordThenSpace(s, n);
        SingleSpacedSuffix(s, n + 1);
        SplitJoin(tail);
        JoinCons(s[..n], Words(tail));
        SplitAround(s, n);
      }
    }
  }

  /** Lower-casing maps whitespace to whitespace and nothing else to it. */
  lemma LowerCharSpace(c: char)
    ensures IsSpace(LowerChar(c)) <==> IsSpace(c)
  {
  }

  lemma LowerWordsClean(ws: seq<string>)
    requires CleanWords(ws)
    ensures CleanWords(LowerWords(ws))
  {
    var lw := LowerWords(ws);
    forall i, k | 0 <= i < |lw| && 0 <= k < |lw[i]| ensures !IsSpace(lw[i][k]) {
      LowerCharSpace(ws[i][k]);
    }
  }

  /** Lower-casing a joined string lower-cases each of its words. */
  lemma {:induction false} LowerJoin(ws: seq<string>)
    ensures Lower(Join(ws, " ")) == Join(LowerWords(ws), " ")
    decreases |ws|
  {
    if |ws| > 1 {
      var rest := Join(ws[1..], " ");
      LowerJoin(ws[1..]);
      assert LowerWords(ws)[1..] == LowerWords(ws[1..]);
      assert Lower(ws[0] + " " + rest) == Lower(ws[0]) + " " + Lower(rest);
    }
  }

  /** A word, one space, then text that starts with a word. */
  lemma WordThenRest(w: string, j: string)
    requires w != [] && SpaceFree(w) && j != [] && !IsSpace(j[0])
    ensures Words(w + " " + j) == [w] + Words(j)
  {
    var s := w + " " + j;
    var n := |w|;
    SpacedParts(w, j);
    forall k | 0 <= k < n ensures !IsSpace(s[k]) {
      assert s[k] == w[k];
    }
    assert s[n] == ' ' && s[n + 1] == j[0];
    assert WordLen(s) == n;
    WordsOfWordThenSpace(s, n);
  }

  lemma SpacedParts(w: string, j: string)
    ensures (w + " " + j)[..|w|] == w && (w + " " + j)[|w| + 1..] == j
  {
  }

  lemma OneWord(w: string)
    requires w != [] && SpaceFree(w)
    ensures Words(w) == [w]
  {
    assert WordLen(w) == |w|;
    WordsOfOneWord(w);
  }

  lemma CleanWordsTail(ws: seq<string>)
    requires ws != [] && CleanWords(ws)
    ensures ws[0] != [] && SpaceFree(ws[0]) && CleanWords(ws[1..])
  {
    forall i | 0 <= i < |ws| - 1 ensures ws[1..][i] != [] && SpaceFree(ws[1..][i]) {
      assert ws[1..][i] == ws[i + 1];
    }
  }

  /** Splitting words joined with one space gives the words back. */
  lemma {:induction false} SplitOfJoin(ws: seq<string>)
    requires CleanWords(ws)
    ensures Words(Join(ws, " ")) == ws
    decreases |ws|
  {
    if |ws| == 0 {
      assert Words("") == [];
    } else if |ws| == 1 {
      OneWord(ws[0]);
    } else {
      CleanWordsTail(ws);
      SplitOfJoin(ws[1..]);
      SplitOfJoinStep(ws);
    }
  }

  /** The induction step of `SplitOfJoin`: the first word, then the rest. */
  lemma SplitOfJoinStep(ws: seq<string>)
    requires |ws| > 1 && ws[0] != [] && SpaceFree(ws[0]) && CleanWords(ws[1..])
    requires Words(Join(ws[1..], " ")) == ws[1..]
    ensures Words(Join(ws, " ")) == ws
  {
    var rest := ws[1..];
    JoinStartsWithWord(rest);
    var j := Join(rest, " ");
    assert Join(ws, " ") == ws[0] + " " + j;
    WordThenRest(ws[0], j);
    HeadTail(ws);
  }

  lemma JoinStartsWithWord(ws: seq<string>)
    requires ws != [] && CleanWords(ws)
    ensures Join(ws, " ") != [] && !IsSpace(Join(ws, " ")[0])
  {
    JoinIsSingleSpaced(ws);
  }

  lemma HeadTail(ws: seq<string>)
    requires ws != []
    ensures ws == [ws[0]] + ws[1..]
  {
  }

  /** The normalised title's words are the title's words, lower-cased. */
  lemma NormalizeTitleWords(title: string)
    ensures Words(NormalizeTitle(title)) == LowerWords(Words(title))
  {
    if title == "" {
      assert Words(title) == [];
    } else {
      var joined := Join(Words(title), " ");
      WordsAreClean(title);
      JoinIsSingleSpaced(Words(title));
      StripKeepsSingleSpaced(joined);
      LowerJoin(Words(title));
      LowerWordsClean(Words(title));
      SplitOfJoin(LowerWords(Words(title)));
    }
  }

  /** Two titles normalise alike exactly when their words agree once
      lower-cased: normalisation keeps the words and forgets only their
      case and the whitespace between them. */
  lemma NormalizeTitleMatches(a: string, b: string)
    ensures NormalizeTitle(a) == NormalizeTitle(b) <==> LowerWords(Words(a)) == LowerWords(Words(b))
  {
    var ra, rb := NormalizeTitle(a), NormalizeTitle(b);
    NormalizeTitleWords(a);
    NormalizeTitleWords(b);
    SplitJoin(ra);
    SplitJoin(rb);
  }

  /** Normalising a normalised title changes nothing. */
  lemma NormalizedIsFixed(s: string)
    requires IsNormalized(s)
    ensures NormalizeTitle(s) == s
  {
    if s != "" {
      SplitJoin(s);
      StripKeepsSingleSpaced(s);
      assert Lower(s) == s;
    }
  }

  /** `normalize_title` is idempotent. */
  lemma NormalizeTitleIdempotent(title: string)
    ensures NormalizeTitle(NormalizeTitle(title)) == NormalizeTitle(title)
  {
    NormalizedIsFixed(NormalizeTitle(title));
  }
}
