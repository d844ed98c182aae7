/**
 The text summariser: an empty input yields a fixed notice; otherwise white space is
 collapsed and trimmed, and a result longer than 280 characters is cut to its first
 277 characters followed by "...".
 */
module Summarizer {
  import opened Seqs
  import opened Whitespace

  const EmptyNotice: string := "No content provided to summarize."
  const MaxLength: nat := 280
  const KeptLength: nat := 277
  const Ellipsis: string := "..."

  /** Normalised text: single blanks between words, nothing at the ends. */
  ghost predicate IsNormal(s: string) {
    Collapsed(s) && Bare(s)
  }

  /** A word: a non-empty run of non-white-space characters. */
  predicate IsWord(w: string) {
    |w| > 0 && forall i :: 0 <= i < |w| ==> !IsSpace(w[i])
  }

  /** Length of the leading run of non-white-space characters of `s`. */
  function WordEnd(s: string): (k: nat)
    ensures k <= |s|
    ensures forall i :: 0 <= i < k ==> !IsSpace(s[i])
    ensures k == |s| || IsSpace(s[k])
  {
    if |s| == 0 || IsSpace(s[0]) then 0 else 1 + WordEnd(s[1..])
  }

  /** Text that starts with a non-space starts with a word. */
  lemma LeadingWord(t: string)
    requires |t| > 0 && !IsSpace(t[0])
    ensures WordEnd(t) > 0 && IsWord(t[..WordEnd(t)])
  {
    var w := t[..WordEnd(t)];
    forall i | 0 <= i < |w| ensures !IsSpace(w[i]) {
      assert w[i] == t[i];
    }
  }

  lemma ConsWords(w: string, ws: seq<string>)
    requires IsWord(w) && forall i :: 0 <= i < |ws| ==> IsWord(ws[i])
    ensures forall i :: 0 <= i < |[w] + ws| ==> IsWord(([w] + ws)[i])
  {
    forall i | 0 < i < |ws| + 1 ensures ([w] + ws)[i] == ws[i - 1] { }
  }

  /** The maximal runs of non-white-space characters of `s`, in order. */
  function Words(s: string): (ws: seq<string>)
    ensures forall i :: 0 <= i < |ws| ==> IsWord(ws[i])
    decreases |s|
  {
    var t := TrimStart(s);
    if |t| == 0 then []
    else
      var k := WordEnd(t);
      LeadingWord(t);
      var rest := Words(t[k..]);
      ConsWords(t[..k], rest);
      [t[..k]] + rest
  }

  /** The words separated by single blanks. */
  function Join(ws: seq<string>): string
  {
    if |ws| == 0 then ""
    else if |ws| == 1 then ws[0]
    else ws[0] + " " + Join(ws[1..])
  }

  /** `text.replace(/\s+/g, " ").trim()`. */
  function Normalize(text: string): (r: string)
    ensures IsNormal(r)
  {
    TrimKeepsCollapsed(Collapse(text));
    Trim(Collapse(text))
  }

  /** `summarizeText`. */
  function Summarize(text: string): (r: string)
    ensures |r| <= MaxLength
    ensures text == "" ==> r == EmptyNotice
    ensures text != "" ==> IsNormal(r)
  {
    if text == "" then EmptyNotice
    else
      var n := Normalize(text);
      if |n| <= MaxLength then n
      else
        TruncatedIsNormal(n);
        n[..KeptLength] + Ellipsis
  }

  // ---- Normalisation ----

  /** Normalising keeps every non-white-space character, in order. */
  lemma NormalizeKeepsContent(text: string)
    ensures NonSpace(Normalize(text)) == NonSpace(text)
  {
    NonSpaceCollapse(text);
    NonSpaceTrim(Collapse(text));
  }

  /** Normalisation is the identity on normal text. */
  lemma NormalizeFixesNormal(s: string)
    requires IsNormal(s)
    ensures Normalize(s) == s
  {
    CollapseFixesCollapsed(s);
    TrimFixesBare(s);
  }

  /** Normalising twice is the same as normalising once. */
  lemma NormalizeIdempotent(text: string)
    ensures Normalize(Normalize(text)) == Normalize(text)
  {
    NormalizeFixesNormal(Normalize(text));
  }

  /** The normal form is empty exactly when the input is all white space (the empty input included). */
  lemma NormalizeEmpty(text: string)
    ensures Normalize(text) == "" <==> AllSpace(text)
  {
    NormalizeKeepsContent(text);
    NonSpaceEmpty(text);
    NonSpaceEmpty(Normalize(text));
    var n := Normalize(text);
    if |n| > 0 {
      assert !IsSpace(n[0]);
    }
  }

  // ---- The reference definition: words joined by single blanks ----

  lemma CollapseNonSpaceHead(c: char, z: string)
    requires !IsSpace(c)
    ensures Collapse([c] + z) == [c] + Collapse(z)
  {
    assert ([c] + z)[1..] == z;
  }

  lemma {:induction false} CollapseWordPrefix(w: string, x: string)
    requires forall i :: 0 <= i < |w| ==> !IsSpace(w[i])
    ensures Collapse(w + x) == w + Collapse(x)
    decreases |w|
  {
    if |w| == 0 {
      assert w + x == x;
      assert w + Collapse(x) == Collapse(x);
    } else {
      ConsAppend(w, x);
      CollapseNonSpaceHead(w[0], w[1..] + x);
      CollapseWordPrefix(w[1..], x);
      ConsAppend(w, Collapse(x));
    }
  }

  /** Trailing blank that collapsing leaves behind when `t` ends in white space. */
  function TrailingBlank(t: string): string {
    if |t| > 0 && IsSpace(t[|t| - 1]) then " " else ""
  }

  lemma CollapseSpaceLed(r: string)
    requires |r| > 0 && IsSpace(r[0])
    ensures Collapse(r) == " " + Collapse(TrimStart(r))
  {
    assert TrimStart(r) == TrimStart(r[1..]);
  }

  lemma WordsTrimStart(s: string)
    ensures Words(TrimStart(s)) == Words(s)
  {
    var t := TrimStart(s);
    assert TrimStart(t) == t by {
      if |t| > 0 { assert !IsSpace(t[0]); }
    }
  }

  lemma JoinCons(w: string, ws: seq<string>)
    requires |ws| > 0
    ensures Join([w] + ws) == w + " " + Join(ws)
  {
    assert ([w] + ws)[1..] == ws;
  }

  lemma WordsEmpty()
    ensures Words("") == []
  {
  }

  lemma WordsWordLed(t: string)
    requires |t| > 0 && !IsSpace(t[0])
    ensures Words(t) == [t[..WordEnd(t)]] + Words(t[WordEnd(t)..])
  {
    assert TrimStart(t) == t;
  }

  lemma CollapseWordLed(t: string)
    requires |t| > 0 && !IsSpace(t[0])
    ensures Collapse(t) == t[..WordEnd(t)] + Collapse(t[WordEnd(t)..])
  {
    var k := WordEnd(t);
    assert t == t[..k] + t[k..];
    CollapseWordPrefix(t[..k], t[k..]);
  }

  /** Text that is one word followed by white space has that word as its only word. */
  lemma WordsOfLoneWord(t: string)
    requires |t| > 0 && !IsSpace(t[0])
    requires TrimStart(t[WordEnd(t)..]) == ""
    ensures Join(Words(t)) == t[..WordEnd(t)]
  {
    var rest := t[WordEnd(t)..];
    WordsWordLed(t);
    WordsTrimStart(rest);
    WordsEmpty();
    assert Words(rest) == [];
    assert Words(t) == [t[..WordEnd(t)]];
  }

  /** White space collapses to nothing when empty and to one blank otherwise. */
  lemma CollapseOfBlank(rest: string)
    requires TrimStart(rest) == ""
    ensures Collapse(rest) == if |rest| == 0 then "" else " "
  {
    if |rest| > 0 {
      assert IsSpace(rest[0]);
      CollapseSpaceLed(rest);
      assert Collapse(TrimStart(rest)) == "";
      assert " " + "" == " ";
    }
  }

  /** After one word, the text ends in white space exactly when anything follows the word. */
  lemma TrailingBlankOfLoneWord(t: string)
    requires |t| > 0 && !IsSpace(t[0])
    requires TrimStart(t[WordEnd(t)..]) == ""
    ensures TrailingBlank(t) == if |t[WordEnd(t)..]| == 0 then "" else " "
  {
    var k := WordEnd(t);
    if k == |t| {
      assert !IsSpace(t[k - 1]);
    } else {
      TrimStartAllSpace(t[k..]);
      LastOfSuffix(t, k);
      assert IsSpace(t[|t| - 1]);
    }
  }

  lemma CollapseAsWordsLast(t: string)
    requires |t| > 0 && !IsSpace(t[0])
    requires TrimStart(t[WordEnd(t)..]) == ""
    ensures Collapse(t) == Join(Words(t)) + TrailingBlank(t)
  {
    CollapseWordLed(t);
    WordsOfLoneWord(t);
    CollapseOfBlank(t[WordEnd(t)..]);
    TrailingBlankOfLoneWord(t);
  }

  lemma CollapseWordThenMore(t: string)
    requires |t| > 0 && !IsSpace(t[0])
    requires TrimStart(t[WordEnd(t)..]) != ""
    ensures Collapse(t) == t[..WordEnd(t)] + " " + Collapse(TrimStart(t[WordEnd(t)..]))
  {
    var k := WordEnd(t);
    var w, rest := t[..k], t[k..];
    CollapseWordLed(t);
    assert |rest| > 0;
    assert IsSpace(rest[0]);
    CollapseSpaceLed(rest);
    Assoc(w, " ", Collapse(TrimStart(rest)));
  }

  lemma WordsWordThenMore(t: string)
    requires |t| > 0 && !IsSpace(t[0])
    ensures Words(t) == [t[..WordEnd(t)]] + Words(TrimStart(t[WordEnd(t)..]))
  {
    WordsWordLed(t);
    WordsTrimStart(t[WordEnd(t)..]);
  }

  lemma TrailingBlankOfRest(t: string)
    requires |t| > 0 && !IsSpace(t[0])
    requires TrimStart(t[WordEnd(t)..]) != ""
    ensures TrailingBlank(TrimStart(t[WordEnd(t)..])) == TrailingBlank(t)
  {
    var k := WordEnd(t);
    var rest := t[k..];
    var u := TrimStart(rest);
    LastOfSuffix(rest, |rest| - |u|);
    LastOfSuffix(t, k);
  }

  /** A word-led text in which another word follows the first. */
  lemma CollapseAsWordsMore(t: string)
    requires |t| > 0 && !IsSpace(t[0])
    requires TrimStart(t[WordEnd(t)..]) != ""
    requires var u := TrimStart(t[WordEnd(t)..]);
      Collapse(u) == Join(Words(u)) + TrailingBlank(u)
    ensures Collapse(t) == Join(Words(t)) + TrailingBlank(t)
  {
    var w := t[..WordEnd(t)];
    var u := TrimStart(t[WordEnd(t)..]);
    CollapseWordThenMore(t);
    WordsWordThenMore(t);
    TrailingBlankOfRest(t);
    assert |Words(u)| > 0 by {
      assert TrimStart(u) == u by { assert !IsSpace(u[0]); }
    }
    JoinCons(w, Words(u));
    Assoc(w + " ", Join(Words(u)), TrailingBlank(u));
  }

  /** Collapsing a text that does not start with white space gives its words joined by single blanks, plus one blank if the text ends in white space. */
  lemma {:induction false} CollapseAsWords(t: string)
    requires |t| == 0 || !IsSpace(t[0])
    ensures Collapse(t) == Join(Words(t)) + TrailingBlank(t)
    decreases |t|
  {
    if |t| == 0 {
      assert Words(t) == [];
    } else {
      var u := TrimStart(t[WordEnd(t)..]);
      if u == "" {
        CollapseAsWordsLast(t);
      } else {
        CollapseAsWords(u);
        CollapseAsWordsMore(t);
      }
    }
  }

  lemma {:induction false} JoinBare(ws: seq<string>)
    requires forall i :: 0 <= i < |ws| ==> IsWord(ws[i])
    ensures Bare(Join(ws))
    ensures |ws| > 0 ==> |Join(ws)| > 0
    decreases |ws|
  {
    if |ws| > 1 {
      JoinBare(ws[1..]);
      assert IsWord(ws[0]);
      var j := Join(ws[1..]);
      assert (ws[0] + " " + j)[0] == ws[0][0];
      assert (ws[0] + " " + j)[|ws[0]| + 1 + |j| - 1] == j[|j| - 1];
    } else if |ws| == 1 {
      assert IsWord(ws[0]);
    }
  }

  lemma TrimStartCollapse(s: string)
    ensures TrimStart(Collapse(s)) == Collapse(TrimStart(s))
  {
    if |s| > 0 && IsSpace(s[0]) {
      var u := TrimStart(s[1..]);
      var c := Collapse(u);
      assert |c| == 0 || !IsSpace(c[0]) by {
        if |u| > 0 { assert !IsSpace(u[0]); }
      }
      assert AllSpace(" ");
      TrimStartOfPadded(" ", c);
    } else if |s| > 0 {
      var c := Collapse(s);
      assert !IsSpace(c[0]);
    }
  }

  lemma CollapseTrimmedAsWords(text: string)
    ensures var t := TrimStart(text); Collapse(t) == Join(Words(t)) + TrailingBlank(t)
  {
    CollapseAsWords(TrimStart(text));
  }

  lemma TrimEndOfWords(t: string)
    ensures TrimEnd(Join(Words(t)) + TrailingBlank(t)) == Join(Words(t))
  {
    JoinBare(Words(t));
    TrimEndOfPadded(Join(Words(t)), TrailingBlank(t));
  }

  /** A word, one blank, then collapsed text that starts with a word, is collapsed. */
  lemma WordBlankCollapsed(w: string, j: string)
    requires IsWord(w) && Collapsed(j) && |j| > 0 && !IsSpace(j[0])
    ensures Collapsed(w + " " + j)
  {
    var s := w + " " + j;
    forall i | 0 <= i < |s| && IsSpace(s[i]) ensures s[i] == ' ' {
      if i > |w| { assert s[i] == j[i - |w| - 1]; }
    }
    forall i, k | 0 <= i < k < |s| && k == i + 1 ensures !IsSpace(s[i]) || !IsSpace(s[k]) {
      if i < |w| { assert s[i] == w[i]; }
      else if i == |w| { assert s[k] == j[0]; }
      else { assert s[i] == j[i - |w| - 1] && s[k] == j[k - |w| - 1]; }
    }
  }

  /** Conversely, words joined by single blanks are already in normal form. */
  lemma {:induction false} JoinIsNormal(ws: seq<string>)
    requires forall i :: 0 <= i < |ws| ==> IsWord(ws[i])
    ensures IsNormal(Join(ws))
    ensures Normalize(Join(ws)) == Join(ws)
    decreases |ws|
  {
    JoinBare(ws);
    if |ws| == 1 {
      assert IsWord(ws[0]);
    } else if |ws| > 1 {
      JoinIsNormal(ws[1..]);
      JoinBare(ws[1..]);
      assert IsWord(ws[0]);
      WordBlankCollapsed(ws[0], Join(ws[1..]));
    }
    NormalizeFixesNormal(Join(ws));
  }

  /** The normal form is the input's words separated by single blanks. */
  lemma NormalizeIsJoinedWords(text: string)
    ensures Normalize(text) == Join(Words(text))
  {
    TrimStartCollapse(text);
    CollapseTrimmedAsWords(text);
    TrimEndOfWords(TrimStart(text));
    WordsTrimStart(text);
  }

  // ---- Words of joined and trimmed text ----

  /** `WordEnd` is the only cut with non-space characters before it and white space or the end after it. */
  lemma {:induction false} WordEndUnique(s: string, k: nat)
    requires k <= |s| && (forall i :: 0 <= i < k ==> !IsSpace(s[i])) && (k == |s| || IsSpace(s[k]))
    ensures WordEnd(s) == k
    decreases k
  {
    if k > 0 {
      assert !IsSpace(s[0]);
      forall i | 0 <= i < k - 1 ensures !IsSpace(s[1..][i]) {
        assert s[1..][i] == s[i + 1];
      }
      if k < |s| {
        assert s[1..][k - 1] == s[k];
      }
      WordEndUnique(s[1..], k - 1);
    }
  }

  /** Appending after a white-space character splits `t` where `t` splits. */
  lemma SlicesOfSpaced(t: string, c: char, b: string, k: nat)
    requires k <= |t|
    ensures (t + ([c] + b))[..k] == t[..k]
    ensures (t + ([c] + b))[k..] == t[k..] + [c] + b
  {
  }

  /** The first word of a word-led text survives anything appended after one more white-space character. */
  lemma FirstWordOfSpaced(t: string, c: char, b: string)
    requires |t| > 0 && !IsSpace(t[0]) && IsSpace(c)
    ensures WordEnd(t + ([c] + b)) == WordEnd(t)
  {
    var u := t + ([c] + b);
    var k := WordEnd(t);
    forall i | 0 <= i < k ensures !IsSpace(u[i]) {
      assert u[i] == t[i];
    }
    assert IsSpace(u[k]) by {
      if k < |t| {
        assert u[k] == t[k];
      } else {
        assert u[k] == c;
      }
    }
    WordEndUnique(u, k);
  }

  /** Before the first word, only the words after the separator are left. */
  lemma WordsSpacedBlank(a: string, c: char, b: string)
    requires IsSpace(c) && TrimStart(a) == ""
    ensures Words(a + [c] + b) == Words(a) + Words(b)
  {
    var x := a + [c] + b;
    assert TrimStart(x) == TrimStart(b) by {
      Assoc(a, [c], b);
      TrimStartConcat(a, [c] + b);
      assert ([c] + b)[1..] == b;
    }
    assert Words(x) == Words(b) by {
      WordsTrimStart(x);
      WordsTrimStart(b);
    }
    assert Words(a) == [] by {
      WordsTrimStart(a);
    }
  }

  /** A word-led text keeps its first word, and the rest splits as the hypothesis says. */
  lemma WordsSpacedWord(t: string, c: char, b: string)
    requires IsSpace(c) && |t| > 0 && !IsSpace(t[0])
    requires var rest := t[WordEnd(t)..]; Words(rest + [c] + b) == Words(rest) + Words(b)
    ensures Words(t + [c] + b) == Words(t) + Words(b)
  {
    var k := WordEnd(t);
    var rest := t[k..];
    var u := t + [c] + b;
    var w := t[..k];
    assert WordEnd(u) == k && u[..k] == w && u[k..] == rest + [c] + b by {
      Assoc(t, [c], b);
      FirstWordOfSpaced(t, c, b);
      SlicesOfSpaced(t, c, b, k);
    }
    assert Words(u) == [w] + Words(rest + [c] + b) by {
      assert u[0] == t[0];
      WordsWordLed(u);
    }
    assert Words(t) == [w] + Words(rest) by {
      WordsWordLed(t);
    }
    Assoc([w], Words(rest), Words(b));
  }

  /** A white-space character separates words: the words of `a`, the character, and `b` are those of `a` then those of `b`. */
  lemma {:induction false} WordsSpaced(a: string, c: char, b: string)
    requires IsSpace(c)
    ensures Words(a + [c] + b) == Words(a) + Words(b)
    decreases |a|
  {
    var t := TrimStart(a);
    if t == "" {
      WordsSpacedBlank(a, c, b);
    } else {
      var k := WordEnd(t);
      LeadingWord(t);
      WordsSpaced(t[k..], c, b);
      WordsSpacedWord(t, c, b);
      TrimStartConcat(a, [c] + b);
      Assoc(a, [c], b);
      Assoc(t, [c], b);
      WordsTrimStart(a + [c] + b);
      WordsTrimStart(a);
    }
  }

  /** Trailing white space adds no word. */
  lemma WordsPadded(m: string, b: string)
    requires AllSpace(b)
    ensures Words(m + b) == Words(m)
  {
    if |b| == 0 {
      assert m + b == m;
    } else {
      var b' := b[1..];
      assert AllSpace(b') by {
        forall i | 0 <= i < |b'| ensures IsSpace(b'[i]) { assert b'[i] == b[i + 1]; }
      }
      assert m + b == m + [b[0]] + b' by { HeadTail(b); }
      WordsSpaced(m, b[0], b');
      TrimStartOfPadded(b', "");
      assert b' + "" == b';
      assert Words(b') == [];
      assert Words(m) + [] == Words(m);
    }
  }

  /** `trim` changes no word. */
  lemma WordsTrim(s: string)
    ensures Words(Trim(s)) == Words(s)
  {
    var y := TrimStart(s);
    var m := TrimEnd(y);
    assert Words(y) == Words(m) by {
      TrimEndDropsSpace(y);
      SplitAt(y, |m|);
      WordsPadded(m, y[|m|..]);
    }
    WordsTrimStart(s);
  }

  // ---- Summarising ----

  lemma TruncatedIsNormal(n: string)
    requires IsNormal(n) && |n| > MaxLength
    ensures IsNormal(n[..KeptLength] + Ellipsis)
  {
    var p := n[..KeptLength];
    CollapsedSlice(n, 0, KeptLength);
    var r := p + Ellipsis;
    forall i | 0 <= i < |r| && IsSpace(r[i])
      ensures r[i] == ' ' && (i + 1 < |r| ==> !IsSpace(r[i + 1]))
    {
      assert i < KeptLength;
      assert r[i] == p[i];
      if i + 1 < KeptLength {
        assert r[i + 1] == p[i + 1];
      }
    }
    assert r[0] == n[0];
  }

  /** For non-empty input the summary is the input's words joined by single blanks, cut to 277 characters plus "..." when that exceeds 280. */
  lemma SummarizeByWords(text: string)
    requires text != ""
    ensures var j := Join(Words(text));
      Summarize(text) == if |j| <= MaxLength then j else j[..KeptLength] + Ellipsis
  {
    NormalizeIsJoinedWords(text);
  }

  /** A cut summary is exactly 280 characters: the first 277 of the normal form and "...". */
  lemma SummarizeCutLength(text: string)
    requires text != "" && |Normalize(text)| > MaxLength
    ensures |Summarize(text)| == MaxLength
    ensures Summarize(text)[..KeptLength] == Normalize(text)[..KeptLength]
    ensures Summarize(text)[KeptLength..] == Ellipsis
  {
  }

  /** The summary is the empty string exactly for non-empty, all-white-space input. */
  lemma SummarizeBlank(text: string)
    ensures Summarize(text) == "" <==> text != "" && AllSpace(text)
  {
    SummarizeEmptyWhenNormalEmpty(text);
    NormalizeEmpty(text);
  }

  lemma SummarizeEmptyWhenNormalEmpty(text: string)
    ensures Summarize(text) == "" <==> text != "" && Normalize(text) == ""
  {
    assert |EmptyNotice| > 0;
  }

  lemma EmptyNoticeBlanks()
    ensures forall i :: 0 <= i < |EmptyNotice| && IsSpace(EmptyNotice[i]) ==> EmptyNotice[i] == ' '
  {
  }

  lemma EmptyNoticeSingleBlanks()
    ensures forall i, j :: 0 <= i < j < |EmptyNotice| && j == i + 1 ==> !IsSpace(EmptyNotice[i]) || !IsSpace(EmptyNotice[j])
  {
  }

  lemma EmptyNoticeIsNormal()
    ensures IsNormal(EmptyNotice)
  {
    EmptyNoticeBlanks();
    EmptyNoticeSingleBlanks();
  }

  /** Summarising a non-empty summary gives it back unchanged. */
  lemma SummarizeIdempotent(text: string)
    ensures var r := Summarize(text); r != "" ==> Summarize(r) == r
  {
    var r := Summarize(text);
    if r != "" {
      if text == "" {
        EmptyNoticeIsNormal();
      }
      assert IsNormal(r);
      NormalizeFixesNormal(r);
    }
  }
}
