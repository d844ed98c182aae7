/**
 JavaScript white space as the summariser and the note controller see it:
 the class matched by the regular-expression escape `\s`, `String.prototype.trim`,
 and the replacement of every run of white space by one blank (`replace(/\s+/g, " ")`).
 */
module Whitespace {
  import opened Seqs

  /** The WhiteSpace and LineTerminator code points of ECMA-262; `\s` and `trim` share this set. */
  predicate IsSpace(c: char) {
    || c == ' ' || c == '\t' || c == '\n' || c == '\r' || c == '\U{000B}' || c == '\U{000C}'
    || c == '\U{00A0}' || c == '\U{1680}' || ('\U{2000}' <= c <= '\U{200A}')
    || c == '\U{2028}' || c == '\U{2029}' || c == '\U{202F}' || c == '\U{205F}'
    || c == '\U{3000}' || c == '\U{FEFF}'
  }

  predicate AllSpace(s: string) {
    forall i :: 0 <= i < |s| ==> IsSpace(s[i])
  }

  /** No white space at either end. */
  predicate Bare(s: string) {
    |s| == 0 || (!IsSpace(s[0]) && !IsSpace(s[|s| - 1]))
  }

  /** Every white-space character is a plain blank, and no two white-space characters are adjacent. */
  ghost predicate Collapsed(s: string) {
    && (forall i :: 0 <= i < |s| && IsSpace(s[i]) ==> s[i] == ' ')
    && (forall i, j :: 0 <= i < j < |s| && j == i + 1 ==> !IsSpace(s[i]) || !IsSpace(s[j]))
  }

  /** The characters of `s` that are not white space, in order. */
  function NonSpace(s: string): string {
    if |s| == 0 then ""
    else (if IsSpace(s[0]) then "" else [s[0]]) + NonSpace(s[1..])
  }

  /** Drops the leading white space. */
  function TrimStart(s: string): (r: string)
    ensures |r| <= |s| && r == s[|s| - |r|..]
    ensures |r| == 0 || !IsSpace(r[0])
  {
    if |s| > 0 && IsSpace(s[0]) then TrimStart(s[1..]) else s
  }

  /** Drops the trailing white space. */
  function TrimEnd(s: string): (r: string)
    ensures |r| <= |s| && r == s[..|r|]
    ensures |r| == 0 || !IsSpace(r[|r| - 1])
  {
    if |s| > 0 && IsSpace(s[|s| - 1]) then TrimEnd(s[..|s| - 1]) else s
  }

  /** `String.prototype.trim`: the middle of `s` between its leading and its trailing white space. */
  function Trim(s: string): (r: string)
    ensures Bare(r)
  {
    TrimEnd(TrimStart(s))
  }

  /** `s.replace(/\s+/g, " ")`: every maximal run of white space becomes one blank. */
  function Collapse(s: string): (r: string)
    ensures |r| <= |s|
    ensures |r| == 0 <==> |s| == 0
    ensures |s| > 0 ==> (IsSpace(r[0]) <==> IsSpace(s[0]))
    ensures Collapsed(r)
    decreases |s|
  {
    if |s| == 0 then ""
    else if IsSpace(s[0]) then " " + Collapse(TrimStart(s[1..]))
    else [s[0]] + Collapse(s[1..])
  }

  // ---- Properties of the definitions above ----

  lemma CollapsedSlice(s: string, a: nat, b: nat)
    requires Collapsed(s) && a <= b <= |s|
    ensures Collapsed(s[a..b])
  {
    var t := s[a..b];
    forall i | 0 <= i < |t| ensures t[i] == s[a + i] { }
  }

  /** Trimming collapsed text leaves it collapsed. */
  lemma TrimKeepsCollapsed(s: string)
    ensures Collapsed(s) ==> Collapsed(Trim(s))
  {
    if Collapsed(s) {
      var t := TrimStart(s);
      CollapsedSlice(s, |s| - |t|, |s|);
      assert Collapsed(t);
      CollapsedSlice(t, 0, |TrimEnd(t)|);
    }
  }

  /** In collapsed text a leading white-space character is a blank followed by a non-space. */
  lemma CollapsedHead(s: string)
    requires Collapsed(s) && |s| > 0 && IsSpace(s[0])
    ensures s[0] == ' ' && (|s| == 1 || !IsSpace(s[1]))
  {
    if |s| > 1 {
      assert !IsSpace(s[0]) || !IsSpace(s[1]);
    }
  }

  /** Collapsing is the identity on text that is already collapsed, so collapsing twice changes nothing. */
  lemma {:induction false} CollapseFixesCollapsed(s: string)
    requires Collapsed(s)
    ensures Collapse(s) == s
    decreases |s|
  {
    if |s| > 0 {
      var t := s[1..];
      CollapsedSlice(s, 1, |s|);
      CollapseFixesCollapsed(t);
      HeadTail(s);
      if IsSpace(s[0]) {
        CollapsedHead(s);
        assert |t| == 0 || t[0] == s[1];
        assert TrimStart(t) == t;
      }
    }
  }

  /** Trimming is the identity on text with no white space at its ends. */
  lemma TrimFixesBare(s: string)
    requires Bare(s)
    ensures Trim(s) == s
  {
    assert TrimStart(s) == s;
    assert TrimEnd(s) == s;
  }

  lemma {:induction false} TrimStartOfPadded(a: string, t: string)
    requires AllSpace(a) && (|t| == 0 || !IsSpace(t[0]))
    ensures TrimStart(a + t) == t
    decreases |a|
  {
    if |a| == 0 {
      assert a + t == t;
    } else {
      assert (a + t)[0] == a[0];
      assert (a + t)[1..] == a[1..] + t;
      TrimStartOfPadded(a[1..], t);
    }
  }

  lemma {:induction false} TrimStartAllSpace(s: string)
    requires TrimStart(s) == ""
    ensures AllSpace(s)
    decreases |s|
  {
    if |s| > 0 {
      TrimStartAllSpace(s[1..]);
      forall i | 1 <= i < |s| ensures IsSpace(s[i]) {
        assert s[i] == s[1..][i - 1];
      }
    }
  }

  lemma {:induction false} TrimEndOfPadded(t: string, b: string)
    requires AllSpace(b) && (|t| == 0 || !IsSpace(t[|t| - 1]))
    ensures TrimEnd(t + b) == t
    decreases |b|
  {
    if |b| == 0 {
      assert t + b == t;
    } else {
      var u := t + b;
      assert u[|u| - 1] == b[|b| - 1];
      assert u[..|u| - 1] == t + b[..|b| - 1];
      TrimEndOfPadded(t, b[..|b| - 1]);
    }
  }

  /** Leading white space is taken from the first part as long as it has anything else. */
  lemma {:induction false} TrimStartConcat(a: string, x: string)
    ensures TrimStart(a) != "" ==> TrimStart(a + x) == TrimStart(a) + x
    ensures TrimStart(a) == "" ==> TrimStart(a + x) == TrimStart(x)
    decreases |a|
  {
    if |a| == 0 {
      assert a + x == x;
    } else {
      assert (a + x)[0] == a[0];
      if IsSpace(a[0]) {
        assert (a + x)[1..] == a[1..] + x;
        TrimStartConcat(a[1..], x);
      }
    }
  }

  /** What `TrimEnd` drops is white space. */
  lemma {:induction false} TrimEndDropsSpace(s: string)
    ensures AllSpace(s[|TrimEnd(s)|..])
    decreases |s|
  {
    if |s| > 0 && IsSpace(s[|s| - 1]) {
      var p := s[..|s| - 1];
      TrimEndDropsSpace(p);
      var k := |TrimEnd(p)|;
      forall i | 0 <= i < |s| - k ensures IsSpace(s[k..][i]) {
        if i < |p| - k {
          assert s[k..][i] == p[k..][i];
        }
      }
    }
  }

  /** What `TrimStart` drops is white space. */
  lemma {:induction false} TrimStartDropsSpace(s: string)
    ensures AllSpace(s[..|s| - |TrimStart(s)|])
    decreases |s|
  {
    if |s| > 0 && IsSpace(s[0]) {
      var t := s[1..];
      TrimStartDropsSpace(t);
      var k := |t| - |TrimStart(t)|;
      var d := s[..k + 1];
      forall i | 0 <= i < |d| ensures IsSpace(d[i]) {
        if i > 0 {
          assert d[i] == t[..k][i - 1];
        }
      }
    }
  }

  lemma AllSpaceConcat(a: string, b: string)
    requires AllSpace(a) && AllSpace(b)
    ensures AllSpace(a + b)
  {
    forall i | 0 <= i < |a + b| ensures IsSpace((a + b)[i]) {
      if i >= |a| {
        assert (a + b)[i] == b[i - |a|];
      }
    }
  }

  /** Every text is its leading white space, its trimmed middle and its trailing white space. */
  lemma TrimParts(s: string)
    ensures var lead, trail := s[..|s| - |TrimStart(s)|], TrimStart(s)[|Trim(s)|..];
      && AllSpace(lead) && AllSpace(trail)
      && s == lead + Trim(s) + trail
  {
    TrimStartDropsSpace(s);
    TrimEndDropsSpace(TrimStart(s));
    TrimPartsJoin(s);
  }

  lemma TrimPartsJoin(s: string)
    ensures s == s[..|s| - |TrimStart(s)|] + Trim(s) + TrimStart(s)[|Trim(s)|..]
  {
    var y := TrimStart(s);
    var m := Trim(s);
    var lead, trail := s[..|s| - |y|], y[|m|..];
    assert s == lead + y by { SplitAt(s, |s| - |y|); }
    assert y == m + trail by { SplitAt(y, |m|); }
    Assoc(lead, m, trail);
  }

  /** White space added around a text makes no difference to `trim`. */
  lemma TrimIgnoresPadding(p: string, x: string, q: string)
    requires AllSpace(p) && AllSpace(q)
    ensures Trim(p + x + q) == Trim(x)
  {
    var lead, m, trail := x[..|x| - |TrimStart(x)|], Trim(x), TrimStart(x)[|Trim(x)|..];
    assert x == lead + m + trail && AllSpace(lead) && AllSpace(trail) by {
      TrimParts(x);
    }
    assert p + x + q == (p + lead) + m + (trail + q) by {
      Regroup(p, lead, m, trail, q);
    }
    assert AllSpace(p + lead) && AllSpace(trail + q) by {
      AllSpaceConcat(p, lead);
      AllSpaceConcat(trail, q);
    }
    TrimOfPadded(p + lead, m, trail + q);
  }

  lemma {:induction false} NonSpaceConcat(a: string, b: string)
    ensures NonSpace(a + b) == NonSpace(a) + NonSpace(b)
    decreases |a|
  {
    if |a| > 0 {
      assert (a + b)[1..] == a[1..] + b;
      NonSpaceConcat(a[1..], b);
    } else {
      assert a + b == b;
    }
  }

  /** A text has no non-space characters exactly when it is all white space. */
  lemma {:induction false} NonSpaceEmpty(s: string)
    ensures NonSpace(s) == "" <==> AllSpace(s)
    decreases |s|
  {
    if |s| > 0 {
      NonSpaceEmpty(s[1..]);
      if AllSpace(s) {
        assert AllSpace(s[1..]) by {
          forall i | 0 <= i < |s| - 1 ensures IsSpace(s[1..][i]) {
            assert s[1..][i] == s[i + 1];
          }
        }
      }
      if NonSpace(s) == "" {
        forall i | 0 <= i < |s| ensures IsSpace(s[i]) {
          if i > 0 {
            assert s[i] == s[1..][i - 1];
          }
        }
      }
    }
  }

  /** Collapsing white space keeps every other character, in order. */
  lemma {:induction false} NonSpaceCollapse(s: string)
    ensures NonSpace(Collapse(s)) == NonSpace(s)
    decreases |s|
  {
    if |s| > 0 {
      if IsSpace(s[0]) {
        var u := TrimStart(s[1..]);
        NonSpaceCollapse(u);
        NonSpaceTrimStart(s[1..]);
        assert (" " + Collapse(u))[1..] == Collapse(u);
      } else {
        NonSpaceCollapse(s[1..]);
        assert ([s[0]] + Collapse(s[1..]))[1..] == Collapse(s[1..]);
      }
    }
  }

  lemma {:induction false} NonSpaceTrimStart(s: string)
    ensures NonSpace(TrimStart(s)) == NonSpace(s)
    decreases |s|
  {
    if |s| > 0 && IsSpace(s[0]) {
      NonSpaceTrimStart(s[1..]);
    }
  }

  lemma {:induction false} NonSpaceTrimEnd(s: string)
    ensures NonSpace(TrimEnd(s)) == NonSpace(s)
    decreases |s|
  {
    if |s| > 0 && IsSpace(s[|s| - 1]) {
      var p := s[..|s| - 1];
      NonSpaceTrimEnd(p);
      assert s == p + [s[|s| - 1]];
      NonSpaceConcat(p, [s[|s| - 1]]);
      assert NonSpace([s[|s| - 1]]) == "" + NonSpace([s[|s| - 1]][1..]);
    }
  }

  /** Trimming keeps every non-space character, in order. */
  lemma NonSpaceTrim(s: string)
    ensures NonSpace(Trim(s)) == NonSpace(s)
  {
    NonSpaceTrimStart(s);
    NonSpaceTrimEnd(TrimStart(s));
  }

  /** `trim` removes exactly the white space around the text: padding a bare text with white space on either side and trimming gives the text back. */
  lemma TrimOfPadded(a: string, m: string, b: string)
    requires AllSpace(a) && AllSpace(b) && Bare(m)
    ensures Trim(a + m + b) == m
  {
    assert a + m + b == a + (m + b);
    if |m| == 0 {
      assert m + b == b;
      assert a + b == (a + b) + "";
      assert AllSpace(a + b);
      TrimEndOfPadded("", a + b);
      TrimStartOfPadded(a + b, "");
    } else {
      assert (m + b)[0] == m[0];
      TrimStartOfPadded(a, m + b);
      TrimEndOfPadded(m, b);
    }
  }

  /** Trimming yields the empty string exactly for all-white-space input. */
  lemma TrimEmpty(s: string)
    ensures Trim(s) == "" <==> AllSpace(s)
  {
    if AllSpace(s) {
      TrimStartOfPadded(s, "");
      assert s + "" == s;
    }
    if Trim(s) == "" {
      NonSpaceTrim(s);
      NonSpaceEmpty(s);
    }
  }
}
