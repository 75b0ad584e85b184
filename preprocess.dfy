/**
 * `Prepare`: the pass that runs before any dictionary lookup. Each maximal run
 * of ASCII letters, digits, `_` and `-` shrinks to a tab followed by the run's
 * first character, so that no dictionary key can match inside Latin text;
 * then every character outside the allowed Unicode categories is dropped.
 */
module Preprocess {
  import opened Text
  import opened Words

  /** The class `[a-z0-9_-]` of the first pass, matched ignoring case. */
  predicate IsWordChar(c: char) {
    'a' <= c <= 'z' || 'A' <= c <= 'Z' || '0' <= c <= '9' || c == '_' || c == '-'
  }

  /** The characters the first pass leaves where they are: neither word characters nor the tab it inserts. */
  predicate IsOther(c: char) {
    !IsWordChar(c) && c != '\t'
  }

  /** The tab the first pass puts before every run. */
  predicate IsTab(c: char) {
    c == '\t'
  }

  /** The first pass: every maximal run of word characters becomes a tab and the run's first character. */
  function MarkRuns(s: string): (r: string)
    ensures (r == []) == (s == [])
    ensures r != [] ==> !IsWordChar(r[0])
    decreases |s|
  {
    if s == [] then []
    else if IsWordChar(s[0]) then ['\t', s[0]] + MarkRuns(s[WordLength(IsWordChar, s)..])
    else [s[0]] + MarkRuns(s[1..])
  }

  /**
   * The second pass keeps the tab and the code units of categories P, Z, M, N
   * and L: a character above U+FFFF is two surrogate halves, both deleted.
   * The word characters of the first pass are among them (categories L, Nd,
   * Pc and Pd), whatever the rest of the tables says.
   */
  predicate Kept(t: CharTables, c: char) {
    c == '\t' || IsWordChar(c) || (IsCodeUnit(c) && t.inAllowedCategories(c))
  }

  /** What `Prepare(str)` returns. */
  function Prepare(t: CharTables, s: string): (r: string)
    ensures |r| <= |MarkRuns(s)|
    ensures forall c :: c in r ==> Kept(t, c)
  {
    FilterChars(c => Kept(t, c), MarkRuns(s));
    Filter(c => Kept(t, c), MarkRuns(s))
  }

  /**
   * A character outside the class stays where it is and cuts the first pass in
   * two: each side is rewritten on its own.
   */
  lemma {:induction false} MarkRunsSplit(x: string, c: char, y: string)
    requires !IsWordChar(c)
    ensures MarkRuns(x + [c] + y) == MarkRuns(x) + [c] + MarkRuns(y)
    decreases |x|
  {
    var s := x + [c] + y;
    if x == [] {
      assert s == [c] + y;
      assert s[1..] == y;
    } else if !IsWordChar(x[0]) {
      assert s[0] == x[0] && s[1..] == x[1..] + [c] + y;
      calc {
        MarkRuns(s);
        [x[0]] + MarkRuns(x[1..] + [c] + y);
        { MarkRunsSplit(x[1..], c, y); }
        [x[0]] + (MarkRuns(x[1..]) + [c] + MarkRuns(y));
      }
    } else {
      var n := WordLength(IsWordChar, x);
      assert s == x + ([c] + y);
      calc {
        MarkRuns(x + ([c] + y));
        { MarkRunsRun(x, [c] + y); }
        ['\t', x[0]] + MarkRuns(x[n..] + ([c] + y));
        { assert x[n..] + ([c] + y) == x[n..] + [c] + y; MarkRunsSplit(x[n..], c, y); }
        ['\t', x[0]] + (MarkRuns(x[n..]) + [c] + MarkRuns(y));
        ['\t', x[0]] + MarkRuns(x[n..]) + [c] + MarkRuns(y);
        { MarkRunsRun(x, []); assert x + [] == x; }
        MarkRuns(x) + [c] + MarkRuns(y);
      }
    }
  }

  /** A run at the front, ended by `z`, becomes a tab and its first character. */
  lemma MarkRunsRun(x: string, z: string)
    requires x != [] && IsWordChar(x[0])
    requires z == [] || !IsWordChar(z[0])
    ensures MarkRuns(x + z) == ['\t', x[0]] + MarkRuns(x[WordLength(IsWordChar, x)..] + z)
  {
    assert (x + z)[0] == x[0];
    MarkRunsHead(x + z);
    WordLengthRest(IsWordChar, x, z);
  }

  /** The first pass on a text that starts with a run. */
  lemma MarkRunsHead(s: string)
    requires s != [] && IsWordChar(s[0])
    ensures MarkRuns(s) == ['\t', s[0]] + MarkRuns(s[WordLength(IsWordChar, s)..])
  {
  }

  /** A whole run is replaced by a tab and its first character. */
  lemma MarkRunsWord(w: string)
    requires w != [] && forall i :: 0 <= i < |w| ==> IsWordChar(w[i])
    ensures MarkRuns(w) == ['\t', w[0]]
  {
    WordLengthOf(IsWordChar, w, []);
    assert w + [] == w;
    assert w[|w|..] == [];
  }

  /** The first character of every piece. */
  function Heads(ws: seq<string>): (r: string)
    requires forall k :: 0 <= k < |ws| ==> ws[k] != []
    ensures |r| == |ws|
  {
    if ws == [] then [] else [ws[0][0]] + Heads(ws[1..])
  }

  /**
   * The first pass keeps exactly the first character of every maximal run of
   * word characters, in order, and adds one tab per run.
   */
  lemma {:induction false} MarkRunsKeepsFirst(s: string)
    ensures Filter(IsWordChar, MarkRuns(s)) == Heads(Tokens(IsWordChar, s))
    ensures |Filter(IsTab, MarkRuns(s))| == |Filter(IsTab, s)| + |Tokens(IsWordChar, s)|
    decreases |s|
  {
    if s != [] {
      if IsWordChar(s[0]) {
        var n := WordLength(IsWordChar, s);
        var rest := s[n..];
        MarkRunsKeepsFirst(rest);
        MarkRunsHead(s);
        MarkFilters(s[0], MarkRuns(rest));
        RunHasNoTab(s, n);
        var ws := Tokens(IsWordChar, s);
        assert ws == [s[..n]] + Tokens(IsWordChar, rest);
        assert ws[1..] == Tokens(IsWordChar, rest);
      } else {
        var m := MarkRuns(s[1..]);
        MarkRunsKeepsFirst(s[1..]);
        assert MarkRuns(s) == [s[0]] + m;
        assert ([s[0]] + m)[1..] == m;
      }
    }
  }

  /** What the tab and first character of one run add to each filter. */
  lemma MarkFilters(c: char, m: string)
    requires IsWordChar(c)
    ensures Filter(IsWordChar, ['\t', c] + m) == [c] + Filter(IsWordChar, m)
    ensures |Filter(IsTab, ['\t', c] + m)| == 1 + |Filter(IsTab, m)|
  {
    FilterAppend(IsWordChar, ['\t', c], m);
    FilterAppend(IsTab, ['\t', c], m);
    assert ['\t', c][1..] == [c];
  }

  /** A run holds no tab, so the tabs of `s` are those after its first run. */
  lemma RunHasNoTab(s: string, n: nat)
    requires n <= |s| && forall i :: 0 <= i < n ==> IsWordChar(s[i])
    ensures |Filter(IsTab, s)| == |Filter(IsTab, s[n..])|
  {
    assert s == s[..n] + s[n..];
    FilterAppend(IsTab, s[..n], s[n..]);
    FilterNone(IsTab, s[..n]);
  }

  /**
   * After the first pass no two neighbouring characters are both word
   * characters, and every word character comes right after a tab.
   */
  lemma {:induction false} MarkRunsSeparated(s: string)
    ensures forall i :: 0 <= i < |MarkRuns(s)| - 1 ==> !(IsWordChar(MarkRuns(s)[i]) && IsWordChar(MarkRuns(s)[i + 1]))
    ensures forall i :: 0 <= i < |MarkRuns(s)| && IsWordChar(MarkRuns(s)[i]) ==> i > 0 && MarkRuns(s)[i - 1] == '\t'
  {
    var r := MarkRuns(s);
    if s != [] {
      if IsWordChar(s[0]) {
        var rest := s[WordLength(IsWordChar, s)..];
        MarkRunsSeparated(rest);
        assert r == ['\t', s[0]] + MarkRuns(rest);
        forall i | 0 <= i < |r| ensures i < |r| - 1 ==> !(IsWordChar(r[i]) && IsWordChar(r[i + 1]))
          ensures IsWordChar(r[i]) ==> i > 0 && r[i - 1] == '\t'
        {
          if i >= 2 {
            assert r[i] == MarkRuns(rest)[i - 2];
          }
          if i >= 1 && i + 1 < |r| {
            assert r[i + 1] == MarkRuns(rest)[i - 1];
          }
        }
      } else {
        MarkRunsSeparated(s[1..]);
        assert r == [s[0]] + MarkRuns(s[1..]);
        forall i | 0 <= i < |r| ensures i < |r| - 1 ==> !(IsWordChar(r[i]) && IsWordChar(r[i + 1]))
          ensures IsWordChar(r[i]) ==> i > 0 && r[i - 1] == '\t'
        {
          if i >= 1 {
            assert r[i] == MarkRuns(s[1..])[i - 1];
          }
          if i + 1 < |r| {
            assert r[i + 1] == MarkRuns(s[1..])[i];
          }
        }
      }
    }
  }

  /** Every character that is neither a word character nor a tab survives the first pass, in order, and nothing else of that kind appears. */
  lemma {:induction false} MarkRunsKeepsOthers(s: string)
    ensures Filter(IsOther, MarkRuns(s)) == Filter(IsOther, s)
  {
    if s != [] {
      if IsWordChar(s[0]) {
        var n := WordLength(IsWordChar, s);
        MarkRunsKeepsOthers(s[n..]);
        FilterAppend(IsOther, ['\t', s[0]], MarkRuns(s[n..]));
        assert s == s[..n] + s[n..];
        FilterAppend(IsOther, s[..n], s[n..]);
        FilterNone(IsOther, s[..n]);
      } else {
        MarkRunsKeepsOthers(s[1..]);
        FilterAppend(IsOther, [s[0]], MarkRuns(s[1..]));
      }
    }
  }

  /**
   * The result of Prepare is the first pass with characters deleted: every
   * character left is allowed, and every tab of the first pass is still there.
   */
  lemma PrepareKeepsTabs(t: CharTables, s: string)
    ensures IsSubsequence(Prepare(t, s), MarkRuns(s))
    ensures forall c :: c in Prepare(t, s) ==> Kept(t, c)
    ensures Filter(c => c == '\t', Prepare(t, s)) == Filter(c => c == '\t', MarkRuns(s))
  {
    FilterIsSubsequence(c => Kept(t, c), MarkRuns(s));
    FilterChars(c => Kept(t, c), MarkRuns(s));
    FilterFilter(c => Kept(t, c), c => c == '\t', MarkRuns(s));
  }

  /** The deletion keeps every allowed character of the first pass: each occurs as often in the result. */
  lemma PrepareKeepsAllowed(t: CharTables, s: string, c: char)
    requires Kept(t, c)
    ensures Filter(x => x == c, Prepare(t, s)) == Filter(x => x == c, MarkRuns(s))
  {
    FilterFilter(x => Kept(t, x), x => x == c, MarkRuns(s));
  }

  /** A run of word characters comes out of `Prepare` as its tab and first character. */
  lemma PrepareWord(t: CharTables, w: string)
    requires w != [] && forall i :: 0 <= i < |w| ==> IsWordChar(w[i])
    ensures Prepare(t, w) == ['\t', w[0]]
  {
    var f := d => Kept(t, d);
    MarkRunsWord(w);
    assert [w[0]][1..] == [];
    assert Filter(f, [w[0]]) == [w[0]];
    assert ['\t', w[0]][1..] == [w[0]];
    assert Filter(f, ['\t', w[0]]) == ['\t'] + Filter(f, [w[0]]);
  }

  /**
   * A character outside the class cuts `Prepare` in two: it stays in place if
   * allowed and is deleted otherwise, and each side is prepared on its own.
   */
  lemma PrepareSplit(t: CharTables, x: string, c: char, y: string)
    requires !IsWordChar(c)
    ensures Prepare(t, x + [c] + y) == Prepare(t, x) + (if Kept(t, c) then [c] else []) + Prepare(t, y)
  {
    var f := d => Kept(t, d);
    assert [c][1..] == [];
    calc {
      Prepare(t, x + [c] + y);
      Filter(f, MarkRuns(x + [c] + y));
      { MarkRunsSplit(x, c, y); }
      Filter(f, MarkRuns(x) + [c] + MarkRuns(y));
      { FilterAppend(f, MarkRuns(x) + [c], MarkRuns(y)); }
      Filter(f, MarkRuns(x) + [c]) + Filter(f, MarkRuns(y));
      { FilterAppend(f, MarkRuns(x), [c]); }
      Filter(f, MarkRuns(x)) + Filter(f, [c]) + Filter(f, MarkRuns(y));
    }
  }

  /** Text without word characters whose every character is allowed goes through Prepare unchanged. */
  lemma {:induction false} PrepareUnchanged(t: CharTables, s: string)
    requires forall i :: 0 <= i < |s| ==> !IsWordChar(s[i]) && Kept(t, s[i])
    ensures Prepare(t, s) == s
  {
    if s != [] {
      PrepareUnchanged(t, s[1..]);
      assert MarkRuns(s) == [s[0]] + MarkRuns(s[1..]);
    }
  }
}
