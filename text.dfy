/**
 * The pieces of the .NET runtime that the romanization engine relies on:
 * `String.Replace`, the ordinal reading of `String.IndexOf`, `String.Join`,
 * `String.Trim`, and the Unicode tables behind `\p{...}`, `\s` and `\d`.
 * Strings are sequences of `char`.
 */
module Text {

  /** The value of an operation, or the message of the exception .NET throws. */
  datatype Result<T> = Ok(value: T) | Err(message: string)

  datatype Option<T> = None | Some(value: T)

  /**
   * The Unicode tables of the runtime, kept abstract:
   *  - `inAllowedCategories`: general category P, Z, M, N or L (`\p{P}\p{Z}\p{M}\p{N}\p{L}`);
   *  - `isWhiteSpace`: `Char.IsWhiteSpace`, also the regex class `\s`;
   *  - `isDecimalDigit`: the regex class `\d` (category Nd).
   */
  datatype Tables = Tables(
    inAllowedCategories: char -> bool,
    isWhiteSpace: char -> bool,
    isDecimalDigit: char -> bool)

  /**
   * The facts of the Unicode tables the model needs: lower-case ASCII letters,
   * the slash and the characters from U+00C0 to U+02AF are not white space,
   * and no upper-case ASCII letter is a decimal digit.
   */
  type CharTables = t: Tables |
    && (forall c :: 'a' <= c <= 'z' ==> !t.isWhiteSpace(c))
    && !t.isWhiteSpace('/')
    && (forall c :: 0xC0 <= c as int <= 0x2AF ==> !t.isWhiteSpace(c))
    && (forall c :: 'A' <= c <= 'Z' ==> !t.isDecimalDigit(c))
    witness Tables(c => true, c => c == ' ', c => '0' <= c <= '9')

  /**
   * A character .NET stores as one UTF-16 code unit. The regular expressions
   * of the engine test one code unit at a time, so a character above U+FFFF is
   * seen as two surrogate halves of category Cs, which none of their
   * `\p{...}` or `\d` classes contains.
   */
  predicate IsCodeUnit(c: char) {
    c as int <= 0xFFFF
  }

  // ---------------------------------------------------------------------------
  // IndexOf, ordinal

  /** `pre` starts `s`: `s.IndexOf(pre) == 0`, compared ordinally. */
  predicate IsPrefix(pre: string, s: string) {
    |pre| <= |s| && s[..|pre|] == pre
  }

  /** `pat` occurs somewhere in `s`: `s.IndexOf(pat) != -1`, compared ordinally. */
  predicate Contains(s: string, pat: string)
    decreases |s|
  {
    IsPrefix(pat, s) || (s != [] && Contains(s[1..], pat))
  }

  lemma PrefixTail(q: string, t: string)
    requires q != [] && IsPrefix(q, t)
    ensures t != [] && q[0] == t[0] && IsPrefix(q[1..], t[1..])
  {
    assert t[..|q|][0] == t[0];
    assert t[1..][..|q| - 1] == t[..|q|][1..];
  }

  lemma PrefixCons(q: string, t: string)
    requires q != [] && t != [] && q[0] == t[0] && IsPrefix(q[1..], t[1..])
    ensures IsPrefix(q, t)
  {
    forall k | 0 <= k < |q| ensures t[..|q|][k] == q[k] {
      if k > 0 {
        assert t[1..][..|q| - 1][k - 1] == q[1..][k - 1];
      }
    }
  }

  lemma {:induction false} ContainsSuffix(s: string, k: nat, pat: string)
    requires k <= |s| && Contains(s[k..], pat)
    ensures Contains(s, pat)
  {
    if k > 0 {
      assert s[1..][k - 1..] == s[k..];
      ContainsSuffix(s[1..], k - 1, pat);
    }
  }

  /** An occurrence of `pat` needs its first character. */
  lemma {:induction false} ContainsHead(s: string, pat: string)
    requires pat != [] && Contains(s, pat)
    ensures pat[0] in s
  {
    if !IsPrefix(pat, s) {
      ContainsHead(s[1..], pat);
    }
  }

  /** A character of `s` is an occurrence of the one-character string. */
  lemma {:induction false} ContainsChar(s: string, c: char)
    requires c in s
    ensures Contains(s, [c])
  {
    if s[0] == c {
      assert s[..1] == [c];
    } else {
      assert c in s[1..];
      ContainsChar(s[1..], c);
    }
  }

  /** An occurrence in `a + b` lies in `b` when `a` lacks the first character of `pat`. */
  lemma {:induction false} ContainsSkip(a: string, b: string, pat: string)
    requires pat != [] && pat[0] !in a
    requires Contains(a + b, pat)
    ensures Contains(b, pat)
  {
    if a != [] {
      assert a[0] in a;
      if IsPrefix(pat, a + b) {
        PrefixTail(pat, a + b);
        assert false;
      }
      assert (a + b)[1..] == a[1..] + b;
      ContainsSkip(a[1..], b, pat);
    } else {
      assert a + b == b;
    }
  }

  /** Appending characters foreign to `pat` does not change whether `pat` starts the text. */
  lemma PrefixAppend(x: string, d: string, pat: string)
    requires forall c :: c in d ==> c !in pat
    ensures IsPrefix(pat, x + d) <==> IsPrefix(pat, x)
  {
    if |pat| <= |x| {
      assert (x + d)[..|pat|] == x[..|pat|];
    } else if |pat| <= |x + d| {
      assert d[0] in d && pat[|x|] in pat;
      assert (x + d)[..|pat|][|x|] == d[0] != pat[|x|];
    }
  }

  /** Appending characters foreign to `pat` neither creates nor hides an occurrence. */
  lemma {:induction false} ContainsAppend(x: string, d: string, pat: string)
    requires pat != []
    requires forall c :: c in d ==> c !in pat
    ensures Contains(x + d, pat) <==> Contains(x, pat)
  {
    PrefixAppend(x, d, pat);
    if x == [] {
      assert x + d == d;
      if Contains(d, pat) {
        assert pat[0] in pat;
        ContainsHead(d, pat);
        assert false;
      }
    } else {
      assert (x + d)[1..] == x[1..] + d;
      ContainsAppend(x[1..], d, pat);
    }
  }

  // ---------------------------------------------------------------------------
  // String.Replace

  /**
   * `s.Replace(pat, rep)`: every non-overlapping occurrence of `pat`, found
   * scanning left to right, is replaced by `rep`. .NET throws on an empty `pat`.
   */
  function Replace(s: string, pat: string, rep: string): (r: string)
    requires pat != []
    ensures |pat| == |rep| ==> |r| == |s|
    decreases |s|
  {
    if IsPrefix(pat, s) then rep + Replace(s[|pat|..], pat, rep)
    else if s == [] then []
    else [s[0]] + Replace(s[1..], pat, rep)
  }

  /** Every character of the result comes from `s` or from `rep`. */
  lemma {:induction false} ReplaceChars(s: string, pat: string, rep: string)
    requires pat != []
    ensures forall c :: c in Replace(s, pat, rep) ==> c in s || c in rep
    decreases |s|
  {
    if IsPrefix(pat, s) {
      ReplaceChars(s[|pat|..], pat, rep);
    } else if s != [] {
      ReplaceChars(s[1..], pat, rep);
    }
  }

  /** Without an occurrence of `pat`, Replace returns its input. */
  lemma {:induction false} ReplaceAbsent(s: string, pat: string, rep: string)
    requires pat != [] && !Contains(s, pat)
    ensures Replace(s, pat, rep) == s
  {
    if s != [] {
      ReplaceAbsent(s[1..], pat, rep);
    }
  }

  /** A replacement of the same length changes a position only into a character of `rep`. */
  lemma {:induction false} ReplacePointwise(s: string, pat: string, rep: string)
    requires pat != [] && |pat| == |rep|
    ensures |Replace(s, pat, rep)| == |s|
    ensures forall i :: 0 <= i < |s| ==> Replace(s, pat, rep)[i] == s[i] || Replace(s, pat, rep)[i] in rep
  {
    var r := Replace(s, pat, rep);
    if IsPrefix(pat, s) {
      ReplacePointwise(s[|pat|..], pat, rep);
      forall i | 0 <= i < |s| ensures r[i] == s[i] || r[i] in rep {
        if i >= |rep| {
          assert r[i] == Replace(s[|pat|..], pat, rep)[i - |pat|];
        }
      }
    } else if s != [] {
      ReplacePointwise(s[1..], pat, rep);
      forall i | 0 <= i < |s| ensures r[i] == s[i] || r[i] in rep {
        if i > 0 {
          assert r[i] == Replace(s[1..], pat, rep)[i - 1];
        }
      }
    }
  }

  /** The result starts like the input as far as `q` goes, when `q` shares no character with `rep`. */
  lemma {:induction false} ReplaceKeepsPrefix(t: string, q: string, pat: string, rep: string)
    requires pat != [] && rep != []
    requires forall c :: c in q ==> c !in rep
    requires IsPrefix(q, Replace(t, pat, rep))
    ensures IsPrefix(q, t)
  {
    if q != [] {
      var r := Replace(t, pat, rep);
      assert q[0] in q && rep[0] in rep;
      assert q[0] == r[..|q|][0] == r[0];
      if IsPrefix(pat, t) {
        assert false;
      }
      assert t != [];
      assert r == [t[0]] + Replace(t[1..], pat, rep);
      PrefixTail(q, r);
      assert r[1..] == Replace(t[1..], pat, rep);
      assert forall c :: c in q[1..] ==> c in q;
      ReplaceKeepsPrefix(t[1..], q[1..], pat, rep);
      PrefixCons(q, t);
    }
  }

  /** Replacing by text foreign to `key` creates no new occurrence of `key`. */
  lemma {:induction false} ReplaceNoNewOccurrence(s: string, pat: string, rep: string, key: string)
    requires pat != [] && rep != [] && key != []
    requires forall c :: c in key ==> c !in rep
    requires Contains(Replace(s, pat, rep), key)
    ensures Contains(s, key)
  {
    var r := Replace(s, pat, rep);
    if IsPrefix(pat, s) {
      ContainsSkip(rep, Replace(s[|pat|..], pat, rep), key);
      ReplaceNoNewOccurrence(s[|pat|..], pat, rep, key);
      ContainsSuffix(s, |pat|, key);
    } else if s == [] {
      assert false;
    } else {
      var rest := Replace(s[1..], pat, rep);
      assert r == [s[0]] + rest;
      assert r[1..] == rest;
      if IsPrefix(key, r) {
        PrefixTail(key, r);
        assert forall c :: c in key[1..] ==> c in key;
        ReplaceKeepsPrefix(s[1..], key[1..], pat, rep);
        PrefixCons(key, s);
      } else {
        assert r[1..] == rest;
        ReplaceNoNewOccurrence(s[1..], pat, rep, key);
      }
    }
  }

  /** After Replace no occurrence of `pat` is left, when `rep` is non-empty and foreign to `pat`. */
  lemma {:induction false} ReplaceRemoves(s: string, pat: string, rep: string)
    requires pat != [] && rep != []
    requires forall c :: c in pat ==> c !in rep
    ensures !Contains(Replace(s, pat, rep), pat)
  {
    var r := Replace(s, pat, rep);
    if IsPrefix(pat, s) {
      ReplaceRemoves(s[|pat|..], pat, rep);
      if Contains(r, pat) {
        ContainsSkip(rep, Replace(s[|pat|..], pat, rep), pat);
      }
    } else if s != [] {
      var rest := Replace(s[1..], pat, rep);
      assert r == [s[0]] + rest;
      ReplaceRemoves(s[1..], pat, rep);
      assert r[1..] == rest;
      if IsPrefix(pat, r) {
        PrefixTail(pat, r);
        assert forall c :: c in pat[1..] ==> c in pat;
        ReplaceKeepsPrefix(s[1..], pat[1..], pat, rep);
        PrefixCons(pat, s);
        assert false;
      }
    }
  }

  /** Replacing a single character by text without it leaves none of it. */
  lemma {:induction false} ReplaceRemovesChar(s: string, c: char, rep: string)
    requires c !in rep
    ensures c !in Replace(s, [c], rep)
  {
    if IsPrefix([c], s) {
      ReplaceRemovesChar(s[1..], c, rep);
    } else if s != [] {
      assert s[..1] == [s[0]];
      ReplaceRemovesChar(s[1..], c, rep);
    }
  }

  /** A character foreign to both `pat` and `rep` keeps every occurrence through Replace. */
  lemma {:induction false} ReplaceKeepsForeignChar(s: string, pat: string, rep: string, c: char)
    requires pat != [] && c !in pat && c !in rep
    ensures Filter(x => x == c, Replace(s, pat, rep)) == Filter(x => x == c, s)
  {
    if IsPrefix(pat, s) {
      ReplaceKeepsForeignChar(s[|pat|..], pat, rep, c);
      FilterAppend(x => x == c, rep, Replace(s[|pat|..], pat, rep));
      assert s == pat + s[|pat|..];
      FilterAppend(x => x == c, pat, s[|pat|..]);
      NoneOf(rep, c);
      NoneOf(pat, c);
    } else if s != [] {
      ReplaceKeepsForeignChar(s[1..], pat, rep, c);
      FilterAppend(x => x == c, [s[0]], Replace(s[1..], pat, rep));
    }
  }

  lemma {:induction false} NoneOf(w: string, c: char)
    requires c !in w
    ensures Filter(x => x == c, w) == []
  {
    if w != [] {
      NoneOf(w[1..], c);
    }
  }

  /** Replace leaves an appended tail alone when the tail holds no character of `pat`. */
  lemma {:induction false} ReplaceAppend(x: string, d: string, pat: string, rep: string)
    requires pat != []
    requires forall c :: c in d ==> c !in pat
    ensures Replace(x + d, pat, rep) == Replace(x, pat, rep) + d
  {
    if x == [] {
      assert x + d == d;
      ContainsAppend(x, d, pat);
      ReplaceAbsent(d, pat, rep);
    } else {
      PrefixAppend(x, d, pat);
      if IsPrefix(pat, x) {
        assert (x + d)[|pat|..] == x[|pat|..] + d;
        ReplaceAppend(x[|pat|..], d, pat, rep);
      } else {
        assert (x + d)[0] == x[0];
        assert (x + d)[1..] == x[1..] + d;
        ReplaceAppend(x[1..], d, pat, rep);
      }
    }
  }

  // ---------------------------------------------------------------------------
  // Filtering (what a regex replacement of a one-character class by "" does)

  /** The characters of `s` that satisfy `f`, in order. */
  function Filter(f: char -> bool, s: string): (r: string)
    ensures |r| <= |s|
  {
    if s == [] then [] else (if f(s[0]) then [s[0]] else []) + Filter(f, s[1..])
  }

  /** Every character kept by `Filter` is in `s` and passes the test. */
  lemma {:induction false} FilterChars(f: char -> bool, s: string)
    ensures forall c :: c in Filter(f, s) ==> c in s && f(c)
  {
    if s != [] {
      FilterChars(f, s[1..]);
    }
  }

  /** Filtering text none of whose characters pass the test gives nothing. */
  lemma {:induction false} FilterNone(f: char -> bool, w: string)
    requires forall i :: 0 <= i < |w| ==> !f(w[i])
    ensures Filter(f, w) == []
  {
    if w != [] {
      FilterNone(f, w[1..]);
    }
  }

  lemma {:induction false} FilterAppend(f: char -> bool, a: string, b: string)
    ensures Filter(f, a + b) == Filter(f, a) + Filter(f, b)
  {
    if a != [] {
      var h := if f(a[0]) then [a[0]] else [];
      assert (a + b)[0] == a[0];
      assert (a + b)[1..] == a[1..] + b;
      FilterAppend(f, a[1..], b);
      calc {
        Filter(f, a + b);
        h + Filter(f, a[1..] + b);
        h + (Filter(f, a[1..]) + Filter(f, b));
        (h + Filter(f, a[1..])) + Filter(f, b);
      }
    } else {
      assert a + b == b;
    }
  }

  /** Filtering twice keeps what the second, stricter, test keeps. */
  lemma {:induction false} FilterFilter(f: char -> bool, g: char -> bool, s: string)
    requires forall c :: g(c) ==> f(c)
    ensures Filter(g, Filter(f, s)) == Filter(g, s)
  {
    if s != [] {
      FilterFilter(f, g, s[1..]);
      FilterAppend(g, if f(s[0]) then [s[0]] else [], Filter(f, s[1..]));
    }
  }

  /** `a` is obtained from `b` by deleting characters. */
  predicate IsSubsequence(a: string, b: string)
    decreases |b|
  {
    a == [] ||
    (b != [] && ((a[0] == b[0] && IsSubsequence(a[1..], b[1..])) || IsSubsequence(a, b[1..])))
  }

  lemma {:induction false} FilterIsSubsequence(f: char -> bool, s: string)
    ensures IsSubsequence(Filter(f, s), s)
  {
    if s != [] {
      FilterIsSubsequence(f, s[1..]);
      var rest := Filter(f, s[1..]);
      if f(s[0]) {
        assert Filter(f, s) == [s[0]] + rest;
        assert Filter(f, s)[1..] == rest;
      } else {
        assert Filter(f, s) == rest;
      }
    }
  }

  // ---------------------------------------------------------------------------
  // String.Join

  /** `String.Join(sep, parts)`: the parts with `sep` between neighbours; "" for no parts. */
  function Join(sep: string, parts: seq<string>): string
  {
    if parts == [] then []
    else if |parts| == 1 then parts[0]
    else parts[0] + sep + Join(sep, parts[1..])
  }

  /** Joining `n` one-character parts yields `n` characters and `n - 1` separators. */
  lemma {:induction false} JoinSinglesLength(sep: string, parts: seq<string>)
    requires forall k :: 0 <= k < |parts| ==> |parts[k]| == 1
    ensures parts != [] ==> |Join(sep, parts)| == |parts| + (|parts| - 1) * |sep|
    ensures parts == [] ==> Join(sep, parts) == []
  {
    if |parts| > 1 {
      JoinSinglesLength(sep, parts[1..]);
    }
  }

  /** Joining `n` copies of `w` gives `n` copies and `n - 1` separators, made of their characters only. */
  lemma {:induction false} JoinCopies(sep: string, w: string, n: nat)
    ensures var j := Join(sep, seq(n, _ => w));
      && (n > 0 ==> |j| == n * |w| + (n - 1) * |sep|)
      && (forall c :: c in j ==> c in w || c in sep)
  {
    var parts := seq(n, _ => w);
    if n > 1 {
      JoinCopies(sep, w, n - 1);
      assert parts[1..] == seq(n - 1, _ => w);
      assert Join(sep, parts) == w + sep + Join(sep, seq(n - 1, _ => w));
    }
  }

  // ---------------------------------------------------------------------------
  // String.Trim

  /** `s.TrimStart()`: drops the leading white space. */
  function TrimStart(t: Tables, s: string): (r: string)
    ensures |r| <= |s|
    ensures r != [] ==> !t.isWhiteSpace(r[0])
  {
    if s != [] && t.isWhiteSpace(s[0]) then TrimStart(t, s[1..]) else s
  }

  /** `TrimStart` drops white space and nothing else: what remains is a suffix of `s`. */
  lemma {:induction false} TrimStartDropsWhiteSpace(t: Tables, s: string)
    ensures var r := TrimStart(t, s);
      r == s[|s| - |r|..] && forall i :: 0 <= i < |s| - |r| ==> t.isWhiteSpace(s[i])
  {
    if s != [] && t.isWhiteSpace(s[0]) {
      TrimStartDropsWhiteSpace(t, s[1..]);
    }
  }

  /** `s.TrimEnd()`: drops the trailing white space. */
  function TrimEnd(t: Tables, s: string): (r: string)
    ensures |r| <= |s|
    ensures r != [] ==> !t.isWhiteSpace(r[|r| - 1])
  {
    if s != [] && t.isWhiteSpace(s[|s| - 1]) then TrimEnd(t, s[..|s| - 1]) else s
  }

  /** `TrimEnd` drops white space and nothing else: what remains is a prefix of `s`. */
  lemma {:induction false} TrimEndDropsWhiteSpace(t: Tables, s: string)
    ensures var r := TrimEnd(t, s);
      r == s[..|r|] && forall i :: |r| <= i < |s| ==> t.isWhiteSpace(s[i])
  {
    if s != [] && t.isWhiteSpace(s[|s| - 1]) {
      TrimEndDropsWhiteSpace(t, s[..|s| - 1]);
    }
  }

  /** `s.Trim()`: neither starts nor ends with white space. */
  function Trim(t: Tables, s: string): (r: string)
    ensures r != [] ==> !t.isWhiteSpace(r[0]) && !t.isWhiteSpace(r[|r| - 1])
  {
    TrimEndDropsWhiteSpace(t, TrimStart(t, s));
    TrimEnd(t, TrimStart(t, s))
  }

  /** `Trim` brings in no character that was not in `s`. */
  lemma TrimKeepsChars(t: Tables, s: string)
    ensures forall c :: c in Trim(t, s) ==> c in s
  {
    var a := TrimStart(t, s);
    var r := Trim(t, s);
    TrimStartDropsWhiteSpace(t, s);
    TrimEndDropsWhiteSpace(t, a);
    forall c | c in r
      ensures c in s
    {
      var k :| 0 <= k < |r| && r[k] == c;
      assert s[|s| - |a| + k] == c;
    }
  }

  /** `Trim` keeps every occurrence of a character that is not white space. */
  lemma TrimKeepsCount(t: Tables, s: string, c: char)
    requires !t.isWhiteSpace(c)
    ensures Filter(x => x == c, Trim(t, s)) == Filter(x => x == c, s)
  {
    var a := TrimStart(t, s);
    var r := Trim(t, s);
    TrimStartDropsWhiteSpace(t, s);
    TrimEndDropsWhiteSpace(t, a);
    var k := |s| - |a|;
    assert s == s[..k] + a;
    assert a == r + a[|r|..];
    NoneOf(s[..k], c);
    NoneOf(a[|r|..], c);
    FilterAppend(x => x == c, s[..k], a);
    FilterAppend(x => x == c, r, a[|r|..]);
  }
}
