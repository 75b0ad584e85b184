/**
 * The pieces of `Sentence`: the punctuation map, the regex that strips a
 * slash with the disallowed characters after it, and the replace-and-trim
 * loop.
 */
module Sentences {
  import opened Text
  import opened Tones
  import opened Dictionaries
  import Words

  /** What the map satisfies: every key is one non-ASCII character, every value ASCII without a tab. */
  predicate MarkMap(punct: seq<(string, string)>) {
    forall i :: 0 <= i < |punct| ==>
      && |punct[i].0| == 1 && NonAscii(punct[i].0[0])
      && forall k :: 0 <= k < |punct[i].1| ==> !NonAscii(punct[i].1[k]) && punct[i].1[k] != '\t'
  }

  /** A punctuation map: single non-ASCII characters as keys, ASCII values without a tab. */
  type MarkTable = m: seq<(string, string)> | MarkMap(m) witness []

  /** The `punctuations` map: nine full-width marks and their ASCII counterparts, in enumeration order. */
  const Punctuations: MarkTable := [
    ("，", ","), ("。", "."), ("！", "!"), ("？", "?"), ("：", ":"),
    ("“", "\""), ("”", "\""), ("‘", "'"), ("’", "'")
  ]

  /** The two entries `Sentence` adds to its copy of the map: tab and space, both to a space. */
  const Blanks: seq<(string, string)> := [("\t", " "), (" ", " ")]

  /** The keys and then the values of the map, as they are spliced into the strip regex. */
  const MarkChars: string := "，。！？：“”‘’,.!?:\"\"''"

  /**
   * A character of the class `[üāēīōūǖáéíóúǘǎěǐǒǔǚàèìòùǜɑa-z0-9<marks>\s_]`
   * matched ignoring case, reading "ignoring case" as adding `A-Z`.
   */
  predicate SentenceAllowed(t: CharTables, c: char) {
    c in Words.MarkedLetters || 'a' <= c <= 'z' || 'A' <= c <= 'Z' || '0' <= c <= '9'
    || c in MarkChars || t.isWhiteSpace(c) || c == '_'
  }

  /** The class as a function value. */
  function AllowedClass(t: CharTables): char -> bool {
    c => SentenceAllowed(t, c)
  }

  /** An allowed character is never a slash. */
  lemma SlashNotAllowed(t: CharTables)
    ensures !AllowedClass(t)('/')
  {
  }

  /** The length of the run of characters outside `allowed` that starts `s`. */
  function DisallowedLength(allowed: char -> bool, s: string): (n: nat)
    ensures n <= |s|
    ensures forall i :: 0 <= i < n ==> !allowed(s[i])
    ensures n < |s| ==> allowed(s[n])
  {
    if s == [] || allowed(s[0]) then 0 else 1 + DisallowedLength(allowed, s[1..])
  }

  /**
   * `Regex.Replace(s, "/[^...]+", "")` for the class `allowed`: scanning left
   * to right, a slash followed by at least one character outside the class is
   * deleted together with the whole run of such characters after it; nothing
   * else changes.
   */
  function StripSlashRuns(allowed: char -> bool, s: string): (r: string)
    ensures |r| <= |s|
    ensures forall c :: c in r ==> c in s
    decreases |s|
  {
    if s == [] then []
    else if s[0] == '/' && |s| > 1 && !allowed(s[1]) then
      StripSlashRuns(allowed, s[1 + DisallowedLength(allowed, s[1..])..])
    else [s[0]] + StripSlashRuns(allowed, s[1..])
  }

  /** A string that starts with a character of a class without the slash keeps it in front. */
  lemma StripKeepsAllowedHead(allowed: char -> bool, s: string)
    requires !allowed('/')
    requires s != [] && allowed(s[0])
    ensures StripSlashRuns(allowed, s) != [] && StripSlashRuns(allowed, s)[0] == s[0]
  {
  }

  /** Every slash of `r` is the last character or is followed by a character of the class. */
  predicate SlashesResolved(allowed: char -> bool, r: string) {
    forall i :: 0 <= i < |r| - 1 && r[i] == '/' ==> allowed(r[i + 1])
  }

  /** After stripping, every slash left is the last character or is followed by an allowed one. */
  lemma {:induction false} StripLeavesNoSlashRun(allowed: char -> bool, s: string)
    requires !allowed('/')
    ensures SlashesResolved(allowed, StripSlashRuns(allowed, s))
    decreases |s|
  {
    if s != [] {
      if s[0] == '/' && |s| > 1 && !allowed(s[1]) {
        StripLeavesNoSlashRun(allowed, s[1 + DisallowedLength(allowed, s[1..])..]);
      } else {
        StripLeavesNoSlashRun(allowed, s[1..]);
        var tail := StripSlashRuns(allowed, s[1..]);
        var r := StripSlashRuns(allowed, s);
        assert r == [s[0]] + tail;
        forall i | 0 <= i < |r| - 1 && r[i] == '/' ensures allowed(r[i + 1]) {
          if i == 0 {
            StripKeepsAllowedHead(allowed, s[1..]);
          } else {
            assert r[i] == tail[i - 1] && r[i + 1] == tail[i];
          }
        }
      }
    }
  }

  /** Text without a slash is left as it is. */
  lemma {:induction false} StripWithoutSlash(allowed: char -> bool, s: string)
    requires '/' !in s
    ensures StripSlashRuns(allowed, s) == s
  {
    if s != [] {
      StripWithoutSlash(allowed, s[1..]);
    }
  }

  /** Stripping deletes no occurrence of a character of the class. */
  lemma {:induction false} StripKeepsAllowed(allowed: char -> bool, s: string, c: char)
    requires !allowed('/') && allowed(c)
    ensures Filter(x => x == c, StripSlashRuns(allowed, s)) == Filter(x => x == c, s)
    decreases |s|
  {
    if s != [] {
      if s[0] == '/' && |s| > 1 && !allowed(s[1]) {
        var k := 1 + DisallowedLength(allowed, s[1..]);
        StripKeepsAllowed(allowed, s[k..], c);
        assert s == s[..k] + s[k..];
        assert forall i :: 1 <= i < k ==> s[..k][i] == s[1..][i - 1];
        NoneOf(s[..k], c);
        FilterAppend(x => x == c, s[..k], s[k..]);
      } else {
        StripKeepsAllowed(allowed, s[1..], c);
        FilterAppend(x => x == c, [s[0]], StripSlashRuns(allowed, s[1..]));
      }
    }
  }

  /** The map extended with the blanks has no empty key. */
  lemma ExtendedMap(punct: seq<(string, string)>)
    requires MarkMap(punct)
    ensures NonEmptyKeys(punct + Blanks)
  {
    var tbl := punct + Blanks;
    forall j | 0 <= j < |tbl| ensures tbl[j].0 != [] {
      if j < |punct| {
        assert tbl[j] == punct[j];
      }
    }
  }

  /** The string after the first `n` replace-and-trim steps over `tbl`. */
  function PunctuateSteps(t: Tables, tbl: seq<(string, string)>, s: string, n: nat): string
    requires NonEmptyKeys(tbl) && n <= |tbl|
  {
    if n == 0 then s
    else Trim(t, Replace(PunctuateSteps(t, tbl, s, n - 1), tbl[n - 1].0, tbl[n - 1].1))
  }

  /** The whole loop over `punct`: every entry of the map, then tab and space. */
  function Punctuated(t: CharTables, punct: MarkTable, s: string): string {
    ExtendedMap(punct);
    PunctuateSteps(t, punct + Blanks, s, |punct| + |Blanks|)
  }

  /** What `Sentence(sentence, withTone)` returns with the loader `l` and the map `punct`. */
  function SentencedWith(t: CharTables, punct: MarkTable, l: DictLoader, s: string, withTone: bool): string {
    var p := Punctuated(t, punct, StripSlashRuns(AllowedClass(t), Romanized(t, l, s, false)));
    if withTone then p else Formatted(p, false)
  }

  /** What `Sentence(sentence, withTone)` returns with the loader `l` and the nine-mark map. */
  function Sentenced(t: CharTables, l: DictLoader, s: string, withTone: bool): string {
    SentencedWith(t, Punctuations, l, s, withTone)
  }

  /** Neither end of `p` is white space. */
  predicate Trimmed(t: CharTables, p: string) {
    p != [] ==> !t.isWhiteSpace(p[0]) && !t.isWhiteSpace(p[|p| - 1])
  }

  /** None of the keys of `punct` occurs in `p`. */
  predicate NoKeys(punct: seq<(string, string)>, p: string)
    requires MarkMap(punct)
  {
    forall i :: 0 <= i < |punct| ==> punct[i].0[0] !in p
  }

  /** The keys of the first `n` entries of the extended map are gone from `p`. */
  predicate Cleared(punct: seq<(string, string)>, n: nat, p: string)
    requires MarkMap(punct)
  {
    && (forall i :: 0 <= i < n && i < |punct| ==> punct[i].0[0] !in p)
    && (n > |punct| ==> '\t' !in p)
  }

  /**
   * After `n` steps over the map extended with the blanks, the keys of the
   * entries handled so far are gone, and the string neither starts nor ends
   * with white space.
   */
  lemma {:induction false} PunctuateStepsClean(t: CharTables, punct: seq<(string, string)>, s: string, n: nat)
    requires MarkMap(punct) && NonEmptyKeys(punct + Blanks) && n <= |punct| + |Blanks|
    ensures Cleared(punct, n, PunctuateSteps(t, punct + Blanks, s, n))
    ensures n > 0 ==> Trimmed(t, PunctuateSteps(t, punct + Blanks, s, n))
  {
    if n > 0 {
      PunctuateStepsClean(t, punct, s, n - 1);
      StepKeepsClean(t, punct, s, n - 1);
    }
  }

  /** Step `m + 1` removes its own key and brings back none of the earlier ones. */
  lemma StepKeepsClean(t: CharTables, punct: seq<(string, string)>, s: string, m: nat)
    requires MarkMap(punct) && NonEmptyKeys(punct + Blanks) && m < |punct| + |Blanks|
    requires Cleared(punct, m, PunctuateSteps(t, punct + Blanks, s, m))
    ensures Cleared(punct, m + 1, PunctuateSteps(t, punct + Blanks, s, m + 1))
    ensures Trimmed(t, PunctuateSteps(t, punct + Blanks, s, m + 1))
  {
    var tbl := punct + Blanks;
    var prev := PunctuateSteps(t, tbl, s, m);
    var e := tbl[m];
    var replaced := Replace(prev, e.0, e.1);
    var r := Trim(t, replaced);
    assert PunctuateSteps(t, tbl, s, m + 1) == r;
    TrimKeepsChars(t, replaced);
    ReplaceChars(prev, e.0, e.1);
    ValueChars(punct, m);
    if m < |punct| {
      assert e == punct[m];
      assert e.0 == [e.0[0]];
      ReplaceRemovesChar(prev, e.0[0], e.1);
    } else if m == |punct| {
      assert e == ("\t", " ");
      ReplaceRemovesChar(prev, '\t', e.1);
    }
    forall i | 0 <= i < m && i < |punct| ensures punct[i].0[0] !in replaced {
      assert NonAscii(punct[i].0[0]);
    }
  }

  /**
   * A non-ASCII character that is not white space and is no key of the map
   * keeps every occurrence through the replace-and-trim steps.
   */
  lemma {:induction false} PunctuateStepsKeepCount(t: CharTables, punct: seq<(string, string)>, s: string, n: nat, c: char)
    requires MarkMap(punct) && NonEmptyKeys(punct + Blanks) && n <= |punct| + |Blanks|
    requires NonAscii(c) && !t.isWhiteSpace(c)
    requires forall i :: 0 <= i < |punct| ==> punct[i].0[0] != c
    ensures Filter(x => x == c, PunctuateSteps(t, punct + Blanks, s, n)) == Filter(x => x == c, s)
  {
    if n > 0 {
      var tbl := punct + Blanks;
      var prev := PunctuateSteps(t, tbl, s, n - 1);
      var e := tbl[n - 1];
      PunctuateStepsKeepCount(t, punct, s, n - 1, c);
      ValueChars(punct, n - 1);
      if n - 1 < |punct| {
        assert e == punct[n - 1] && e.0 == [e.0[0]];
      } else {
        assert e == Blanks[n - 1 - |punct|];
      }
      ReplaceKeepsForeignChar(prev, e.0, e.1, c);
      TrimKeepsCount(t, Replace(prev, e.0, e.1), c);
      assert PunctuateSteps(t, tbl, s, n) == Trim(t, Replace(prev, e.0, e.1));
    }
  }

  /** Every full-width mark of the map lies at U+2000 or above. */
  lemma PunctuationsHigh()
    ensures forall i :: 0 <= i < |Punctuations| ==> Punctuations[i].0[0] as int >= 0x2000
  {
  }

  /**
   * With tone, `Sentence` keeps every tone-marked vowel (and ü and ɑ) of the
   * romanized text: the strip never deletes a letter of its class, the map's
   * replacements neither match nor insert one, and trimming only touches
   * white space.
   */
  lemma SentenceKeepsMarkedLetters(t: CharTables, l: DictLoader, s: string, c: char)
    requires c in Words.MarkedLetters
    ensures Filter(x => x == c, Sentenced(t, l, s, true)) == Filter(x => x == c, Romanized(t, l, s, false))
  {
    Words.MarkedLettersRange();
    PunctuationsHigh();
    var romanized := Romanized(t, l, s, false);
    var stripped := StripSlashRuns(AllowedClass(t), romanized);
    SlashNotAllowed(t);
    StripKeepsAllowed(AllowedClass(t), romanized, c);
    ExtendedMap(Punctuations);
    PunctuateStepsKeepCount(t, Punctuations, stripped, |Punctuations| + |Blanks|, c);
  }

  /** No value of the extended map holds a non-ASCII character or a tab. */
  lemma ValueChars(punct: seq<(string, string)>, m: nat)
    requires MarkMap(punct) && m < |punct| + |Blanks|
    ensures forall c :: c in (punct + Blanks)[m].1 ==> !NonAscii(c) && c != '\t'
  {
    if m < |punct| {
      assert (punct + Blanks)[m] == punct[m];
      forall c | c in punct[m].1 ensures !NonAscii(c) && c != '\t' {
        var k :| 0 <= k < |punct[m].1| && punct[m].1[k] == c;
      }
    } else {
      assert (punct + Blanks)[m] == Blanks[m - |punct|];
    }
  }

  /** The marks of `punct` and the tab, which the loop removes, do not occur in `p`. */
  predicate NoMarks(punct: MarkTable, p: string) {
    NoKeys(punct, p) && '\t' !in p
  }

  /** `Format(p, false)` keeps a string free of marks and tabs, and trimmed. */
  lemma FormatKeepsClean(t: CharTables, punct: MarkTable, p: string)
    requires NoMarks(punct, p) && Trimmed(t, p)
    ensures NoMarks(punct, Formatted(p, false)) && Trimmed(t, Formatted(p, false))
  {
    FormatKeepsShape(p);
    var r := Formatted(p, false);
    forall c | c in r ensures c in p || IsBaseLetter(c) {
      var i :| 0 <= i < |r| && r[i] == c;
    }
    forall i | 0 <= i < |punct| ensures punct[i].0[0] !in r {
      assert NonAscii(punct[i].0[0]);
    }
  }

  /** The loop's result: no mark of the map, no tab, no white space at either end. */
  lemma PunctuateClean(t: CharTables, punct: MarkTable, s: string)
    ensures NoMarks(punct, Punctuated(t, punct, s)) && Trimmed(t, Punctuated(t, punct, s))
  {
    ExtendedMap(punct);
    PunctuateStepsClean(t, punct, s, |punct| + |Blanks|);
  }

  /**
   * `Sentence` leaves none of the map's full-width marks and no tab, has no
   * white space at either end, and without tone none of the 28 marked vowels.
   */
  lemma SentenceClean(t: CharTables, punct: MarkTable, l: DictLoader, s: string, withTone: bool)
    ensures NoMarks(punct, SentencedWith(t, punct, l, s, withTone))
    ensures Trimmed(t, SentencedWith(t, punct, l, s, withTone))
    ensures !withTone ==> forall i :: 0 <= i < |Replacements| ==> !Contains(SentencedWith(t, punct, l, s, withTone), Replacements[i].key)
  {
    var stripped := StripSlashRuns(AllowedClass(t), Romanized(t, l, s, false));
    var p := Punctuated(t, punct, stripped);
    PunctuateClean(t, punct, stripped);
    if !withTone {
      FormatKeepsClean(t, punct, p);
      FormatRemovesAllKeys(p);
    }
  }
}
