/**
 * The tone table of `Format` and what running it does to a string.
 * `Formatted(p, tone)` is the value `Format(p, tone)` returns.
 */
module Tones {
  import opened Text

  /** A row of the table: a tone-marked vowel, its plain spelling and its tone digit. */
  datatype ToneEntry = ToneEntry(key: string, base: string, tone: char)

  /** The replacement table, in the order its entries are enumerated (28 rows). */
  const Replacements: seq<ToneEntry> := [
    ToneEntry("üē", "ue", '1'), ToneEntry("üé", "ue", '2'), ToneEntry("üě", "ue", '3'), ToneEntry("üè", "ue", '4'),
    ToneEntry("ā", "a", '1'), ToneEntry("ē", "e", '1'), ToneEntry("ī", "i", '1'),
    ToneEntry("ō", "o", '1'), ToneEntry("ū", "u", '1'), ToneEntry("ǖ", "v", '1'),
    ToneEntry("á", "a", '2'), ToneEntry("é", "e", '2'), ToneEntry("í", "i", '2'),
    ToneEntry("ó", "o", '2'), ToneEntry("ú", "u", '2'), ToneEntry("ǘ", "v", '2'),
    ToneEntry("ǎ", "a", '3'), ToneEntry("ě", "e", '3'), ToneEntry("ǐ", "i", '3'),
    ToneEntry("ǒ", "o", '3'), ToneEntry("ǔ", "u", '3'), ToneEntry("ǚ", "v", '3'),
    ToneEntry("à", "a", '4'), ToneEntry("è", "e", '4'), ToneEntry("ì", "i", '4'),
    ToneEntry("ò", "o", '4'), ToneEntry("ù", "u", '4'), ToneEntry("ǜ", "v", '4')
  ]

  predicate IsBaseLetter(c: char) {
    c == 'a' || c == 'e' || c == 'i' || c == 'o' || c == 'u' || c == 'v'
  }

  predicate IsToneDigit(c: char) {
    '1' <= c <= '4'
  }

  predicate NonAscii(c: char) {
    c as int > 127
  }

  /**
   * What every row satisfies: the marked vowel and its plain spelling have the
   * same length, the marked vowel is made of non-ASCII characters only, the
   * spelling of the letters a, e, i, o, u, v only.
   */
  predicate WellFormed(e: ToneEntry) {
    && |e.key| == |e.base| > 0
    && (forall k :: 0 <= k < |e.key| ==> NonAscii(e.key[k]))
    && (forall k :: 0 <= k < |e.base| ==> IsBaseLetter(e.base[k]))
    && IsToneDigit(e.tone)
  }

  /** A table all of whose rows are well formed. */
  predicate WellFormedTable(tbl: seq<ToneEntry>) {
    forall i :: 0 <= i < |tbl| ==> WellFormed(tbl[i])
  }

  lemma TableWellFormed()
    ensures |Replacements| == 28
    ensures WellFormedTable(Replacements)
  {
    forall i | 0 <= i < |Replacements|
      ensures WellFormed(Replacements[i])
    {
      // by groups of rows: the four ü rows, then the six rows of each tone
      if i < 4 {
      } else if i < 10 {
      } else if i < 16 {
      } else if i < 22 {
      } else {
      }
    }
  }

  /** A marked vowel of one row shares no character with the spelling of any row. */
  lemma KeyForeignToBase(tbl: seq<ToneEntry>, i: nat, j: nat)
    requires WellFormedTable(tbl) && i < |tbl| && j < |tbl|
    ensures tbl[i].key != [] && tbl[j].base != []
    ensures forall c :: c in tbl[i].key ==> c !in tbl[j].base
  {
    assert WellFormed(tbl[i]) && WellFormed(tbl[j]);
    forall c | c in tbl[i].key ensures c !in tbl[j].base {
      var k :| 0 <= k < |tbl[i].key| && tbl[i].key[k] == c;
    }
  }

  /**
   * The string after the first `n` rows of `tbl`: a row whose marked vowel
   * occurs replaces it everywhere and, with `tone`, appends its digit to the end.
   */
  function FormatSteps(tbl: seq<ToneEntry>, p: string, tone: bool, n: nat): string
    requires WellFormedTable(tbl) && n <= |tbl|
  {
    if n == 0 then p
    else
      var s := FormatSteps(tbl, p, tone, n - 1);
      var e := tbl[n - 1];
      assert WellFormed(e);
      if Contains(s, e.key) then Replace(s, e.key, e.base) + (if tone then [e.tone] else []) else s
  }

  /** What `Format(p, tone)` returns. */
  function Formatted(p: string, tone: bool): string {
    TableWellFormed();
    FormatSteps(Replacements, p, tone, |Replacements|)
  }

  /** The digits the first `n` rows append: one per row whose marked vowel is found, in table order. */
  function ToneDigits(tbl: seq<ToneEntry>, p: string, n: nat): string
    requires WellFormedTable(tbl) && n <= |tbl|
  {
    if n == 0 then []
    else
      var e := tbl[n - 1];
      ToneDigits(tbl, p, n - 1) + (if Contains(FormatSteps(tbl, p, false, n - 1), e.key) then [e.tone] else [])
  }

  /** The digits `Format(p, true)` appends with the 28-row table. */
  function AppendedDigits(p: string): string {
    TableWellFormed();
    ToneDigits(Replacements, p, |Replacements|)
  }

  /** With `tone`, the steps produce the tone-less string followed by the digits: no digit lands beside its vowel. */
  lemma {:induction false} FormatStepsToneSplit(tbl: seq<ToneEntry>, p: string, n: nat)
    requires WellFormedTable(tbl) && n <= |tbl|
    ensures FormatSteps(tbl, p, true, n) == FormatSteps(tbl, p, false, n) + ToneDigits(tbl, p, n)
    ensures forall c :: c in ToneDigits(tbl, p, n) ==> IsToneDigit(c)
    ensures |ToneDigits(tbl, p, n)| <= n
  {
    if n > 0 {
      FormatStepsToneSplit(tbl, p, n - 1);
      var e := tbl[n - 1];
      var s := FormatSteps(tbl, p, false, n - 1);
      var d := ToneDigits(tbl, p, n - 1);
      DigitsForeignToKey(tbl, n - 1, d);
      ContainsAppend(s, d, e.key);
      if Contains(s, e.key) {
        ReplaceAppend(s, d, e.key, e.base);
        assert (Replace(s, e.key, e.base) + d) + [e.tone] == Replace(s, e.key, e.base) + (d + [e.tone]);
      }
    }
  }

  /** Tone digits are ASCII, so no marked vowel contains one. */
  lemma DigitsForeignToKey(tbl: seq<ToneEntry>, m: nat, d: string)
    requires WellFormedTable(tbl) && m < |tbl|
    requires forall c :: c in d ==> IsToneDigit(c)
    ensures tbl[m].key != [] && IsToneDigit(tbl[m].tone)
    ensures forall c :: c in d ==> c !in tbl[m].key
  {
    var e := tbl[m];
    assert WellFormed(e);
    assert forall c :: c in d ==> c !in e.key;
  }

  /** `Format(p, true)` is `Format(p, false)` followed by one digit 1-4 per table row found, in table order. */
  lemma FormatToneSuffix(p: string)
    ensures Formatted(p, true) == Formatted(p, false) + AppendedDigits(p)
    ensures |AppendedDigits(p)| <= |Replacements|
    ensures forall c :: c in AppendedDigits(p) ==> IsToneDigit(c)
  {
    TableWellFormed();
    FormatStepsToneSplit(Replacements, p, |Replacements|);
  }

  /** Without tone digits the steps keep the length and change a character only into a plain vowel letter. */
  lemma {:induction false} FormatStepsPointwise(tbl: seq<ToneEntry>, p: string, n: nat)
    requires WellFormedTable(tbl) && n <= |tbl|
    ensures |FormatSteps(tbl, p, false, n)| == |p|
    ensures forall i :: 0 <= i < |p| ==> FormatSteps(tbl, p, false, n)[i] == p[i] || IsBaseLetter(FormatSteps(tbl, p, false, n)[i])
  {
    if n > 0 {
      FormatStepsPointwise(tbl, p, n - 1);
      var e := tbl[n - 1];
      assert WellFormed(e);
      var s := FormatSteps(tbl, p, false, n - 1);
      if Contains(s, e.key) {
        ReplacePointwise(s, e.key, e.base);
        assert FormatSteps(tbl, p, false, n) == Replace(s, e.key, e.base) + [];
      }
    }
  }

  /** After the first `n` rows without tone, none of their marked vowels occurs any more. */
  lemma {:induction false} FormatStepsRemoveKeys(tbl: seq<ToneEntry>, p: string, n: nat)
    requires WellFormedTable(tbl) && n <= |tbl|
    ensures forall i :: 0 <= i < n ==> !Contains(FormatSteps(tbl, p, false, n), tbl[i].key)
  {
    if n > 0 {
      FormatStepsRemoveKeys(tbl, p, n - 1);
      KeyForeignToBase(tbl, n - 1, n - 1);
      var e := tbl[n - 1];
      var s := FormatSteps(tbl, p, false, n - 1);
      if Contains(s, e.key) {
        var r := Replace(s, e.key, e.base);
        assert FormatSteps(tbl, p, false, n) == r + [] == r;
        ReplaceRemoves(s, e.key, e.base);
        forall i | 0 <= i < n - 1 ensures !Contains(r, tbl[i].key) {
          KeyForeignToBase(tbl, i, n - 1);
          if Contains(r, tbl[i].key) {
            ReplaceNoNewOccurrence(s, e.key, e.base, tbl[i].key);
          }
        }
      }
    }
  }

  /** A string without any marked vowel of the first `n` rows is left as it is, for either `tone`. */
  lemma {:induction false} FormatStepsUnchanged(tbl: seq<ToneEntry>, p: string, tone: bool, n: nat)
    requires WellFormedTable(tbl) && n <= |tbl|
    requires forall i :: 0 <= i < n ==> !Contains(p, tbl[i].key)
    ensures FormatSteps(tbl, p, tone, n) == p
  {
    if n > 0 {
      FormatStepsUnchanged(tbl, p, tone, n - 1);
    }
  }

  /** `Format(p, false)` keeps the length of `p` and only turns characters into plain vowel letters. */
  lemma FormatKeepsShape(p: string)
    ensures |Formatted(p, false)| == |p|
    ensures forall i :: 0 <= i < |p| ==> Formatted(p, false)[i] == p[i] || IsBaseLetter(Formatted(p, false)[i])
  {
    TableWellFormed();
    FormatStepsPointwise(Replacements, p, |Replacements|);
  }

  /** `Format(p, false)` leaves none of the 28 marked vowels. */
  lemma FormatRemovesAllKeys(p: string)
    ensures forall i :: 0 <= i < |Replacements| ==> !Contains(Formatted(p, false), Replacements[i].key)
  {
    TableWellFormed();
    FormatStepsRemoveKeys(Replacements, p, |Replacements|);
  }

  /** In particular no single-character key, a marked vowel, is left anywhere in the tone-less form. */
  lemma FormatRemovesMarkedChars(p: string)
    ensures forall i :: 0 <= i < |Replacements| && |Replacements[i].key| == 1 ==>
      NonAscii(Replacements[i].key[0]) && Replacements[i].key[0] !in Formatted(p, false)
  {
    FormatRemovesAllKeys(p);
    TableWellFormed();
    forall i | 0 <= i < |Replacements| && |Replacements[i].key| == 1
      ensures NonAscii(Replacements[i].key[0]) && Replacements[i].key[0] !in Formatted(p, false)
    {
      var k := Replacements[i].key;
      assert WellFormed(Replacements[i]);
      assert k == [k[0]];
      if k[0] in Formatted(p, false) {
        ContainsChar(Formatted(p, false), k[0]);
      }
    }
  }

  /** A string without any of the 28 marked vowels is returned as it is, with or without tone. */
  lemma FormatIdentity(p: string, tone: bool)
    requires forall i :: 0 <= i < |Replacements| ==> !Contains(p, Replacements[i].key)
    ensures Formatted(p, tone) == p
  {
    TableWellFormed();
    FormatStepsUnchanged(Replacements, p, tone, |Replacements|);
  }

  /** Formatting a formatted string again changes nothing, whatever `tone` is. */
  lemma FormatIdempotent(p: string, tone: bool)
    ensures Formatted(Formatted(p, false), tone) == Formatted(p, false)
  {
    FormatRemovesAllKeys(p);
    FormatIdentity(Formatted(p, false), tone);
  }
}
