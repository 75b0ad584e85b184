/**
 * The split at the heart of `SplitWords`: `Regex.Split` on runs of characters
 * outside the pinyin class, with the empty pieces dropped. The split is
 * defined for any class given as a function; `SplitWords` uses `WordClass`.
 */
module Words {
  import opened Text

  /** The non-ASCII members of the class: ü, the 24 tone-marked vowels and ɑ. */
  const MarkedLetters: string := "üāēīōūǖáéíóúǘǎěǐǒǔǚàèìòùǜɑ"

  /**
   * `[üāēīōūǖáéíóúǘǎěǐǒǔǚàèìòùǜɑa-z\d]`, matched case-sensitively: upper-case
   * letters are separators; `\d` is any Unicode decimal digit stored as one code unit.
   */
  predicate InWord(t: CharTables, c: char) {
    c in MarkedLetters || 'a' <= c <= 'z' || (IsCodeUnit(c) && t.isDecimalDigit(c))
  }

  /** The marked letters lie between U+00C0 and U+02AF, none of them ASCII. */
  lemma MarkedLettersRange()
    ensures forall c :: c in MarkedLetters ==> 0xC0 <= c as int <= 0x2AF
  {
  }

  /** An upper-case ASCII letter is outside the class, so it separates words. */
  lemma UpperCaseSeparates(t: CharTables, c: char)
    requires 'A' <= c <= 'Z'
    ensures !InWord(t, c)
  {
    MarkedLettersRange();
  }

  /** The class as a function value, for filtering. */
  function WordClass(t: CharTables): char -> bool {
    c => InWord(t, c)
  }

  /** The length of the run of class characters that starts `s`. */
  function WordLength(inWord: char -> bool, s: string): (n: nat)
    ensures n <= |s|
    ensures forall i :: 0 <= i < n ==> inWord(s[i])
    ensures n < |s| ==> !inWord(s[n])
  {
    if s == [] || !inWord(s[0]) then 0 else 1 + WordLength(inWord, s[1..])
  }

  /** The non-empty pieces of the split: the maximal runs of class characters, in order. */
  function Tokens(inWord: char -> bool, s: string): (ws: seq<string>)
    ensures forall k :: 0 <= k < |ws| ==> ws[k] != []
    ensures forall k, i :: 0 <= k < |ws| && 0 <= i < |ws[k]| ==> inWord(ws[k][i])
    decreases |s|
  {
    if s == [] then []
    else if !inWord(s[0]) then Tokens(inWord, s[1..])
    else
      var n := WordLength(inWord, s);
      [s[..n]] + Tokens(inWord, s[n..])
  }

  /** A run stops at the same place when text follows a run that has already stopped, or a character outside the class. */
  lemma {:induction false} WordLengthAppend(inWord: char -> bool, x: string, z: string)
    requires WordLength(inWord, x) < |x| || z == [] || !inWord(z[0])
    ensures WordLength(inWord, x + z) == WordLength(inWord, x)
  {
    if x == [] {
      assert x + z == z;
    } else if inWord(x[0]) {
      assert (x + z)[1..] == x[1..] + z;
      WordLengthAppend(inWord, x[1..], z);
    }
  }

  /** When `z` does not extend the first run of `x`, what follows that run in `x + z` is the rest of `x`, then `z`. */
  lemma WordLengthRest(inWord: char -> bool, x: string, z: string)
    requires WordLength(inWord, x) < |x| || z == [] || !inWord(z[0])
    ensures (x + z)[WordLength(inWord, x + z)..] == x[WordLength(inWord, x)..] + z
  {
    WordLengthAppend(inWord, x, z);
  }

  /** A character outside the class splits the text into two independent halves. */
  lemma {:induction false} TokensSplit(inWord: char -> bool, x: string, c: char, y: string)
    requires !inWord(c)
    ensures Tokens(inWord, x + [c] + y) == Tokens(inWord, x) + Tokens(inWord, y)
    decreases |x|
  {
    var s := x + [c] + y;
    if x == [] {
      assert s == [c] + y && s[1..] == y;
    } else if !inWord(x[0]) {
      assert s[1..] == x[1..] + [c] + y;
      TokensSplit(inWord, x[1..], c, y);
    } else {
      var n := WordLength(inWord, x);
      assert s == x + ([c] + y);
      WordLengthAppend(inWord, x, [c] + y);
      assert s[..n] == x[..n];
      assert s[n..] == x[n..] + [c] + y;
      TokensSplit(inWord, x[n..], c, y);
      assert Tokens(inWord, x) == [x[..n]] + Tokens(inWord, x[n..]);
    }
  }

  /** A non-empty word of class characters is a single piece. */
  lemma TokensWord(inWord: char -> bool, w: string)
    requires w != [] && forall i :: 0 <= i < |w| ==> inWord(w[i])
    ensures Tokens(inWord, w) == [w]
  {
    WordLengthOf(inWord, w, []);
    assert w + [] == w;
    assert w[..|w|] == w && w[|w|..] == [];
  }

  /**
   * `Tokens` characterised: a string of class characters only is one piece,
   * and cutting at any separator splits the pieces there, so every piece is
   * a maximal run.
   */
  lemma TokensCut(inWord: char -> bool, s: string)
    ensures s != [] && (forall i :: 0 <= i < |s| ==> inWord(s[i])) ==> Tokens(inWord, s) == [s]
    ensures forall i :: 0 <= i < |s| && !inWord(s[i]) ==>
      Tokens(inWord, s) == Tokens(inWord, s[..i]) + Tokens(inWord, s[i + 1..])
  {
    if s != [] && forall i :: 0 <= i < |s| ==> inWord(s[i]) {
      TokensWord(inWord, s);
    }
    forall i | 0 <= i < |s| && !inWord(s[i])
      ensures Tokens(inWord, s) == Tokens(inWord, s[..i]) + Tokens(inWord, s[i + 1..])
    {
      TokensCutAt(inWord, s, i);
    }
  }

  lemma TokensCutAt(inWord: char -> bool, s: string, i: nat)
    requires i < |s| && !inWord(s[i])
    ensures Tokens(inWord, s) == Tokens(inWord, s[..i]) + Tokens(inWord, s[i + 1..])
  {
    var x, c, y := s[..i], s[i], s[i + 1..];
    assert s == x + [c] + y;
    calc {
      Tokens(inWord, s);
      Tokens(inWord, x + [c] + y);
      { TokensSplit(inWord, x, c, y); }
      Tokens(inWord, x) + Tokens(inWord, y);
    }
  }

  /** The pieces one after the other. */
  function Flatten(ws: seq<string>): string {
    if ws == [] then [] else ws[0] + Flatten(ws[1..])
  }

  /** The pieces hold exactly the class characters of `s`, in order: nothing lost, nothing added. */
  lemma {:induction false} TokensCover(inWord: char -> bool, s: string)
    ensures Flatten(Tokens(inWord, s)) == Filter(inWord, s)
    decreases |s|
  {
    if s != [] {
      if !inWord(s[0]) {
        TokensCover(inWord, s[1..]);
        assert Filter(inWord, s) == Filter(inWord, s[1..]);
      } else {
        var n := WordLength(inWord, s);
        TokensCover(inWord, s[n..]);
        assert s == s[..n] + s[n..];
        FilterAppend(inWord, s[..n], s[n..]);
        AllKept(inWord, s[..n]);
        var ws := Tokens(inWord, s);
        assert ws[0] == s[..n] && ws[1..] == Tokens(inWord, s[n..]);
      }
    }
  }

  lemma {:induction false} AllKept(inWord: char -> bool, w: string)
    requires forall i :: 0 <= i < |w| ==> inWord(w[i])
    ensures Filter(inWord, w) == w
  {
    if w != [] {
      AllKept(inWord, w[1..]);
    }
  }

  /** Leading separator characters do not change the pieces. */
  lemma {:induction false} TokensSkip(inWord: char -> bool, x: string, y: string)
    requires forall i :: 0 <= i < |x| ==> !inWord(x[i])
    ensures Tokens(inWord, x + y) == Tokens(inWord, y)
  {
    if x == [] {
      assert x + y == y;
    } else {
      assert (x + y)[1..] == x[1..] + y;
      TokensSkip(inWord, x[1..], y);
    }
  }

  lemma {:induction false} WordLengthOf(inWord: char -> bool, w: string, rest: string)
    requires forall i :: 0 <= i < |w| ==> inWord(w[i])
    requires rest == [] || !inWord(rest[0])
    ensures WordLength(inWord, w + rest) == |w|
  {
    if w == [] {
      assert w + rest == rest;
    } else {
      assert (w + rest)[1..] == w[1..] + rest;
      WordLengthOf(inWord, w[1..], rest);
    }
  }

  /**
   * Splitting undoes joining: words made of class characters, joined by a
   * non-empty separator without class characters, split back into the same words.
   */
  lemma {:induction false} TokensOfJoin(inWord: char -> bool, sep: string, ws: seq<string>)
    requires sep != [] && forall i :: 0 <= i < |sep| ==> !inWord(sep[i])
    requires forall k :: 0 <= k < |ws| ==> ws[k] != []
    requires forall k, i :: 0 <= k < |ws| && 0 <= i < |ws[k]| ==> inWord(ws[k][i])
    ensures Tokens(inWord, Join(sep, ws)) == ws
  {
    if |ws| == 1 {
      var w := ws[0];
      WordLengthOf(inWord, w, []);
      assert w + [] == w;
      assert w[..|w|] == w && w[|w|..] == [];
    } else if |ws| > 1 {
      var w := ws[0];
      var rest := Join(sep, ws[1..]);
      assert Join(sep, ws) == w + (sep + rest);
      WordLengthOf(inWord, w, sep + rest);
      assert (w + (sep + rest))[..|w|] == w;
      assert (w + (sep + rest))[|w|..] == sep + rest;
      TokensSkip(inWord, sep, rest);
      TokensOfJoin(inWord, sep, ws[1..]);
      assert ws == [w] + ws[1..];
    }
  }
}
