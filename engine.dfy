/**
 * The `Pinyin` class: the loader field and the operations, written as the
 * loops that rewrite the string step by step, each proved equal to the value
 * the other modules define and reason about.
 */
module Engine {
  import opened Text
  import opened Tones
  import opened Preprocess
  import opened Dictionaries
  import opened Words
  import opened Sentences
  import opened Facade

  class Pinyin {
    /** The runtime's character tables (Unicode categories, white space, digits). */
    const tables: CharTables

    /** The loader `GetLoader` creates when none has been set. */
    const defaultLoader: DictLoader

    /** The punctuation map, which no operation changes. */
    const punctuations: MarkTable

    /** The loader set so far, if any. */
    var loader: Option<DictLoader>

    constructor(tables: CharTables, defaultLoader: DictLoader)
      ensures this.tables == tables && this.defaultLoader == defaultLoader
      ensures punctuations == Punctuations
      ensures loader == None
    {
      this.tables := tables;
      this.defaultLoader := defaultLoader;
      punctuations := Punctuations;
      loader := None;
    }

    /** The loader the next conversion works with: the one set, else the default. */
    function CurrentLoader(): DictLoader
      reads this
    {
      match loader
      case Some(l) => l
      case None => defaultLoader
    }

    /** Stores `l` and returns the object itself, for chaining. */
    method SetLoader(l: DictLoader) returns (self: Pinyin)
      modifies this
      ensures self == this && loader == Some(l)
      ensures CurrentLoader() == l
    {
      loader := Some(l);
      self := this;
    }

    /** The loader set, or the default one, which is stored on first use. */
    method GetLoader() returns (l: DictLoader)
      modifies this
      ensures l == old(CurrentLoader())
      ensures loader == Some(l)
      ensures old(loader).Some? ==> l == old(loader).value
    {
      if loader.None? {
        loader := Some(defaultLoader);
      }
      l := loader.value;
    }

    /** Runs the tone table over `pinyin`. */
    method Format(pinyin: string, tone: bool) returns (r: string)
      ensures r == Formatted(pinyin, tone)
    {
      TableWellFormed();
      r := FormatRows(Replacements, pinyin, tone);
    }

    /** The loop of `Format`, over the rows of `tbl` in order. */
    method FormatRows(tbl: seq<ToneEntry>, pinyin: string, tone: bool) returns (r: string)
      requires WellFormedTable(tbl)
      ensures r == FormatSteps(tbl, pinyin, tone, |tbl|)
    {
      r := pinyin;
      var i := 0;
      while i < |tbl|
        invariant 0 <= i <= |tbl|
        invariant r == FormatSteps(tbl, pinyin, tone, i)
      {
        var e := tbl[i];
        if Contains(r, e.key) {
          r := Replace(r, e.key, e.base) + (if tone then [e.tone] else []);
        }
        i := i + 1;
      }
    }

    /** Replaces the surname at the start of `str`, one surname dictionary after another. */
    method ConvertSurname(str: string, dictLoader: DictLoader) returns (r: string)
      ensures r == ApplySurnames(str, dictLoader.surnames)
    {
      var surnames := dictLoader.surnames;
      r := str;
      var k := 0;
      while k < |surnames|
        invariant 0 <= k <= |surnames|
        invariant r == ApplySurnames(str, surnames[..k])
      {
        var dictionary := surnames[k];
        var before := r;
        var i := 0;
        while i < |dictionary|
          invariant 0 <= i <= |dictionary|
          invariant r == before
          invariant forall j :: 0 <= j < i ==> !IsPrefix(dictionary[j].0, before)
        {
          var key := dictionary[i].0;
          if IsPrefix(key, r) {
            r := dictionary[i].1 + r[|key|..];
            break;
          }
          i := i + 1;
        }
        assert r == SurnameStep(before, dictionary);
        assert surnames[..k + 1][..k] == surnames[..k];
        k := k + 1;
      }
      assert surnames[..k] == surnames;
    }

    /** Prepares `str`, converts the surname for a name, then applies every entry of every segment. */
    method Romanize(str: string, isName: bool) returns (r: string)
      modifies this
      ensures r == Romanized(tables, old(CurrentLoader()), str, isName)
      ensures loader == Some(old(CurrentLoader()))
    {
      r := Prepare(tables, str);
      var dictLoader := GetLoader();
      if isName {
        r := ConvertSurname(r, dictLoader);
      }
      var start := r;
      var segments := dictLoader.segments;
      var k := 0;
      while k < |segments|
        invariant 0 <= k <= |segments|
        invariant r == ApplySegments(start, segments[..k])
      {
        var dictionary := segments[k];
        var before := r;
        var i := 0;
        while i < |dictionary|
          invariant 0 <= i <= |dictionary|
          invariant r == ApplyEntries(before, dictionary[..i])
        {
          r := Replace(r, dictionary[i].0, dictionary[i].1);
          assert dictionary[..i + 1][..i] == dictionary[..i];
          i := i + 1;
        }
        assert dictionary[..i] == dictionary;
        assert segments[..k + 1][..k] == segments[..k];
        k := k + 1;
      }
      assert segments[..k] == segments;
    }

    /** Splits `pinyin` into its runs and, outside `UNICODE` mode, overwrites each with the formatted input. */
    method SplitWords(pinyin: string, option: string) returns (split: array<string>)
      ensures fresh(split)
      ensures split[..] == SplitResult(tables, pinyin, option)
    {
      var ws := Tokens(WordClass(tables), pinyin);
      split := new string[|ws|](k requires 0 <= k < |ws| => ws[k]);
      if UNICODE != option {
        var index := 0;
        while index < split.Length
          invariant 0 <= index <= split.Length
          invariant forall k :: 0 <= k < index ==> split[k] == Formatted(pinyin, ASCII == option)
        {
          split[index] := Format(pinyin, ASCII == option);
          index := index + 1;
        }
      }
    }

    /** Romanizes `str` and splits the result. */
    method Convert(str: string, option: string) returns (r: array<string>)
      modifies this
      ensures fresh(r)
      ensures r[..] == Converted(tables, old(CurrentLoader()), str, option)
      ensures loader == Some(old(CurrentLoader()))
    {
      var pinyin := Romanize(str, false);
      r := SplitWords(pinyin, option);
    }

    /** Romanizes the name `stringName`, surname first, and splits the result. */
    method Name(stringName: string, option: string) returns (r: array<string>)
      modifies this
      ensures fresh(r)
      ensures r[..] == Named(tables, old(CurrentLoader()), stringName, option)
      ensures loader == Some(old(CurrentLoader()))
    {
      var pinyin := Romanize(stringName, true);
      r := SplitWords(pinyin, option);
    }

    /** Checks the delimiter, then joins the words of `Convert(str)`. */
    method Permalink(str: string, delimiter: string) returns (r: Result<string>)
      modifies this
      ensures r == PermalinkOf(tables, old(CurrentLoader()), str, delimiter)
      ensures r.Err? ==> loader == old(loader)
      ensures r.Ok? ==> loader == Some(old(CurrentLoader()))
    {
      if delimiter !in PermalinkDelimiters {
        return Err(DelimiterMessage);
      }
      var words := Convert(str, NONE);
      r := Ok(Join(delimiter, words[..]));
    }

    /** Joins the first character of each word of `Convert(str)`. */
    method Abbr(str: string, delimiter: string) returns (r: string)
      modifies this
      ensures r == AbbrOf(tables, old(CurrentLoader()), str, delimiter)
      ensures loader == Some(old(CurrentLoader()))
    {
      var words := Convert(str, NONE);
      SplitResultNonEmpty(tables, Romanized(tables, old(CurrentLoader()), str, false), NONE);
      r := Join(delimiter, Initials(words[..]));
    }

    /** Joins the words of `Convert(str, option)`. */
    method Phrase(str: string, delimiter: string, option: string) returns (r: string)
      modifies this
      ensures r == PhraseOf(tables, old(CurrentLoader()), str, delimiter, option)
      ensures loader == Some(old(CurrentLoader()))
    {
      var words := Convert(str, option);
      r := Join(delimiter, words[..]);
    }

    /** The replace-and-trim loop of `Sentence`, run over the entries of `tbl` in order. */
    method Punctuate(t: Tables, tbl: seq<(string, string)>, s: string) returns (r: string)
      requires NonEmptyKeys(tbl)
      ensures r == PunctuateSteps(t, tbl, s, |tbl|)
    {
      r := s;
      var i := 0;
      while i < |tbl|
        invariant 0 <= i <= |tbl|
        invariant r == PunctuateSteps(t, tbl, s, i)
      {
        r := Trim(t, Replace(r, tbl[i].0, tbl[i].1));
        i := i + 1;
      }
    }

    /**
     * Romanizes `sentence`, strips slash runs, replaces each punctuation mark,
     * the tab and the space, trimming after each, and formats unless `withTone`.
     */
    method Sentence(sentence: string, withTone: bool) returns (r: string)
      modifies this
      ensures r == SentencedWith(tables, punctuations, old(CurrentLoader()), sentence, withTone)
      ensures punctuations == Punctuations ==> r == Sentenced(tables, old(CurrentLoader()), sentence, withTone)
      ensures loader == Some(old(CurrentLoader()))
    {
      var romanized := Romanize(sentence, false);
      var stripped := StripSlashRuns(AllowedClass(tables), romanized);
      ExtendedMap(punctuations);
      var pinyin := Punctuate(tables, punctuations + Blanks, stripped);
      assert pinyin == Punctuated(tables, punctuations, stripped);
      if withTone {
        r := pinyin;
      } else {
        r := Format(pinyin, false);
      }
    }
  }
}
