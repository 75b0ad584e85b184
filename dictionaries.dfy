/**
 * The dictionaries a loader delivers, and the two substitution passes of
 * `Romanize` over them: the surname pass (names only) and the general pass.
 */
module Dictionaries {
  import opened Text
  import opened Preprocess

  /** One dictionary as the loader hands it over: its `(key, value)` entries in enumeration order. */
  type Entries = seq<(string, string)>

  /** A `Dictionary<string, string>` never holds a key twice. */
  predicate DistinctKeys(d: Entries) {
    forall i, j :: 0 <= i < j < |d| ==> d[i].0 != d[j].0
  }

  /** `String.Replace` accepts only non-empty keys. */
  predicate NonEmptyKeys(d: Entries) {
    forall i :: 0 <= i < |d| ==> d[i].0 != []
  }

  predicate AllNonEmptyKeys(segs: seq<Entries>) {
    forall k :: 0 <= k < |segs| ==> NonEmptyKeys(segs[k])
  }

  /**
   * What a `DictLoaderInterface` delivers: `Map` hands over the word
   * segments in order, `MapSurname` the surname dictionaries.
   */
  datatype Loaded = Loaded(segments: seq<Entries>, surnames: seq<Entries>)

  predicate ValidLoaded(l: Loaded) {
    && AllNonEmptyKeys(l.segments)
    && (forall k :: 0 <= k < |l.segments| ==> DistinctKeys(l.segments[k]))
    && (forall k :: 0 <= k < |l.surnames| ==> DistinctKeys(l.surnames[k]))
  }

  type DictLoader = l: Loaded | ValidLoaded(l) witness Loaded([], [])

  // ---------------------------------------------------------------------------
  // Surnames

  /** The position of the first key, in enumeration order, that starts `s`. */
  function FirstPrefix(d: Entries, s: string): (r: Option<nat>)
    ensures r.Some? ==> r.value < |d| && IsPrefix(d[r.value].0, s)
    ensures r.Some? ==> forall j :: 0 <= j < r.value ==> !IsPrefix(d[j].0, s)
    ensures r.None? ==> forall j :: 0 <= j < |d| ==> !IsPrefix(d[j].0, s)
  {
    if d == [] then None
    else if IsPrefix(d[0].0, s) then Some(0)
    else match FirstPrefix(d[1..], s)
      case None => None
      case Some(k) => Some(k + 1)
  }

  /**
   * One surname dictionary applied to `s`: the first key in enumeration order
   * that starts `s` (not the longest one) is replaced by its value; the rest
   * of `s` is untouched; without such a key `s` is returned as it is.
   */
  function SurnameStep(s: string, d: Entries): (r: string)
    ensures (forall j :: 0 <= j < |d| ==> !IsPrefix(d[j].0, s)) ==> r == s
    ensures forall i :: 0 <= i < |d| && IsPrefix(d[i].0, s) && (forall j :: 0 <= j < i ==> !IsPrefix(d[j].0, s)) ==>
      r == d[i].1 + s[|d[i].0|..]
  {
    match FirstPrefix(d, s)
    case None => s
    case Some(i) => d[i].1 + s[|d[i].0|..]
  }

  /** First match, not longest: with "单" listed before "单于", the name 单于明 keeps 于. */
  lemma SurnameFirstMatch()
    ensures SurnameStep("单于明", [("单", "shan\t"), ("单于", "chan\tyu\t")]) == "shan\t于明"
  {
  }

  /** Every surname dictionary, in the order `MapSurname` hands them over, applied in turn. */
  function ApplySurnames(s: string, ds: seq<Entries>): string
  {
    if ds == [] then s else SurnameStep(ApplySurnames(s, ds[..|ds| - 1]), ds[|ds| - 1])
  }

  // ---------------------------------------------------------------------------
  // The general dictionary pass

  /** `str = str.Replace(key, value)` for every entry of one segment, in enumeration order. */
  function ApplyEntries(s: string, d: Entries): string
    requires NonEmptyKeys(d)
  {
    if d == [] then s
    else
      var last := d[|d| - 1];
      Replace(ApplyEntries(s, d[..|d| - 1]), last.0, last.1)
  }

  /** Every segment, in the order `Map` hands them over, applied in turn. */
  function ApplySegments(s: string, segs: seq<Entries>): string
    requires AllNonEmptyKeys(segs)
  {
    if segs == [] then s else ApplyEntries(ApplySegments(s, segs[..|segs| - 1]), segs[|segs| - 1])
  }

  /** All entries of all segments, segment after segment. */
  function Concat(segs: seq<Entries>): (d: Entries)
    ensures AllNonEmptyKeys(segs) ==> NonEmptyKeys(d)
  {
    if segs == [] then [] else Concat(segs[..|segs| - 1]) + segs[|segs| - 1]
  }

  /** Applying `a + b` is applying `a`, then `b`. */
  lemma {:induction false} ApplyEntriesAppend(s: string, a: Entries, b: Entries)
    requires NonEmptyKeys(a) && NonEmptyKeys(b)
    ensures NonEmptyKeys(a + b)
    ensures ApplyEntries(s, a + b) == ApplyEntries(ApplyEntries(s, a), b)
  {
    if b == [] {
      assert a + b == a;
    } else {
      ApplyEntriesAppend(s, a, b[..|b| - 1]);
      assert (a + b)[..|a + b| - 1] == a + b[..|b| - 1];
    }
  }

  /**
   * The general pass is one sequence of replacements: the entries of the
   * first segment in key order, then those of the second, and so on.
   */
  lemma {:induction false} ApplySegmentsInOrder(s: string, segs: seq<Entries>)
    requires AllNonEmptyKeys(segs)
    ensures ApplySegments(s, segs) == ApplyEntries(s, Concat(segs))
  {
    if segs != [] {
      ApplySegmentsInOrder(s, segs[..|segs| - 1]);
      ApplyEntriesAppend(s, Concat(segs[..|segs| - 1]), segs[|segs| - 1]);
    }
  }

  /** A segment none of whose keys occurs in `s` leaves `s` as it is. */
  lemma {:induction false} ApplyEntriesAbsent(s: string, d: Entries)
    requires NonEmptyKeys(d)
    requires forall i :: 0 <= i < |d| ==> !Contains(s, d[i].0)
    ensures ApplyEntries(s, d) == s
  {
    if d != [] {
      ApplyEntriesAbsent(s, d[..|d| - 1]);
      ReplaceAbsent(s, d[|d| - 1].0, d[|d| - 1].1);
    }
  }

  /** When no key of any segment occurs in `s`, the general pass returns `s`. */
  lemma {:induction false} ApplySegmentsAbsent(s: string, segs: seq<Entries>)
    requires AllNonEmptyKeys(segs)
    requires forall k, i :: 0 <= k < |segs| && 0 <= i < |segs[k]| ==> !Contains(s, segs[k][i].0)
    ensures ApplySegments(s, segs) == s
  {
    if segs != [] {
      ApplySegmentsAbsent(s, segs[..|segs| - 1]);
      ApplyEntriesAbsent(s, segs[|segs| - 1]);
    }
  }

  /** `c` occurs in no key and no value of `d`. */
  predicate ForeignTo(c: char, d: Entries) {
    forall i :: 0 <= i < |d| ==> c !in d[i].0 && c !in d[i].1
  }

  lemma {:induction false} ApplyEntriesKeepsForeignChar(s: string, d: Entries, c: char)
    requires NonEmptyKeys(d) && ForeignTo(c, d)
    ensures Filter(x => x == c, ApplyEntries(s, d)) == Filter(x => x == c, s)
  {
    if d != [] {
      ApplyEntriesKeepsForeignChar(s, d[..|d| - 1], c);
      ReplaceKeepsForeignChar(ApplyEntries(s, d[..|d| - 1]), d[|d| - 1].0, d[|d| - 1].1, c);
    }
  }

  /**
   * A character that no key and no value mentions (a Han character without
   * an entry) passes through the general pass: it occurs exactly as often.
   */
  lemma {:induction false} ApplySegmentsKeepsForeignChar(s: string, segs: seq<Entries>, c: char)
    requires AllNonEmptyKeys(segs)
    requires forall k :: 0 <= k < |segs| ==> ForeignTo(c, segs[k])
    ensures Filter(x => x == c, ApplySegments(s, segs)) == Filter(x => x == c, s)
  {
    if segs != [] {
      ApplySegmentsKeepsForeignChar(s, segs[..|segs| - 1], c);
      ApplyEntriesKeepsForeignChar(ApplySegments(s, segs[..|segs| - 1]), segs[|segs| - 1], c);
    }
  }

  // ---------------------------------------------------------------------------
  // Romanize

  /** What `Romanize(str, isName)` returns with the loader `l`. */
  function Romanized(t: CharTables, l: DictLoader, s: string, isName: bool): string {
    var p := Prepare(t, s);
    ApplySegments(if isName then ApplySurnames(p, l.surnames) else p, l.segments)
  }

  /**
   * When no segment key occurs, Romanize returns the prepared string (after
   * the surname pass for a name): unknown characters pass through verbatim.
   */
  lemma RomanizeWithoutMatches(t: CharTables, l: DictLoader, s: string, isName: bool)
    requires var p := Prepare(t, s); var q := if isName then ApplySurnames(p, l.surnames) else p;
      forall k, i :: 0 <= k < |l.segments| && 0 <= i < |l.segments[k]| ==> !Contains(q, l.segments[k][i].0)
    ensures Romanized(t, l, s, isName) == if isName then ApplySurnames(Prepare(t, s), l.surnames) else Prepare(t, s)
  {
    var p := Prepare(t, s);
    ApplySegmentsAbsent(if isName then ApplySurnames(p, l.surnames) else p, l.segments);
  }
}
