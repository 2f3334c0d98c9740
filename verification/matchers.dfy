/** The pluggable strategy types of a remote list and their default
    implementations: case-insensitive search, exact, prefix and suffix
    matching over the record set, and the per-line processor used on load.
 */
module Matchers {
  import opened GoStrings
  import opened StringOrder

  /** Returns every match of a term among the records. */
  type SearchFunc = (set<string>, string) -> seq<string>

  /** Decides whether a term is present among the records. */
  type HasFunc = (set<string>, string) -> bool

  /** Rewrites a downloaded payload before it is saved. */
  type DataFilterFunc = string -> string

  /** Rewrites one line of the cached file and decides whether to keep it. */
  type DataLineFunc = string -> (string, bool)

  /** The default search: every record whose lower-case form contains the
      lower-cased term, in stored casing, ascending and without repeats. */
  function DefaultSearch(records: set<string>, term: string): (matches: seq<string>)
    ensures StrictlySorted(matches)
    ensures forall rec :: rec in matches <==> rec in records && IsInfix(ToLower(term), ToLower(rec))
    ensures |matches| <= |records|
  {
    var t := ToLower(term);
    var hits := set rec | rec in records && Contains(ToLower(rec), t);
    assert hits <= records;
    SubsetCardinality(hits, records);
    SortedSet(hits)
  }

  lemma SubsetCardinality(a: set<string>, b: set<string>)
    requires a <= b
    ensures |a| <= |b|
  {
    assert b == a + (b - a);
  }

  /** An empty line, or one starting with `#` or `//`. */
  predicate IsCommentOrBlank(line: string) {
    |line| == 0 || line[0] == '#' || (|line| >= 2 && line[0] == '/' && line[1] == '/')
  }

  /** The default line processor keeps the line as it is, and drops it when
      it is empty or starts with `#` or `//`. */
  function DefaultDataLineProcess(line: string): (r: (string, bool))
    ensures r.0 == line
    ensures r.1 <==> !IsCommentOrBlank(line)
  {
    assert "//" <= line <==> |line| >= 2 && line[0] == '/' && line[1] == '/';
    (line, !(HasPrefix(line, "#") || HasPrefix(line, "//") || |line| == 0))
  }

  /** Folding a record against a lower-cased term compares lower-case forms. */
  lemma EqualFoldLowered(term: string)
    ensures forall rec :: EqualFold(rec, ToLower(term)) <==> ToLower(rec) == ToLower(term)
  {
    forall rec
      ensures EqualFold(rec, ToLower(term)) <==> ToLower(rec) == ToLower(term)
    {
      EqualFoldIffLowerEqual(rec, ToLower(term));
      ToLowerIdempotent(term);
    }
  }

  /** The default exact match: some record equals the term ignoring case. */
  function DefaultHas(records: set<string>, term: string): (found: bool)
    ensures found <==> exists rec :: rec in records && ToLower(rec) == ToLower(term)
  {
    var t := ToLower(term);
    EqualFoldLowered(term);
    exists rec :: rec in records && EqualFold(rec, t)
  }

  /** The default prefix match: some lower-cased record starts with the lower-cased term. */
  function DefaultHasPrefix(records: set<string>, term: string): (found: bool)
    ensures found <==> exists rec :: rec in records && ToLower(term) <= ToLower(rec)
  {
    var t := ToLower(term);
    exists rec :: rec in records && HasPrefix(ToLower(rec), t)
  }

  /** The default suffix match: some lower-cased record ends with the lower-cased term. */
  function DefaultHasSuffix(records: set<string>, term: string): (found: bool)
    ensures found <==> exists rec :: rec in records && IsSuffix(ToLower(term), ToLower(rec))
  {
    var t := ToLower(term);
    exists rec :: rec in records && HasSuffix(ToLower(rec), t)
  }

  // ---------------------------------------------------------------------
  // How the default matchers relate to each other
  // ---------------------------------------------------------------------

  /** Searching for the empty term lists every record. */
  lemma SearchEmptyTermListsAll(records: set<string>)
    ensures DefaultSearch(records, "") == SortedSet(records)
  {
    var m := DefaultSearch(records, "");
    forall rec
      ensures rec in m <==> rec in SortedSet(records)
    {
      assert OccursAt(ToLower(""), ToLower(rec), 0);
    }
    StrictlySortedUnique(m, SortedSet(records));
  }

  /** The case of the search term does not matter. */
  lemma SearchIgnoresTermCase(records: set<string>, term: string)
    ensures DefaultSearch(records, term) == DefaultSearch(records, ToLower(term))
  {
    ToLowerIdempotent(term);
  }

  /** A record found by the exact match is also returned by the search. */
  lemma HasImpliesSearchHit(records: set<string>, term: string)
    requires DefaultHas(records, term)
    ensures exists rec :: rec in DefaultSearch(records, term) && ToLower(rec) == ToLower(term)
  {
    var rec :| rec in records && ToLower(rec) == ToLower(term);
    assert OccursAt(ToLower(term), ToLower(rec), 0);
    assert rec in DefaultSearch(records, term);
  }

  /** An exact match is both a prefix and a suffix match. */
  lemma HasImpliesPrefixAndSuffix(records: set<string>, term: string)
    requires DefaultHas(records, term)
    ensures DefaultHasPrefix(records, term)
    ensures DefaultHasSuffix(records, term)
  {
    var rec :| rec in records && ToLower(rec) == ToLower(term);
    assert ToLower(rec)[0..] == ToLower(term);
  }

  /** A prefix or suffix match always shows up in the search results. */
  lemma PrefixOrSuffixHitIsSearchHit(records: set<string>, term: string)
    requires DefaultHasPrefix(records, term) || DefaultHasSuffix(records, term)
    ensures |DefaultSearch(records, term)| > 0
  {
    var t := ToLower(term);
    var rec :| rec in records && (t <= ToLower(rec) || IsSuffix(t, ToLower(rec)));
    if t <= ToLower(rec) {
      assert OccursAt(t, ToLower(rec), 0);
    } else {
      var lr := ToLower(rec);
      assert IsSuffix(t, lr);
      assert lr[|lr| - |t|..|lr|] == lr[|lr| - |t|..];
      assert OccursAt(t, lr, |lr| - |t|);
    }
    assert rec in DefaultSearch(records, term);
  }
}
