/** The remote list itself: its configuration, its record set, the query
    and mutation surface, the load pass that fills the set from the cached
    file, and construction.

    Every operation is one atomic step on an immutable value; the mutex
    that serialises them in a concurrent program has no counterpart here.
 */
module Store {
  import opened Wrappers
  import opened GoStrings
  import opened StringOrder
  import opened Matchers
  import opened Cache

  /** A remote list: its strategies, where the list lives, and its records. */
  datatype RemoteList = RemoteList(
    fnSearch: SearchFunc,
    fnHas: HasFunc,
    fnHasPrefix: HasFunc,
    fnHasSuffix: HasFunc,
    fnDataFilter: Option<DataFilterFunc>,
    fnDataLine: Option<DataLineFunc>,
    maxAge: int,
    fileLocal: string,
    fileRemote: string,
    records: set<string>)

  /** Whether the configured exact matcher finds `value`. */
  function Has(rl: RemoteList, value: string): (found: bool)
    ensures found == rl.fnHas(rl.records, value)
    // the default answers case-insensitively, on the term as given
    ensures rl.fnHas == DefaultHas ==>
      (found <==> exists rec :: rec in rl.records && ToLower(rec) == ToLower(value))
  {
    rl.fnHas(rl.records, value)
  }

  /** What the configured search strategy returns for `value`. */
  function Search(rl: RemoteList, value: string): (matches: seq<string>)
    ensures matches == rl.fnSearch(rl.records, value)
    // the default returns the case-insensitive substring matches, ascending
    ensures rl.fnSearch == DefaultSearch ==>
      && StrictlySorted(matches)
      && forall rec :: rec in matches <==> rec in rl.records && IsInfix(ToLower(value), ToLower(rec))
  {
    rl.fnSearch(rl.records, value)
  }

  /** Adds the trimmed value; nothing else changes. */
  function Add(rl: RemoteList, value: string): (r: RemoteList)
    ensures TrimSpace(value) in r.records
    ensures forall x :: x != TrimSpace(value) ==> (x in r.records <==> x in rl.records)
    ensures r.(records := rl.records) == rl
    ensures Trimmed(value) ==> value in r.records
  {
    assert Trimmed(value) ==> TrimSpace(value) == value by {
      if Trimmed(value) {
        TrimSpaceOfTrimmed(value);
      }
    }
    rl.(records := rl.records + {TrimSpace(value)})
  }

  /** Adding the same value twice is the same as adding it once. */
  lemma AddIdempotent(rl: RemoteList, value: string)
    ensures Add(Add(rl, value), value) == Add(rl, value)
    ensures |Add(Add(rl, value), value).records| == |Add(rl, value).records|
  {
  }

  /** Additions commute: the record set does not remember insertion order. */
  lemma AddCommutes(rl: RemoteList, a: string, b: string)
    ensures Add(Add(rl, a), b) == Add(Add(rl, b), a)
  {
  }

  /** The record set grows by one exactly when the trimmed value is new. */
  lemma AddCardinality(rl: RemoteList, value: string)
    ensures TrimSpace(value) in rl.records ==> |Add(rl, value).records| == |rl.records|
    ensures TrimSpace(value) !in rl.records ==> |Add(rl, value).records| == |rl.records| + 1
  {
    var t := TrimSpace(value);
    assert Add(rl, value).records == rl.records + {t};
    if t in rl.records {
      assert rl.records + {t} == rl.records;
    }
  }

  /** With the default matchers, an added value is found again by `Has` and
      by `Search` under its trimmed form, in any letter case. */
  lemma AddThenFind(rl: RemoteList, value: string, term: string)
    requires rl.fnHas == DefaultHas && rl.fnSearch == DefaultSearch
    requires ToLower(term) == ToLower(TrimSpace(value))
    ensures Has(Add(rl, value), term)
    ensures TrimSpace(value) in Search(Add(rl, value), term)
  {
    var r := Add(rl, value);
    var t := TrimSpace(value);
    assert t in r.records && r.fnHas == DefaultHas && r.fnSearch == DefaultSearch;
    assert DefaultHas(r.records, term);
    assert OccursAt(ToLower(term), ToLower(t), 0);
    assert IsInfix(ToLower(term), ToLower(t));
    assert t in DefaultSearch(r.records, term);
  }

  /** Every record exactly once, ascending: the set's elements are
      collected in whatever order the set yields them and then sorted. */
  method List(rl: RemoteList) returns (res: seq<string>)
    ensures StrictlySorted(res)
    ensures forall x :: x in res <==> x in rl.records
    ensures |res| == |rl.records|
    ensures res == SortedSet(rl.records)
  {
    var collected: seq<string> := [];
    var rest := rl.records;
    while rest != {}
      invariant rest <= rl.records
      invariant Distinct(collected)
      invariant forall x :: x in collected <==> x in rl.records - rest
      decreases |rest|
    {
      var rec :| rec in rest;
      assert rec !in collected;
      collected := collected + [rec];
      rest := rest - {rec};
    }
    res := SortStrings(collected);
    SortEnumeration(collected, rl.records);
  }

  // ---------------------------------------------------------------------
  // Loading the cached file
  // ---------------------------------------------------------------------

  /** The records the given lines contribute: the trimmed output of the line
      processor for every line it accepts. Without a processor, none. */
  ghost function Accepted(fn: Option<DataLineFunc>, lines: seq<string>): set<string> {
    match fn
    case None => {}
    case Some(f) => set line | line in lines && f(line).1 :: TrimSpace(f(line).0)
  }

  lemma {:induction false} AcceptedCons(fn: Option<DataLineFunc>, lines: seq<string>)
    requires |lines| > 0
    ensures Accepted(fn, lines) == Accepted(fn, lines[..1]) + Accepted(fn, lines[1..])
  {
    if fn.Some? {
      var f := fn.value;
      forall x | x in Accepted(fn, lines)
        ensures x in Accepted(fn, lines[..1]) + Accepted(fn, lines[1..])
      {
        var i :| 0 <= i < |lines| && f(lines[i]).1 && x == TrimSpace(f(lines[i]).0);
        if i == 0 {
          assert lines[..1][0] == lines[0];
        } else {
          assert lines[1..][i - 1] == lines[i];
        }
      }
      forall x | x in Accepted(fn, lines[..1]) + Accepted(fn, lines[1..])
        ensures x in Accepted(fn, lines)
      {
        if x in Accepted(fn, lines[..1]) {
          assert lines[..1][0] == lines[0];
          assert f(lines[0]).1 && x == TrimSpace(f(lines[0]).0);
        } else {
          var i :| 0 <= i < |lines[1..]| && f(lines[1..][i]).1 && x == TrimSpace(f(lines[1..][i]).0);
          assert lines[1..][i] == lines[i + 1];
        }
      }
    }
  }

  /** One line contributes its trimmed processed form when accepted, nothing otherwise. */
  lemma AcceptedSingle(f: DataLineFunc, line: string)
    ensures Accepted(Some(f), [line]) == if f(line).1 then {TrimSpace(f(line).0)} else {}
  {
    assert [line][0] == line;
  }

  /** Accepted lines of `[line] + rest`: those of `line`, then those of `rest`. */
  lemma AcceptedPrepend(f: DataLineFunc, line: string, rest: seq<string>)
    ensures Accepted(Some(f), [line] + rest)
         == (if f(line).1 then {TrimSpace(f(line).0)} else {}) + Accepted(Some(f), rest)
  {
    var lines := [line] + rest;
    AcceptedCons(Some(f), lines);
    assert lines[..1] == [line] && lines[1..] == rest;
    AcceptedSingle(f, line);
  }

  /** The record set after running each line through the processor and
      adding every accepted result. */
  function LoadLines(rl: RemoteList, lines: seq<string>): (r: RemoteList)
    ensures r.records == rl.records + Accepted(rl.fnDataLine, lines)
    ensures r.(records := rl.records) == rl
    decreases |lines|
  {
    if |lines| == 0 then
      rl
    else
      var next :=
        match rl.fnDataLine
        case None => rl
        case Some(f) => if f(lines[0]).1 then Add(rl, f(lines[0]).0) else rl;
      AcceptedCons(rl.fnDataLine, lines);
      LoadLines(next, lines[1..])
  }

  /** With the default line processor, the records are the trimmed lines
      that are neither empty nor comments. */
  lemma DefaultAccepted(lines: seq<string>, rec: string)
    ensures rec in Accepted(Some(DefaultDataLineProcess), lines) <==>
      exists line :: line in lines && !IsCommentOrBlank(line) && TrimSpace(line) == rec
  {
    if exists line :: line in lines && !IsCommentOrBlank(line) && TrimSpace(line) == rec {
      var line :| line in lines && !IsCommentOrBlank(line) && TrimSpace(line) == rec;
      var i :| 0 <= i < |lines| && lines[i] == line;
      assert DefaultDataLineProcess(lines[i]).1;
    }
  }

  /** When every kept line is already trimmed, the records are exactly the
      kept lines: comments and blank lines never enter the set. */
  lemma DefaultAcceptedTrimmedLines(lines: seq<string>)
    requires forall line :: line in lines && !IsCommentOrBlank(line) ==> Trimmed(line)
    ensures Accepted(Some(DefaultDataLineProcess), lines) == set line | line in lines && !IsCommentOrBlank(line)
  {
    forall rec
      ensures rec in Accepted(Some(DefaultDataLineProcess), lines) <==> rec in lines && !IsCommentOrBlank(rec)
    {
      DefaultAccepted(lines, rec);
      if rec in lines && !IsCommentOrBlank(rec) {
        TrimSpaceOfTrimmed(rec);
      }
      if exists line :: line in lines && !IsCommentOrBlank(line) && TrimSpace(line) == rec {
        var line :| line in lines && !IsCommentOrBlank(line) && TrimSpace(line) == rec;
        TrimSpaceOfTrimmed(line);
      }
    }
  }

  /** The default processor looks at the line before it is trimmed: a
      comment marker after leading white space is kept, and stored without
      that white space. */
  lemma IndentedCommentIsKept(pad: string, comment: string)
    requires |pad| > 0 && AllSpace(pad) && Trimmed(comment) && |comment| > 0 && comment[0] == '#'
    ensures Accepted(Some(DefaultDataLineProcess), [pad + comment]) == {comment}
  {
    var line := pad + comment;
    assert line[|pad|..|pad| + |comment|] == comment;
    assert line[..|pad|] == pad;
    assert line[|pad| + |comment|..] == "";
    TrimSpaceUnique(comment, line);
    assert line[0] == pad[0];
    AcceptedSingle(DefaultDataLineProcess, line);
  }

  /** A non-empty line of white space only (a lone carriage return, say)
      is kept, and adds the empty record. */
  lemma BlankLineAddsEmptyRecord(line: string)
    requires |line| > 0 && AllSpace(line)
    ensures Accepted(Some(DefaultDataLineProcess), [line]) == {""}
  {
    TrimSpaceOfBlank(line);
    AcceptedSingle(DefaultDataLineProcess, line);
  }

  /** The error of the load pass. */
  datatype LoadError = ReadLocalFailed

  /** The load pass: the cached file's content, or `None` when reading it
      failed, is split on line feeds and loaded. */
  function Init(rl: RemoteList, content: Option<string>): (r: (RemoteList, Option<LoadError>))
    ensures content.None? ==> r == (rl, Some(ReadLocalFailed))
    ensures content.Some? ==> r.1.None?
    ensures content.Some? ==> r.0.records == rl.records + Accepted(rl.fnDataLine, SplitLines(content.value))
    ensures r.0.(records := rl.records) == rl
  {
    match content
    case None => (rl, Some(ReadLocalFailed))
    case Some(text) => (LoadLines(rl, SplitLines(text)), None)
  }

  // ---------------------------------------------------------------------
  // Construction
  // ---------------------------------------------------------------------

  /** The world construction runs against: the cached file (if any), what a
      GET would return, whether writing the file succeeds, and whether
      reading it back succeeds. */
  datatype Environment = Environment(file: Option<LocalFile>, fetch: Fetch, writeOk: bool, readOk: bool)

  /** A failed download yields no list; otherwise the list is returned
      together with the error of the load pass, if any. */
  datatype Construction =
    | Failed(err: DownloadError)
    | Built(list: RemoteList, loadErr: Option<LoadError>)

  /** Construction: absent strategies are replaced by the defaults (all but
      the payload filter, whose absence means "unchanged"), the cache is
      refreshed, then the cached file is loaded into an empty record set. */
  function New(fileLocal: string, fileRemote: string, maxAge: int,
               fnHas: Option<HasFunc>, fnHasPrefix: Option<HasFunc>, fnHasSuffix: Option<HasFunc>,
               fnSearch: Option<SearchFunc>, fnDataFilter: Option<DataFilterFunc>,
               fnDataLine: Option<DataLineFunc>, env: Environment): (c: Construction)
    ensures c.Failed? <==> Refresh(env.file, maxAge, env.fetch, fnDataFilter, env.writeOk).Failure?
    ensures c.Failed? ==> c.err == Refresh(env.file, maxAge, env.fetch, fnDataFilter, env.writeOk).error
    // the defaults replace absent strategies, the filter stays as given
    ensures c.Built? ==>
      && c.list.fnHas == fnHas.GetOr(DefaultHas)
      && c.list.fnHasPrefix == fnHasPrefix.GetOr(DefaultHasPrefix)
      && c.list.fnHasSuffix == fnHasSuffix.GetOr(DefaultHasSuffix)
      && c.list.fnSearch == fnSearch.GetOr(DefaultSearch)
      && c.list.fnDataFilter == fnDataFilter
      && c.list.fnDataLine == Some(fnDataLine.GetOr(DefaultDataLineProcess))
      && c.list.maxAge == maxAge && c.list.fileLocal == fileLocal && c.list.fileRemote == fileRemote
    // the records are exactly the accepted lines of the refreshed file
    ensures c.Built? && env.readOk ==>
      && c.loadErr.None?
      && c.list.records ==
         Accepted(c.list.fnDataLine, SplitLines(Refresh(env.file, maxAge, env.fetch, fnDataFilter, env.writeOk).value.content))
    // a failed read still returns the list, empty, with the error
    ensures c.Built? && !env.readOk ==> c.loadErr == Some(ReadLocalFailed) && c.list.records == {}
  {
    var rl := RemoteList(
      fnSearch.GetOr(DefaultSearch),
      fnHas.GetOr(DefaultHas),
      fnHasPrefix.GetOr(DefaultHasPrefix),
      fnHasSuffix.GetOr(DefaultHasSuffix),
      fnDataFilter,
      Some(fnDataLine.GetOr(DefaultDataLineProcess)),
      maxAge, fileLocal, fileRemote, {});
    match Refresh(env.file, maxAge, env.fetch, fnDataFilter, env.writeOk)
    case Failure(err) => Failed(err)
    case Success(cached) =>
      var (loaded, loadErr) := Init(rl, if env.readOk then Some(cached.content) else None);
      Built(loaded, loadErr)
  }

  /** Construction with every strategy left to its default. */
  function NewSimple(fileLocal: string, fileRemote: string, maxAge: int, env: Environment): (c: Construction)
    ensures c == New(fileLocal, fileRemote, maxAge, None, None, None, None, None, None, env)
  {
    New(fileLocal, fileRemote, maxAge, None, None, None, None, None, None, env)
  }

  // ---------------------------------------------------------------------
  // What construction guarantees
  // ---------------------------------------------------------------------

  /** A list built with the defaults answers `Has` case-insensitively and
      `Search` with the sorted case-insensitive substring matches; its
      prefix and suffix strategies are the case-insensitive defaults. */
  lemma NewSimpleQueries(fileLocal: string, fileRemote: string, maxAge: int, env: Environment, term: string)
    requires NewSimple(fileLocal, fileRemote, maxAge, env).Built?
    ensures var rl := NewSimple(fileLocal, fileRemote, maxAge, env).list;
      && (Has(rl, term) <==> exists rec :: rec in rl.records && ToLower(rec) == ToLower(term))
      && StrictlySorted(Search(rl, term))
      && (forall rec :: rec in Search(rl, term) <==> rec in rl.records && IsInfix(ToLower(term), ToLower(rec)))
      && (rl.fnHasPrefix(rl.records, term) <==> exists rec :: rec in rl.records && ToLower(term) <= ToLower(rec))
      && (rl.fnHasSuffix(rl.records, term) <==> exists rec :: rec in rl.records && IsSuffix(ToLower(term), ToLower(rec)))
  {
  }

  /** A list built with the defaults holds exactly the trimmed lines of the
      refreshed file that are neither empty nor comments. */
  lemma NewSimpleRecords(fileLocal: string, fileRemote: string, maxAge: int, env: Environment, rec: string)
    requires Refresh(env.file, maxAge, env.fetch, None, env.writeOk).Success? && env.readOk
    ensures NewSimple(fileLocal, fileRemote, maxAge, env).Built?
    ensures var content := Refresh(env.file, maxAge, env.fetch, None, env.writeOk).value.content;
      rec in NewSimple(fileLocal, fileRemote, maxAge, env).list.records <==>
      exists line :: line in SplitLines(content) && !IsCommentOrBlank(line) && TrimSpace(line) == rec
  {
    var content := Refresh(env.file, maxAge, env.fetch, None, env.writeOk).value.content;
    DefaultAccepted(SplitLines(content), rec);
  }

  /** A fresh cached file is loaded as it is, whatever the request would have returned. */
  lemma NewUsesFreshCache(fileLocal: string, fileRemote: string, maxAge: int,
                          fnHas: Option<HasFunc>, fnHasPrefix: Option<HasFunc>, fnHasSuffix: Option<HasFunc>,
                          fnSearch: Option<SearchFunc>, fnDataFilter: Option<DataFilterFunc>,
                          fnDataLine: Option<DataLineFunc>, env: Environment)
    requires !NeedsDownload(env.file, maxAge) && env.readOk
    ensures var c := New(fileLocal, fileRemote, maxAge, fnHas, fnHasPrefix, fnHasSuffix, fnSearch, fnDataFilter, fnDataLine, env);
      && c.Built? && c.loadErr.None?
      && c.list.records == Accepted(Some(fnDataLine.GetOr(DefaultDataLineProcess)), SplitLines(env.file.value.content))
  {
  }

  /** A stale or missing cache whose request is answered with a status other
      than 200 yields no list, and the error carries the status. */
  lemma NewFailsOnBadStatus(fileLocal: string, fileRemote: string, maxAge: int,
                            fnHas: Option<HasFunc>, fnHasPrefix: Option<HasFunc>, fnHasSuffix: Option<HasFunc>,
                            fnSearch: Option<SearchFunc>, fnDataFilter: Option<DataFilterFunc>,
                            fnDataLine: Option<DataLineFunc>, env: Environment)
    requires NeedsDownload(env.file, maxAge) && env.fetch.Responded? && env.fetch.status != StatusOK
    ensures New(fileLocal, fileRemote, maxAge, fnHas, fnHasPrefix, fnHasSuffix, fnSearch, fnDataFilter, fnDataLine, env)
      == Failed(BadStatus(env.fetch.status))
  {
  }
}
