# remotelist in Dafny

`remotelist` keeps an in-memory set of text records that mirrors a list
published at a remote URL. The list is cached in a local file. On
construction, the cache is refreshed when it is missing or older than a
maximum age: the list is fetched with a GET, optionally filtered, and
written back with the old file's permission bits (0644 for a new file).
The cached file is then split into lines. Each line goes through a line
processor that may rewrite it or drop it, and every kept line is trimmed
and added to the record set. After that the list answers `Has`, `Search`
and `List` queries and accepts `Add`. Matching, searching and line
processing are pluggable strategies with case-insensitive defaults.

The model has six modules:

- `Wrappers`: `Option` and `Result`.
- `GoStrings`: the parts of Go's `strings` package the list uses, on ASCII
  text. These are `ToLower`, `EqualFold`, `TrimSpace`, `HasPrefix`,
  `HasSuffix`, `Contains` and `Split` on line feeds.
- `StringOrder`: the byte order of `sort.Strings`, insertion sort, and the
  ascending enumeration of a set.
- `Matchers`: the strategy types and their default implementations.
- `Cache`: the download pass.
- `Store`: the list, its operations, the load pass and construction.

Each operation on a list is a pure function from the old list to the new
one. The file system, the HTTP request and the clock are inputs to the
model. The cached file is an optional `LocalFile` whose `age` stands for
`time.Since` of its modification time. The response is a `Fetch` value.
Whether the write and the later read succeed are two flags. The write
itself is returned as a `Write` value.

Behaviour worth knowing:

- A failed read of the local file does not abort construction. `New`
  returns the list, with an empty record set, together with the load
  error (main.go:250). `Store.New` says so: `Built(list, Some(ReadLocalFailed))`.
- Only status 200 is accepted. Every other status, 204 and 206 included,
  is an error (main.go:153).
- Comment detection runs on the raw line, before trimming
  (main.go:193-194). An indented `# x` is therefore kept and stored as
  `# x`, and a lone `\r` (the tail of a CRLF file) is kept and stored as
  the empty record.
- `Has` does not trim its term, while `Add` trims its value. A record
  stored from `" a "` is not found by `Has(" a ")`.

## Model

| member | source | states |
|---|---|---|
| GoStrings.ToLower | main.go:34 | the result has the input's length, maps every character through ASCII lower-casing, and contains no upper-case letter |
| GoStrings.ToLowerIdempotent | main.go:54-56 | lower-casing twice is lower-casing once |
| GoStrings.EqualFold | main.go:56 | strings equal under ASCII case folding have the same length; `GoStrings.EqualFoldIffLowerEqual` characterises it fully |
| GoStrings.EqualFoldIffLowerEqual | main.go:56 | two strings are equal under case folding exactly when their lower-case forms are equal |
| GoStrings.TrimSpace | main.go:119 | the result has no leading or trailing white space, and the input is the result padded on both sides with white space only |
| GoStrings.TrimSpaceUnique | main.go:119 | any unpadded string that the input pads with white space is the trim of the input, so the trimmed form is unique |
| GoStrings.TrimSpaceOfTrimmed | main.go:119 | a string with no leading or trailing white space is its own trim |
| GoStrings.TrimSpaceIdempotent | main.go:119 | trimming twice is trimming once |
| GoStrings.TrimSpaceOfBlank | main.go:119 | a string of white space only trims to the empty string |
| GoStrings.HasPrefix | main.go:49 | true exactly when the prefix is a leading part of the string |
| GoStrings.HasSuffix | main.go:78 | true exactly when the suffix is a trailing part of the string |
| GoStrings.Contains | main.go:37 | true exactly when the string contains the substring at some position |
| GoStrings.SplitLines | main.go:191 | at least one piece, no piece contains a line feed, and joining the pieces with line feeds gives back the input |
| GoStrings.SplitJoin | main.go:191 | splitting a join of line-feed-free pieces gives back the pieces, so split and join are inverse |
| StringOrder.Less | main.go:41 | the byte order of `sort.Strings`: a string is never below itself; the lemmas below make it a strict total order |
| StringOrder.PrefixIsLess | main.go:41 | a proper prefix comes before the whole string |
| StringOrder.LessIrreflexive | main.go:41 | no string is below itself in byte order |
| StringOrder.LessAsymmetric | main.go:41 | the byte order is asymmetric |
| StringOrder.LessTransitive | main.go:41 | the byte order is transitive |
| StringOrder.LessTotal | main.go:41 | any two different strings are ordered one way or the other |
| StringOrder.LeastExists | main.go:131 | every non-empty set of strings has a least element |
| StringOrder.SortedSet | main.go:128-131 | the set's elements, each once, in strictly ascending order |
| StringOrder.StrictlySortedUnique | main.go:131 | two strictly ascending sequences with the same elements are equal |
| StringOrder.Insert | main.go:131 | inserting into an ascending sequence keeps it ascending, adds exactly the one element to the multiset, and keeps strictness for a new element |
| StringOrder.SortStrings | main.go:131 | the result is ascending and a permutation of the input; a repeat-free input gives a strictly ascending result |
| StringOrder.SortEnumeration | main.go:128-131 | sorting a repeat-free enumeration of a set in any order gives the set's ascending enumeration |
| Matchers.DefaultSearch | main.go:33-43 | the matches are exactly the records whose lower-case form contains the lower-cased term, strictly ascending, at most one per record |
| Matchers.DefaultDataLineProcess | main.go:48-50 | the line is returned unchanged, and it is kept exactly when it is non-empty and starts with neither `#` nor `//` |
| Matchers.DefaultHas | main.go:53-61 | true exactly when some record equals the term ignoring case |
| Matchers.DefaultHasPrefix | main.go:64-72 | true exactly when some lower-cased record starts with the lower-cased term |
| Matchers.DefaultHasSuffix | main.go:75-83 | true exactly when some lower-cased record ends with the lower-cased term |
| Matchers.SearchEmptyTermListsAll | main.go:33-43 | searching for the empty term returns every record in ascending order |
| Matchers.SearchIgnoresTermCase | main.go:33-43 | the search term's letter case does not change the result |
| Matchers.HasImpliesSearchHit | main.go:33-61 | a record found by the exact match is also among the search results |
| Matchers.HasImpliesPrefixAndSuffix | main.go:53-83 | an exact match is also a prefix match and a suffix match |
| Matchers.PrefixOrSuffixHitIsSearchHit | main.go:33-83 | a prefix or suffix match means the search returns at least one record |
| Cache.NeedsDownload | main.go:138-143 | a download is needed exactly when the file is absent or at least `maxAge` old |
| Cache.NeedsDownloadIff | main.go:138-143 | the staleness gate in both directions: a present file younger than the maximum age is kept, anything else is refetched |
| Cache.Permissions | main.go:164-167 | only permission bits are set; an existing file contributes its own permission bits, a new file gets 0644 |
| Cache.Filtered | main.go:169-173 | the payload is unchanged without a filter and is the filter's output with one |
| Cache.Download | main.go:136-180 | a fresh file means no fetch, write or error; a write happens only after status 200 with a readable body, and writes the filtered payload with the chosen permissions; transport, status, read and write failures each give their own error; success means fresh or written |
| Cache.FreshCacheIgnoresFetch | main.go:141-146 | with a fresh file, the pass does not depend on the response or on whether a write would succeed |
| Cache.Refresh | main.go:136-180 | the pass fails exactly when the download reports an error, with that error; on success the file is the old one when fresh, or holds the filtered payload, with age 0, when stale; an existing file keeps its mode and a created one gets 0644 |
| Cache.RefreshPermissionBits | main.go:164-173 | after a successful pass, the file's permission bits are those the write was issued with: preserved on overwrite, 0644 on creation |
| Cache.BadStatusWritesNothing | main.go:153-155 | a status other than 200 writes nothing and reports that status |
| Store.Has | main.go:102-106 | the answer is the configured exact matcher's answer over the current records; with the default matcher, true exactly when some record equals the term, untrimmed, ignoring case |
| Store.Search | main.go:109-113 | the result is the configured search strategy's result over the current records; with the default strategy, exactly the records whose lower-case form contains the lower-cased term, strictly ascending |
| Store.Add | main.go:116-121 | the trimmed value is a record afterwards, no other record appears or disappears, the configuration is unchanged, and an already trimmed value is stored as it is |
| Store.AddIdempotent | main.go:116-121 | adding the same value twice is the same as adding it once |
| Store.AddCommutes | main.go:116-121 | two additions commute |
| Store.AddCardinality | main.go:116-121 | the record count grows by one exactly when the trimmed value is new, and otherwise stays the same |
| Store.AddThenFind | main.go:102-121 | with the default matchers, an added value is found by `Has` and returned by `Search` for any term equal to its trimmed form ignoring case |
| Store.List | main.go:124-133 | every record exactly once, in strictly ascending order, and equal to the set's ascending enumeration whatever order the set yields its elements in |
| Store.AcceptedCons | main.go:191-197 | the records from a sequence of lines are those from the first line plus those from the rest |
| Store.AcceptedSingle | main.go:192-195 | one line contributes its trimmed processed form when the processor keeps it, and nothing otherwise |
| Store.AcceptedPrepend | main.go:191-197 | the records from a line followed by more lines are the line's contribution plus that of the rest |
| Store.LoadLines | main.go:191-197 | loading adds exactly the trimmed processed forms of the kept lines to the records and changes nothing else |
| Store.DefaultAccepted | main.go:48-50 | under the default processor, a record comes from the lines exactly when some non-empty, non-comment line trims to it |
| Store.DefaultAcceptedTrimmedLines | main.go:191-197 | when the kept lines are already trimmed, the records are exactly the non-empty, non-comment lines |
| Store.IndentedCommentIsKept | main.go:193-194 | a `#` comment after leading white space is kept, and stored without that white space |
| Store.BlankLineAddsEmptyRecord | main.go:193-194 | a non-empty line of white space only is kept and adds the empty record |
| Store.Init | main.go:183-200 | an unreadable file leaves the list unchanged and reports the load error; a readable one reports no error and adds the kept lines of its line-feed split |
| Store.New | main.go:203-251 | construction fails exactly when the refresh fails, with its error; absent strategies are replaced by the defaults, the filter is kept as given; on a successful read the records are the kept lines of the refreshed file; a failed read still returns the list, empty, with the load error |
| Store.NewSimple | main.go:253-255 | the same construction as `Store.New` with every strategy absent |
| Store.NewSimpleQueries | main.go:227-239 | a list built with the defaults answers `Has` case-insensitively, `Search` with the ascending case-insensitive substring matches, and prefix and suffix queries case-insensitively |
| Store.NewSimpleRecords | main.go:241-250 | when the refresh and the read succeed, construction with the defaults builds a list that holds exactly the trimmed lines of the refreshed file that are neither empty nor comments |
| Store.NewUsesFreshCache | main.go:141-146 | a fresh cached file is loaded as it is, whatever the request would return |
| Store.NewFailsOnBadStatus | main.go:153-155 | a stale or missing cache answered with a status other than 200 yields no list, and the error carries the status |
| Scenarios.DefaultFilterDropsComments | main.go:48-50 | for a file with a `#` comment, an empty line, a `//` note and two addresses, the records are the two addresses |
| Scenarios.ProcessorRunsBeforeTrim | main.go:193-194 | `"  # x"` is kept and stored as `# x`; `"\r"` is kept and stored as the empty record |
| Scenarios.CaseInsensitiveQueries | main.go:53-61 | `Has` finds `Example.com` for `example.com`, `Search` finds it for `EXAM`, and `Has` does not find it for the fragment `example` |
| Scenarios.HasDoesNotTrimTerm | main.go:53-61 | the record `a` is found for `a` but not for ` a ` |
| Scenarios.ListIsSorted | main.go:124-133 | the records `b`, `a`, `c` are listed as `a`, `b`, `c` |
| Scenarios.FirstRunDownloads | main.go:164-167 | with no cached file and a 200 response, the payload is written with 0644 and loaded, dropping the comment and the empty last line |

## Left out

- The network, the file system and the clock are inputs. `os.Stat`, `http.Get`, `io.ReadAll`, `os.WriteFile` and `os.ReadFile` are not modelled; only the decisions made on their results are.
- The mutex is left out. Every operation is one atomic step on an immutable value, and that is the guarantee the lock gives.
- Error messages are reduced to the error's kind and, for transport failures and bad statuses, its cause. The `fmt.Errorf` text is left out.
- Case mapping and white space cover ASCII only. Go's Unicode case mapping (`strings.ToLower` on non-ASCII letters, the special foldings of `strings.EqualFold`) and the non-ASCII white space of `strings.TrimSpace` (every character `unicode.IsSpace` accepts above U+007F: U+0085, U+00A0, U+1680, U+2000 to U+200A, U+2028, U+2029, U+202F, U+205F and U+3000) are left out.
- Strings are sequences of code points. Go strings are byte strings that may hold invalid UTF-8; that case is left out. On valid UTF-8, Go's byte order is the code point order `StringOrder.Less` uses.
- The process umask is left out. A newly created file's permission is modelled as exactly 0644.
- `maxAge` is an unbounded integer. The overflow of `time.Duration` (an int64 count of nanoseconds) is left out.
- A custom matcher or search strategy is an arbitrary function. For one, `Store.Has` and `Store.Search` promise only that its answer is passed on.
- No list operation calls the prefix and suffix strategies (main.go:90-91). The model stores them and states their defaults, and nothing more.
- The nil check on the line processor in the load pass (main.go:192) is modelled as an `Option`. Construction always fills it in, so the `None` branch is only reachable through `Store.Init` or `Store.LoadLines` called directly.
- `Store.List` collects the records in an arbitrary order. Go's randomised map iteration order becomes a nondeterministic choice.
