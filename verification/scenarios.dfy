/** Concrete cases of the behaviour the other modules state in general. */
module Scenarios {
  import opened Wrappers
  import opened GoStrings
  import opened StringOrder
  import opened Matchers
  import opened Cache
  import opened Store

  /** The kept lines of the example file, and that none of them is padded. */
  lemma ExampleKeptLinesAreTrimmed(lines: seq<string>)
    // literals enter as parameters, which keeps the verifier from unfolding them in every clause
    requires lines == ["# comment", "", "1.2.3.4", "// note", "5.6.7.8"]
    ensures forall line :: line in lines && !IsCommentOrBlank(line) ==> Trimmed(line)
    ensures (set line | line in lines && !IsCommentOrBlank(line)) == {"1.2.3.4", "5.6.7.8"}
  {
  }

  /** Comments and blank lines are dropped by the default line processor;
      the lines are the pieces of the file they are joined into. */
  lemma DefaultFilterDropsComments(lines: seq<string>)
    // literals enter as parameters, which keeps the verifier from unfolding them in every clause
    requires lines == ["# comment", "", "1.2.3.4", "// note", "5.6.7.8"]
    ensures SplitLines(JoinLines(lines)) == lines
    ensures Accepted(Some(DefaultDataLineProcess), lines) == {"1.2.3.4", "5.6.7.8"}
  {
    SplitJoin(lines);
    ExampleKeptLinesAreTrimmed(lines);
    DefaultAcceptedTrimmedLines(lines);
  }

  /** The line processor runs before trimming: a comment marker after
      leading blanks is kept and stored as `# x`, and a lone carriage return
      (what a CRLF file leaves behind) is kept and stored as the empty record. */
  lemma ProcessorRunsBeforeTrim(pad: string, comment: string, cr: string)
    // literals enter as parameters, which keeps the verifier from unfolding them in every clause
    requires pad == "  " && comment == "# x" && cr == "\r"
    ensures DefaultDataLineProcess(pad + comment) == (pad + comment, true)
    ensures Accepted(Some(DefaultDataLineProcess), [pad + comment]) == {comment}
    ensures DefaultDataLineProcess(cr) == (cr, true)
    ensures Accepted(Some(DefaultDataLineProcess), [cr]) == {""}
  {
    assert AllSpace(pad) by {
      assert forall k :: 0 <= k < |pad| ==> pad[k] == ' ';
    }
    assert (pad + comment)[0] == ' ';
    IndentedCommentIsKept(pad, comment);
    BlankLineAddsEmptyRecord(cr);
  }

  /** Matching ignores case and returns records in their stored casing. */
  lemma CaseInsensitiveQueries(rec: string, exact: string, upper: string, fragment: string)
    // literals enter as parameters, which keeps the verifier from unfolding them in every clause
    requires rec == "Example.com" && exact == "example.com" && upper == "EXAM" && fragment == "example"
    ensures DefaultHas({rec}, exact)
    ensures DefaultSearch({rec}, upper) == [rec]
    ensures !DefaultHas({rec}, fragment)
  {
    assert ToLower(rec) == ToLower(exact);
    assert |ToLower(rec)| != |ToLower(fragment)|;
    assert OccursAt(ToLower(upper), ToLower(rec), 0);
    var m := DefaultSearch({rec}, upper);
    assert rec in m;
    assert m == [m[0]];
  }

  /** `Add` trims its value but `Has` does not trim its term: a padded term
      misses the record it was stored as. */
  lemma HasDoesNotTrimTerm()
    ensures DefaultHas({"a"}, "a")
    ensures !DefaultHas({"a"}, " a ")
  {
    assert ToLower("a") == "a";
    assert |ToLower(" a ")| == 3;
  }

  /** Results come back in ascending order whatever order the records were added in. */
  lemma ListIsSorted()
    ensures SortedSet({"b", "a", "c"}) == ["a", "b", "c"]
  {
    var r := ["a", "b", "c"];
    assert Less("a", "b") && Less("b", "c") && Less("a", "c");
    assert StrictlySorted(r);
    StrictlySortedUnique(SortedSet({"b", "a", "c"}), r);
  }

  /** Of the lines `a`, `# b` and the empty last line of a file ending in a
      line feed, only `a` is kept. */
  lemma FirstRunLines(lines: seq<string>)
    // literals enter as parameters, which keeps the verifier from unfolding them in every clause
    requires lines == ["a", "# b", ""]
    ensures Accepted(Some(DefaultDataLineProcess), lines) == {"a"}
  {
    FirstRunKeptLines(lines);
    DefaultAcceptedTrimmedLines(lines);
  }

  /** The kept lines of the first-run file, and that none of them is padded. */
  lemma FirstRunKeptLines(lines: seq<string>)
    // literals enter as parameters, which keeps the verifier from unfolding them in every clause
    requires lines == ["a", "# b", ""]
    ensures forall line :: line in lines && !IsCommentOrBlank(line) ==> Trimmed(line)
    ensures (set line | line in lines && !IsCommentOrBlank(line)) == {"a"}
  {
  }

  /** A missing file is fetched and written with permission 0644, and the
      records come from the written payload. */
  lemma FirstRunDownloads(lines: seq<string>, env: Environment)
    // literals enter as parameters, which keeps the verifier from unfolding them in every clause
    requires lines == ["a", "# b", ""]
    requires env == Environment(None, Responded(StatusOK, Some(JoinLines(lines))), true, true)
    ensures Download(env.file, 3600, env.fetch, None, env.writeOk) == Outcome(Some(Write(JoinLines(lines), DefaultPerm)), None)
    ensures NewSimple("list.txt", "remote", 3600, env).Built?
    ensures NewSimple("list.txt", "remote", 3600, env).loadErr.None?
    ensures NewSimple("list.txt", "remote", 3600, env).list.records == {"a"}
  {
    var refreshed := Refresh(env.file, 3600, env.fetch, None, env.writeOk);
    assert refreshed.Success? && refreshed.value.content == JoinLines(lines);
    SplitJoin(lines);
    FirstRunLines(lines);
  }
}
