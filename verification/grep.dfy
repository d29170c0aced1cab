/**
 The two line filters of minigrep's library (`search` and
 `search_case_insensitive` in src/lib.rs). Both walk the lines of the
 contents in order and keep a line when it contains the query; the
 case-insensitive one compares lowercased copies but returns the original
 line. Both are modelled by one filter, `Select`, parameterised by a `Mode`.
 */
module Grep {
  import opened Text
  import opened LineSplit

  datatype Mode = CaseSensitive | CaseInsensitive

  /** The test the loop body applies to one line. A line that contains the
      query passes in either mode, and the empty query passes every line. */
  function Hit(mode: Mode, line: string, query: string): (h: bool)
    ensures Contains(line, query) ==> h
    ensures query == [] ==> h
  {
    match mode
    case CaseSensitive => Contains(line, query)
    case CaseInsensitive =>
      assert Contains(line, query) ==> Contains(Lower(line), Lower(query)) by {
        if Contains(line, query) {
          ContainsLower(line, query);
        }
      }
      Contains(Lower(line), Lower(query))
  }

  /** `r` holds exactly the lines of `lines` that pass the test, each as often
      as it occurs there, and no other line. */
  ghost predicate SameHits(mode: Mode, query: string, r: seq<string>, lines: seq<string>) {
    forall l :: multiset(r)[l] == if Hit(mode, l, query) then multiset(lines)[l] else 0
  }

  /** Filter `lines` by the test of `mode`, keeping the original order. */
  function Select(mode: Mode, query: string, lines: seq<string>): (r: seq<string>)
    ensures |r| <= |lines|
    decreases |lines|
  {
    if lines == [] then []
    else if Hit(mode, lines[0], query) then [lines[0]] + Select(mode, query, lines[1..])
    else Select(mode, query, lines[1..])
  }

  /** The filter keeps the order of the lines, and every line it keeps
      passes the test. */
  lemma {:induction false} SelectSound(mode: Mode, query: string, lines: seq<string>)
    ensures Subseq(Select(mode, query, lines), lines)
    ensures forall k :: 0 <= k < |Select(mode, query, lines)| ==> Hit(mode, Select(mode, query, lines)[k], query)
    decreases |lines|
  {
    if lines != [] {
      var rest := Select(mode, query, lines[1..]);
      SelectSound(mode, query, lines[1..]);
      if Hit(mode, lines[0], query) {
        assert ([lines[0]] + rest)[1..] == rest;
      } else {
        SubseqCons(rest, lines[0], lines[1..]);
      }
    }
  }

  /** The filter keeps every line that passes the test as often as it
      occurs, and no other line. */
  lemma {:induction false} SelectCounts(mode: Mode, query: string, lines: seq<string>)
    ensures SameHits(mode, query, Select(mode, query, lines), lines)
    decreases |lines|
  {
    if lines != [] {
      assert lines == [lines[0]] + lines[1..];
      SelectCounts(mode, query, lines[1..]);
    }
  }

  /** `search`: the lines of `contents` that contain `query`, in order and
      with their multiplicity. */
  function Search(query: string, contents: string): (r: seq<string>)
    ensures Subseq(r, Lines(contents))
    ensures forall k :: 0 <= k < |r| ==> Contains(r[k], query)
    ensures forall l :: multiset(r)[l] == if Contains(l, query) then multiset(Lines(contents))[l] else 0
  {
    SelectSound(CaseSensitive, query, Lines(contents));
    SelectCounts(CaseSensitive, query, Lines(contents));
    Select(CaseSensitive, query, Lines(contents))
  }

  /** `search_case_insensitive`: the lines of `contents` whose lowercase form
      contains the lowercase query. The lines returned are the original ones,
      not their lowercase copies. */
  function SearchCaseInsensitive(query: string, contents: string): (r: seq<string>)
    ensures Subseq(r, Lines(contents))
    ensures forall k :: 0 <= k < |r| ==> Contains(Lower(r[k]), Lower(query))
    ensures forall l :: multiset(r)[l] == if Contains(Lower(l), Lower(query)) then multiset(Lines(contents))[l] else 0
  {
    SelectSound(CaseInsensitive, query, Lines(contents));
    SelectCounts(CaseInsensitive, query, Lines(contents));
    Select(CaseInsensitive, query, Lines(contents))
  }

  /** The filter decides on the first line and goes on with the rest. */
  lemma SelectCons(mode: Mode, query: string, x: string, rest: seq<string>)
    ensures Select(mode, query, [x] + rest)
         == (if Hit(mode, x, query) then [x] else []) + Select(mode, query, rest)
  {
    assert ([x] + rest)[1..] == rest;
  }

  /** Appending one line to the input appends it to the output when it
      passes the test. */
  lemma {:induction false} SelectSnoc(mode: Mode, query: string, lines: seq<string>, x: string)
    ensures Select(mode, query, lines + [x])
         == Select(mode, query, lines) + (if Hit(mode, x, query) then [x] else [])
    decreases |lines|
  {
    if lines == [] {
      assert [x][1..] == [];
    } else {
      assert (lines + [x])[1..] == lines[1..] + [x];
      SelectSnoc(mode, query, lines[1..], x);
    }
  }

  /** The specification pins the result down: a subsequence of the lines
      with the right multiplicities is the filter and nothing else. */
  lemma {:induction false} SelectUnique(mode: Mode, query: string, lines: seq<string>, r: seq<string>)
    requires Subseq(r, lines)
    requires SameHits(mode, query, r, lines)
    ensures r == Select(mode, query, lines)
    decreases |lines|
  {
    if lines == [] {
      assert r == [];
    } else {
      var x, rest := lines[0], lines[1..];
      assert lines == [x] + rest;
      if Hit(mode, x, query) {
        assert multiset(r)[x] == multiset(rest)[x] + 1;
        if !(r != [] && r[0] == x && Subseq(r[1..], rest)) {
          assert Subseq(r, rest);
          SubseqMultiset(r, rest);
          assert false;
        }
        assert r == [x] + r[1..];
        forall l ensures multiset(r[1..])[l] == if Hit(mode, l, query) then multiset(rest)[l] else 0 {
          assert multiset(r)[l] == multiset(r[1..])[l] + (if l == x then 1 else 0);
        }
        SelectUnique(mode, query, rest, r[1..]);
      } else {
        if r != [] && r[0] == x {
          assert false;
        }
        assert Subseq(r, rest);
        forall l ensures multiset(r)[l] == if Hit(mode, l, query) then multiset(rest)[l] else 0 {
          if Hit(mode, l, query) {
            assert l != x;
          }
        }
        SelectUnique(mode, query, rest, r);
      }
    }
  }

  /** `search` is exactly characterised by its contract: a sequence is the
      result if and only if it is an in-order selection of the lines holding
      each matching line as often as the contents do, and no other line. */
  lemma {:induction false} SearchCharacterised(query: string, contents: string, r: seq<string>)
    ensures r == Search(query, contents)
        <==> Subseq(r, Lines(contents)) && SameHits(CaseSensitive, query, r, Lines(contents))
  {
    if Subseq(r, Lines(contents)) && SameHits(CaseSensitive, query, r, Lines(contents)) {
      SelectUnique(CaseSensitive, query, Lines(contents), r);
    }
  }

  /** The same characterisation for `search_case_insensitive`. */
  lemma {:induction false} SearchCaseInsensitiveCharacterised(query: string, contents: string, r: seq<string>)
    ensures r == SearchCaseInsensitive(query, contents)
        <==> Subseq(r, Lines(contents)) && SameHits(CaseInsensitive, query, r, Lines(contents))
  {
    if Subseq(r, Lines(contents)) && SameHits(CaseInsensitive, query, r, Lines(contents)) {
      SelectUnique(CaseInsensitive, query, Lines(contents), r);
    }
  }

  /** The `for` loop of `search`, pushing each matching line. */
  method SearchLoop(query: string, contents: string) returns (results: seq<string>)
    ensures results == Search(query, contents)
  {
    var lines := Lines(contents);
    results := [];
    for i := 0 to |lines|
      invariant results == Select(CaseSensitive, query, lines[..i])
    {
      SelectSnoc(CaseSensitive, query, lines[..i], lines[i]);
      assert lines[..i + 1] == lines[..i] + [lines[i]];
      if Contains(lines[i], query) {
        results := results + [lines[i]];
      }
    }
    assert lines[..|lines|] == lines;
  }

  /** The `for` loop of `search_case_insensitive`: the query is lowercased
      once before the loop, each line inside it. */
  method SearchCaseInsensitiveLoop(query: string, contents: string) returns (results: seq<string>)
    ensures results == SearchCaseInsensitive(query, contents)
  {
    var q := Lower(query);
    var lines := Lines(contents);
    results := [];
    for i := 0 to |lines|
      invariant results == Select(CaseInsensitive, query, lines[..i])
    {
      SelectSnoc(CaseInsensitive, query, lines[..i], lines[i]);
      assert lines[..i + 1] == lines[..i] + [lines[i]];
      if Contains(Lower(lines[i]), q) {
        results := results + [lines[i]];
      }
    }
    assert lines[..|lines|] == lines;
  }

  /** A filter that every line passes returns the lines unchanged. */
  lemma {:induction false} SelectAll(mode: Mode, query: string, lines: seq<string>)
    requires forall k :: 0 <= k < |lines| ==> Hit(mode, lines[k], query)
    ensures Select(mode, query, lines) == lines
    decreases |lines|
  {
    if lines != [] {
      SelectAll(mode, query, lines[1..]);
    }
  }

  /** An empty query matches every line, in both modes. */
  lemma {:induction false} EmptyQueryKeepsAll(contents: string)
    ensures Search([], contents) == Lines(contents)
    ensures SearchCaseInsensitive([], contents) == Lines(contents)
  {
    var lines := Lines(contents);
    SelectAll(CaseSensitive, [], lines);
    assert Lower([]) == [];
    SelectAll(CaseInsensitive, [], lines);
  }

  /** Empty contents have no lines, so nothing is returned whatever the query. */
  lemma EmptyContents(query: string)
    ensures Search(query, []) == []
    ensures SearchCaseInsensitive(query, []) == []
  {
  }

  /** A filter with a weaker test keeps a subsequence of what a filter with a
      stronger one keeps. */
  lemma {:induction false} SelectMonotone(m1: Mode, m2: Mode, query: string, lines: seq<string>)
    requires forall k :: 0 <= k < |lines| && Hit(m1, lines[k], query) ==> Hit(m2, lines[k], query)
    ensures Subseq(Select(m1, query, lines), Select(m2, query, lines))
    decreases |lines|
  {
    if lines != [] {
      var x := lines[0];
      SelectMonotone(m1, m2, query, lines[1..]);
      var r1, r2 := Select(m1, query, lines[1..]), Select(m2, query, lines[1..]);
      if Hit(m1, x, query) {
        assert ([x] + r1)[1..] == r1 && ([x] + r2)[1..] == r2;
      } else if Hit(m2, x, query) {
        SubseqCons(r1, x, r2);
      }
    }
  }

  /** Every line `search` returns is also returned by
      `search_case_insensitive`, in the same relative order. */
  lemma SensitiveWithinInsensitive(query: string, contents: string)
    ensures Subseq(Search(query, contents), SearchCaseInsensitive(query, contents))
  {
    SelectMonotone(CaseSensitive, CaseInsensitive, query, Lines(contents));
  }

  /** When the query and every line are already lowercase, the two searches
      agree. */
  lemma {:induction false} LowercaseInputsAgree(query: string, contents: string)
    requires NoUpper(query)
    requires forall k :: 0 <= k < |Lines(contents)| ==> NoUpper(Lines(contents)[k])
    ensures Search(query, contents) == SearchCaseInsensitive(query, contents)
  {
    var lines := Lines(contents);
    SensitiveWithinInsensitive(query, contents);
    forall k | 0 <= k < |lines| && Hit(CaseInsensitive, lines[k], query)
      ensures Hit(CaseSensitive, lines[k], query)
    {
      LowerNoUpper(query);
      LowerNoUpper(lines[k]);
    }
    SelectMonotone(CaseInsensitive, CaseSensitive, query, lines);
    SubseqAntisymmetric(Search(query, contents), SearchCaseInsensitive(query, contents));
  }

  /** Two filters whose tests agree on every line return the same lines. */
  lemma {:induction false} SelectSameTest(m1: Mode, q1: string, m2: Mode, q2: string, lines: seq<string>)
    requires forall k :: 0 <= k < |lines| ==> (Hit(m1, lines[k], q1) <==> Hit(m2, lines[k], q2))
    ensures Select(m1, q1, lines) == Select(m2, q2, lines)
    decreases |lines|
  {
    if lines != [] {
      SelectSameTest(m1, q1, m2, q2, lines[1..]);
    }
  }

  /** The capitals in the query make no difference to
      `search_case_insensitive`. */
  lemma {:induction false} QueryCaseIrrelevant(query: string, contents: string)
    ensures SearchCaseInsensitive(Lower(query), contents) == SearchCaseInsensitive(query, contents)
  {
    LowerIdempotent(query);
    SelectSameTest(CaseInsensitive, Lower(query), CaseInsensitive, query, Lines(contents));
  }
}
