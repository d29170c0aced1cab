/**
 The two unit tests of src/lib.rs, stated as lemmas about the model.
 */
module Scenarios {
  import opened Text
  import opened LineSplit
  import opened Grep

  /** A needle whose first two characters never stand next to each other in
      `hay` does not occur in it. */
  lemma {:induction false} AbsentLeadingPair(hay: string, needle: string)
    requires |needle| >= 2
    requires forall k :: 0 <= k < |hay| - 1 ==> !(hay[k] == needle[0] && hay[k + 1] == needle[1])
    ensures !Contains(hay, needle)
    decreases |hay|
  {
    if |hay| > 0 {
      if |needle| <= |hay| {
        assert hay[..|needle|][0] == hay[0] && hay[..|needle|][1] == hay[1];
      }
      AbsentLeadingPair(hay[1..], needle);
    }
  }

  const Rust: string := "Rust:"
  const Safe: string := "safe, fast, productive."
  const Pick: string := "Pick three."
  const Duct: string := "Duct tape."
  const Trust: string := "Trust me."

  /** The contents of the case-sensitive test,
      "Rust:\nsafe, fast, productive.\nPick three.\nDuct tape.". */
  const DuctContents: string := Rust + "\n" + Safe + "\n" + Pick + "\n" + Duct
  /** The contents of the case-insensitive test,
      "Rust:\nsafe, fast, productive.\nPick three.\nTrust me.". */
  const TrustContents: string := Rust + "\n" + Safe + "\n" + Pick + "\n" + Trust

  /** Both test texts share their first three lines. */
  lemma {:induction false} FourLines(last: string)
    requires last != [] && IsLine(last)
    ensures Lines(Rust + "\n" + Safe + "\n" + Pick + "\n" + last) == [Rust, Safe, Pick, last]
  {
    var ls := [Rust, Safe, Pick, last];
    assert Join(ls) == Rust + "\n" + Safe + "\n" + Pick + "\n" + last by {
      assert "\n" == [LF];
      assert ls[1..] == [Safe, Pick, last] && ls[1..][1..] == [Pick, last] && ls[1..][1..][1..] == [last];
      assert Join([Pick, last]) == Pick + [LF] + last;
      assert Join([Safe, Pick, last]) == Safe + [LF] + (Pick + [LF] + last);
    }
    assert Plain(Rust) && Plain(Safe) && Plain(Pick);
    LinesJoin(ls);
  }

  lemma RustLacksDuct()
    ensures !Contains(Rust, "duct")
  {
    AbsentLeadingPair(Rust, "duct");
  }

  lemma SafeHasDuct()
    ensures Contains(Safe, "duct")
  {
    assert OccursAt(Safe, "duct", 15);
    ContainsIffOccurs(Safe, "duct");
  }

  lemma PickLacksDuct()
    ensures !Contains(Pick, "duct")
  {
    AbsentLeadingPair(Pick, "duct");
  }

  lemma DuctLacksDuct()
    ensures !Contains(Duct, "duct")
  {
    AbsentLeadingPair(Duct, "duct");
  }

  lemma LowerQuery()
    ensures Lower("rUsT") == "rust"
  {
  }

  lemma RustHits()
    ensures Hit(CaseInsensitive, Rust, "rUsT")
  {
    LowerQuery();
    assert Lower(Rust) == "rust:";
    assert IsPrefix("rust", "rust:");
  }

  lemma LowerSafe()
    ensures Lower(Safe) == Safe
  {
  }

  lemma SafeLacksRust()
    ensures !Contains(Safe, "rust")
  {
    AbsentLeadingPair(Safe, "rust");
  }

  lemma SafeMisses()
    ensures !Hit(CaseInsensitive, Safe, "rUsT")
  {
    LowerQuery();
    LowerSafe();
    SafeLacksRust();
  }

  lemma PickLacksRust()
    ensures !Contains("pick three.", "rust")
  {
    AbsentLeadingPair("pick three.", "rust");
  }

  lemma PickMisses()
    ensures !Hit(CaseInsensitive, Pick, "rUsT")
  {
    LowerQuery();
    assert Lower(Pick) == "pick three.";
    PickLacksRust();
  }

  lemma TrustHits()
    ensures Hit(CaseInsensitive, Trust, "rUsT")
  {
    LowerQuery();
    assert Lower(Trust) == "trust me.";
    assert IsPrefix("rust", "rust me.");
    assert "trust me."[1..] == "rust me.";
  }

  /** The filter over four lines of which only the second passes. */
  lemma {:induction false} SelectOnlySecond(mode: Mode, query: string, a: string, b: string, c: string, d: string)
    requires !Hit(mode, a, query) && Hit(mode, b, query) && !Hit(mode, c, query) && !Hit(mode, d, query)
    ensures Select(mode, query, [a, b, c, d]) == [b]
  {
    SelectCons(mode, query, d, []);
    assert Select(mode, query, [d]) == [];
    SelectCons(mode, query, c, [d]);
    assert Select(mode, query, [c, d]) == [];
    SelectCons(mode, query, b, [c, d]);
    assert Select(mode, query, [b, c, d]) == [b];
    SelectCons(mode, query, a, [b, c, d]);
  }

  /** The filter over four lines of which the first and the last pass. */
  lemma {:induction false} SelectFirstAndLast(mode: Mode, query: string, a: string, b: string, c: string, d: string)
    requires Hit(mode, a, query) && !Hit(mode, b, query) && !Hit(mode, c, query) && Hit(mode, d, query)
    ensures Select(mode, query, [a, b, c, d]) == [a, d]
  {
    SelectCons(mode, query, d, []);
    assert Select(mode, query, [d]) == [d];
    SelectCons(mode, query, c, [d]);
    assert Select(mode, query, [c, d]) == [d];
    SelectCons(mode, query, b, [c, d]);
    assert Select(mode, query, [b, c, d]) == [d];
    SelectCons(mode, query, a, [b, c, d]);
  }

  lemma DuctSelect()
    ensures Select(CaseSensitive, "duct", [Rust, Safe, Pick, Duct]) == [Safe]
  {
    RustLacksDuct();
    SafeHasDuct();
    PickLacksDuct();
    DuctLacksDuct();
    SelectOnlySecond(CaseSensitive, "duct", Rust, Safe, Pick, Duct);
  }

  lemma TrustSelect()
    ensures Select(CaseInsensitive, "rUsT", [Rust, Safe, Pick, Trust]) == [Rust, Trust]
  {
    RustHits();
    SafeMisses();
    PickMisses();
    TrustHits();
    SelectFirstAndLast(CaseInsensitive, "rUsT", Rust, Safe, Pick, Trust);
  }

  /** The case-sensitive test: "duct" matches "productive." but not "Duct". */
  lemma CaseSensitiveExample()
    ensures Search("duct", DuctContents) == [Safe]
  {
    FourLines(Duct);
    DuctSelect();
  }

  /** The case-insensitive test: "rUsT" matches "Rust:" and "Trust me.";
      the lines come back with their original capitals. */
  lemma CaseInsensitiveExample()
    ensures SearchCaseInsensitive("rUsT", TrustContents) == [Rust, Trust]
  {
    FourLines(Trust);
    TrustSelect();
  }
}
