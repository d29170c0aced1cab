/**
 Splitting file contents into lines the way Rust's `str::lines` does: the
 text is cut after every line feed, the line feed is removed, and a carriage
 return directly before it is removed as well. A final line feed does not
 start an empty last line, and empty contents have no lines at all.
 */
module LineSplit {

  const LF: char := '\n'
  const CR: char := '\r'

  /** Index of the first line feed in `s`, or `|s|` when there is none. */
  function LineEnd(s: string): (i: nat)
    ensures i <= |s|
    ensures i < |s| ==> s[i] == LF
    ensures forall j :: 0 <= j < i ==> s[j] != LF
    decreases |s|
  {
    if s == [] || s[0] == LF then 0 else 1 + LineEnd(s[1..])
  }

  /** Removes the carriage return of a "\r\n" terminator from a line that
      was cut at a line feed. */
  function StripCR(piece: string): (r: string)
    ensures (piece == r + [CR]) <==> (|piece| > 0 && piece[|piece| - 1] == CR)
    ensures r == piece || piece == r + [CR]
  {
    if |piece| > 0 && piece[|piece| - 1] == CR then piece[..|piece| - 1] else piece
  }

  /** A line as `str::lines` can return it: no line feed inside. */
  predicate IsLine(l: string) {
    LF !in l
  }

  /** The lines of `s` in order. The last piece is returned as it is when it
      has no line feed after it. */
  function Lines(s: string): (ls: seq<string>)
    ensures forall k :: 0 <= k < |ls| ==> IsLine(ls[k])
    ensures s == [] <==> ls == []
    ensures |ls| <= |s|
    decreases |s|
  {
    if s == [] then []
    else
      var i := LineEnd(s);
      if i == |s| then [s]
      else [StripCR(s[..i])] + Lines(s[i + 1..])
  }

  /** Reference inverse: every line followed by a line feed. */
  function Unlines(ls: seq<string>): (s: string)
    ensures |s| >= |ls|
    decreases |ls|
  {
    if ls == [] then [] else ls[0] + [LF] + Unlines(ls[1..])
  }

  /** A line that `Lines` returns unchanged when it is followed by "\n":
      no line feed inside and no carriage return at its end. */
  predicate Plain(l: string) {
    IsLine(l) && (l == [] || l[|l| - 1] != CR)
  }

  lemma LineEndAfterLine(l: string, rest: string)
    requires IsLine(l)
    ensures LineEnd(l + [LF] + rest) == |l|
  {
    var s := l + [LF] + rest;
    assert s[|l|] == LF;
    assert forall j :: 0 <= j < |l| ==> s[j] == l[j];
  }

  /** A plain line followed by a line feed is split off as the first line. */
  lemma LinesCons(l: string, rest: string)
    requires Plain(l)
    ensures Lines(l + [LF] + rest) == [l] + Lines(rest)
  {
    var s := l + [LF] + rest;
    LineEndAfterLine(l, rest);
    assert s[..|l|] == l;
    assert s[|l| + 1..] == rest;
  }

  /** A "\r\n" terminator is removed as a whole: any line without a line
      feed, even one that itself ends in a carriage return, is split off
      unchanged when "\r\n" follows it. */
  lemma LinesConsCRLF(l: string, rest: string)
    requires IsLine(l)
    ensures Lines(l + [CR] + [LF] + rest) == [l] + Lines(rest)
  {
    var s := l + [CR] + [LF] + rest;
    assert IsLine(l + [CR]);
    LineEndAfterLine(l + [CR], rest);
    assert s == (l + [CR]) + [LF] + rest;
    assert s[..|l| + 1] == l + [CR];
    assert s[|l| + 2..] == rest;
  }

  /** Text without a line feed is a single line. */
  lemma LinesSingle(l: string)
    requires l != [] && IsLine(l)
    ensures Lines(l) == [l]
  {
  }

  /** The lines joined with a line feed between each two, as in a file whose
      last line has no terminator. */
  function Join(ls: seq<string>): (s: string)
    decreases |ls|
  {
    if |ls| == 0 then [] else if |ls| == 1 then ls[0] else ls[0] + [LF] + Join(ls[1..])
  }

  /** Splitting undoes `Join`: the last line may be anything without a line
      feed (even one ending in a carriage return) as long as it is not empty. */
  lemma {:induction false} LinesJoin(ls: seq<string>)
    requires ls != []
    requires forall k :: 0 <= k < |ls| - 1 ==> Plain(ls[k])
    requires IsLine(ls[|ls| - 1]) && ls[|ls| - 1] != []
    ensures Lines(Join(ls)) == ls
    decreases |ls|
  {
    if |ls| == 1 {
      LinesSingle(ls[0]);
    } else {
      LinesJoin(ls[1..]);
      LinesCons(ls[0], Join(ls[1..]));
      assert ls == [ls[0]] + ls[1..];
    }
  }

  /** Reference inverse for Windows-style text: every line followed by
      "\r\n". */
  function UnlinesCRLF(ls: seq<string>): (s: string)
    ensures |s| >= 2 * |ls|
    decreases |ls|
  {
    if ls == [] then [] else ls[0] + [CR, LF] + UnlinesCRLF(ls[1..])
  }

  /** Splitting undoes "\r\n"-joining for any lines without a line feed,
      including lines that end in a carriage return of their own. */
  lemma {:induction false} LinesUnlinesCRLF(ls: seq<string>)
    requires forall k :: 0 <= k < |ls| ==> IsLine(ls[k])
    ensures Lines(UnlinesCRLF(ls)) == ls
    decreases |ls|
  {
    if ls != [] {
      assert ls[0] + [CR, LF] + UnlinesCRLF(ls[1..]) == ls[0] + [CR] + [LF] + UnlinesCRLF(ls[1..]);
      LinesConsCRLF(ls[0], UnlinesCRLF(ls[1..]));
      LinesUnlinesCRLF(ls[1..]);
      assert ls == [ls[0]] + ls[1..];
    }
  }

  /** Splitting undoes joining, for lines that carry no terminator. */
  lemma {:induction false} LinesUnlines(ls: seq<string>)
    requires forall k :: 0 <= k < |ls| ==> Plain(ls[k])
    ensures Lines(Unlines(ls)) == ls
    decreases |ls|
  {
    if ls != [] {
      LinesCons(ls[0], Unlines(ls[1..]));
      LinesUnlines(ls[1..]);
      assert ls == [ls[0]] + ls[1..];
    }
  }

  /** Joining undoes splitting, for text without carriage returns that is
      empty or ends with a line feed. */
  lemma {:induction false} UnlinesLines(s: string)
    requires CR !in s
    requires s == [] || s[|s| - 1] == LF
    ensures Unlines(Lines(s)) == s
    decreases |s|
  {
    if s != [] {
      var i := LineEnd(s);
      assert i < |s|;
      var head, tail := s[..i], s[i + 1..];
      assert s == head + [LF] + tail;
      assert StripCR(head) == head by {
        assert head == [] || head[|head| - 1] in s;
      }
      assert CR !in tail by {
        assert forall c :: c in tail ==> c in s;
      }
      UnlinesLines(tail);
    }
  }

  /** The terminator of the last line is optional: adding one to text that
      ends in an ordinary character does not add a line. */
  lemma {:induction false} FinalNewlineOptional(s: string)
    requires s != []
    requires s[|s| - 1] != LF && s[|s| - 1] != CR
    ensures Lines(s + [LF]) == Lines(s)
    decreases |s|
  {
    var t := s + [LF];
    var i := LineEnd(s);
    if i == |s| {
      assert LineEnd(t) == |s| by {
        LineEndAfterLine(s, []);
        assert t == s + [LF] + [];
      }
      assert t[..|s|] == s;
      assert t[|s| + 1..] == [];
    } else {
      assert i < |s| - 1;
      assert LineEnd(t) == i by {
        assert IsLine(s[..i]);
        LineEndAfterLine(s[..i], s[i + 1..] + [LF]);
        assert t == s[..i] + [LF] + (s[i + 1..] + [LF]);
      }
      assert t[..i] == s[..i];
      assert t[i + 1..] == s[i + 1..] + [LF];
      FinalNewlineOptional(s[i + 1..]);
    }
  }
}
