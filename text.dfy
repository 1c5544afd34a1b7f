/**
 * The Java string operations the serialisers use: `" ".repeat(n)`,
 * `String.lines()` (which splits at "\n", "\r" and "\r\n" and yields no
 * empty line after a final terminator) and `Collectors.joining("\n")`.
 */
module Text {

  predicate IsBreak(c: char) { c == '\n' || c == '\r' }

  predicate NoBreaks(s: string) {
    forall i | 0 <= i < |s| :: !IsBreak(s[i])
  }

  /** `" ".repeat(n)`. */
  function Spaces(n: nat): (r: string)
    ensures |r| == n
    ensures forall i | 0 <= i < n :: r[i] == ' '
  {
    if n == 0 then "" else Spaces(n - 1) + " "
  }

  /** The position of the first line terminator, or the length if there is none. */
  function FirstBreak(s: string): (i: nat)
    ensures i <= |s|
    ensures NoBreaks(s[..i])
    ensures i < |s| ==> IsBreak(s[i])
  {
    if |s| == 0 then 0
    else if IsBreak(s[0]) then 0
    else
      var j := FirstBreak(s[1..]);
      assert s[..1 + j] == [s[0]] + s[1..][..j];
      1 + j
  }

  /** `String.lines()`: the lines of `s`, without their terminators. */
  function Lines(s: string): (r: seq<string>)
    ensures forall i | 0 <= i < |r| :: NoBreaks(r[i])
    ensures |s| == 0 <==> |r| == 0
    decreases |s|
  {
    if |s| == 0 then []
    else
      var i := FirstBreak(s);
      if i == |s| then [s]
      else
        var skip := if s[i] == '\r' && i + 1 < |s| && s[i + 1] == '\n' then 2 else 1;
        [s[..i]] + Lines(s[i + skip..])
  }

  /** `Collectors.joining("\n")`. */
  function JoinLines(ls: seq<string>): string {
    if |ls| == 0 then ""
    else if |ls| == 1 then ls[0]
    else ls[0] + "\n" + JoinLines(ls[1..])
  }

  /** Every line with `n` spaces in front, as the `map` before the join does. */
  function IndentLines(ls: seq<string>, n: nat): (r: seq<string>)
    ensures |r| == |ls|
    ensures forall i | 0 <= i < |ls| :: r[i] == Spaces(n) + ls[i]
  {
    if |ls| == 0 then [] else [Spaces(n) + ls[0]] + IndentLines(ls[1..], n)
  }

  /** A first line without terminators, ended by "\n", is split off as is. */
  lemma LinesOfLine(l: string, rest: string)
    requires NoBreaks(l)
    ensures Lines(l + "\n" + rest) == [l] + Lines(rest)
  {
    var s := l + "\n" + rest;
    assert s[..|l|] == l;
    assert NoBreaks(s[..|l|]);
    var i := FirstBreak(s);
    assert s[|l|] == '\n';
    assert i == |l|;
    assert s[i + 1..] == rest;
  }

  /** A line without terminators, with "\n" after it, is one line. */
  lemma LinesOfTerminated(l: string)
    requires NoBreaks(l)
    ensures Lines(l + "\n") == [l]
  {
    LinesOfLine(l, "");
    assert l + "\n" + "" == l + "\n";
  }

  /** `lines()` undoes `joining("\n")` followed by a final "\n", for one or more lines without terminators. */
  lemma {:induction false} LinesOfJoin(ls: seq<string>)
    requires |ls| > 0
    requires forall i | 0 <= i < |ls| :: NoBreaks(ls[i])
    ensures Lines(JoinLines(ls) + "\n") == ls
  {
    if |ls| == 1 {
      LinesOfTerminated(ls[0]);
    } else {
      LinesOfJoin(ls[1..]);
      assert JoinLines(ls) + "\n" == ls[0] + "\n" + (JoinLines(ls[1..]) + "\n");
      LinesOfLine(ls[0], JoinLines(ls[1..]) + "\n");
      assert [ls[0]] + ls[1..] == ls;
    }
  }

  /** Indenting a line without terminators keeps it one. */
  lemma IndentedNoBreaks(ls: seq<string>, n: nat)
    requires forall i | 0 <= i < |ls| :: NoBreaks(ls[i])
    ensures forall i | 0 <= i < |ls| :: NoBreaks(IndentLines(ls, n)[i])
  {
    forall i | 0 <= i < |ls|
      ensures NoBreaks(IndentLines(ls, n)[i])
    {
      SpacesNoBreaks(n);
      ConcatNoBreaks(Spaces(n), ls[i]);
    }
  }

  /** Indenting is line by line: the first line, then the rest. */
  lemma IndentLinesCons(l: string, ls: seq<string>, n: nat)
    ensures IndentLines([l] + ls, n) == [Spaces(n) + l] + IndentLines(ls, n)
  {
    assert ([l] + ls)[1..] == ls;
  }

  lemma SpacesNoBreaks(n: nat)
    ensures NoBreaks(Spaces(n))
  {
  }

  lemma ConcatNoBreaks(a: string, b: string)
    requires NoBreaks(a) && NoBreaks(b)
    ensures NoBreaks(a + b)
  {
    assert forall i | 0 <= i < |a + b| :: (a + b)[i] == if i < |a| then a[i] else b[i - |a|];
  }
}
