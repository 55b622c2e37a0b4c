/**
 * `str::lines`: the text is cut after every '\n'; a final '\n' does not start
 * another line, the empty text has no lines, and one '\r' at the end of a line
 * is dropped.
 */
module LineSplit {

  /** Index of the first '\n' in s, or |s| when s has none (LineEndSpec). */
  function LineEnd(s: string): (i: nat)
    ensures i <= |s|
    decreases |s|
  {
    if s == [] || s[0] == '\n' then 0 else 1 + LineEnd(s[1..])
  }

  /** LineEnd is the index of the first '\n', or |s| when there is none. */
  lemma {:induction false} LineEndSpec(s: string)
    ensures forall k :: 0 <= k < LineEnd(s) ==> s[k] != '\n'
    ensures LineEnd(s) < |s| ==> s[LineEnd(s)] == '\n'
    decreases |s|
  {
    if s != [] && s[0] != '\n' {
      LineEndSpec(s[1..]);
      forall k | 1 <= k < LineEnd(s)
        ensures s[k] != '\n'
      {
        assert s[k] == s[1..][k - 1];
      }
    }
  }

  /** In a line followed by '\n', the first '\n' is that one. */
  lemma {:induction false} LineEndBefore(l: string, t: string)
    requires '\n' !in l
    ensures LineEnd(l + "\n" + t) == |l|
    decreases |l|
  {
    if l != [] {
      assert l[0] in l;
      assert (l + "\n" + t)[1..] == l[1..] + "\n" + t;
      assert forall c :: c in l[1..] ==> c in l;
      LineEndBefore(l[1..], t);
    }
  }

  /** Text without '\n' ends at its own end. */
  lemma {:induction false} LineEndNone(l: string)
    requires '\n' !in l
    ensures LineEnd(l) == |l|
    decreases |l|
  {
    if l != [] {
      assert l[0] in l;
      assert forall c :: c in l[1..] ==> c in l;
      LineEndNone(l[1..]);
    }
  }

  /** Drops one trailing '\r'. */
  function StripCr(line: string): (r: string)
    ensures r == line || (line == r + "\r")
    ensures |line| > 0 && line[|line| - 1] == '\r' ==> line == r + "\r"
  {
    if |line| > 0 && line[|line| - 1] == '\r' then line[..|line| - 1] else line
  }

  /** `s.lines()` */
  function Lines(s: string): (ls: seq<string>)
    ensures ls == [] <==> s == []
    decreases |s|
  {
    if s == [] then []
    else
      var i := LineEnd(s);
      [StripCr(s[..i])] + (if i == |s| then [] else Lines(s[i + 1..]))
  }

  /** No line that `lines` returns contains a '\n'. */
  lemma {:induction false} LinesHaveNoNewline(s: string)
    ensures forall l :: l in Lines(s) ==> '\n' !in l
    decreases |s|
  {
    if s != [] {
      var i := LineEnd(s);
      LineEndSpec(s);
      assert '\n' !in s[..i];
      assert '\n' !in StripCr(s[..i]);
      if i < |s| {
        LinesHaveNoNewline(s[i + 1..]);
      }
    }
  }

  /** A line as `lines` can return it, with its terminator added back. */
  predicate IsLine(l: string)
  {
    '\n' !in l && (l == [] || l[|l| - 1] != '\r')
  }

  /** Writes every line followed by '\n'. */
  function Unlines(ls: seq<string>): string
  {
    if ls == [] then "" else ls[0] + "\n" + Unlines(ls[1..])
  }

  /** Joins the lines with '\n' between them and none after the last. */
  function JoinLines(ls: seq<string>): string
  {
    if ls == [] then ""
    else if |ls| == 1 then ls[0]
    else ls[0] + "\n" + JoinLines(ls[1..])
  }

  /** The first line ends at the first '\n', with one '\r' before it dropped. */
  lemma LinesCons(l: string, t: string)
    requires '\n' !in l
    ensures Lines(l + "\n" + t) == [StripCr(l)] + Lines(t)
    ensures IsLine(l) ==> Lines(l + "\n" + t) == [l] + Lines(t)
  {
    var s := l + "\n" + t;
    LineEndBefore(l, t);
    assert s[..|l|] == l;
    assert s[|l| + 1..] == t;
  }

  /** "\r\n" ends a line just as "\n" does. */
  lemma LinesCrLf(l: string, t: string)
    requires '\n' !in l
    ensures Lines(l + "\r\n" + t) == [l] + Lines(t)
  {
    assert l + "\r\n" + t == (l + "\r") + "\n" + t;
    LinesCons(l + "\r", t);
    assert (l + "\r")[..|l|] == l;
  }

  /** Text without a '\n' is a single line. */
  lemma LinesLast(l: string)
    requires l != [] && '\n' !in l
    ensures Lines(l) == [StripCr(l)]
  {
    LineEndNone(l);
    assert l[..|l|] == l;
  }

  /** Text holding a '\n' is its first line, that '\n' and the rest. */
  lemma SplitFirstLine(s: string) returns (l: string, t: string)
    requires '\n' in s
    ensures s == l + "\n" + t && '\n' !in l
  {
    var i := LineEnd(s);
    LineEndSpec(s);
    assert i < |s| by {
      var j :| 0 <= j < |s| && s[j] == '\n';
    }
    l, t := s[..i], s[i + 1..];
    assert s == l + "\n" + t;
  }

  /** A single line keeps its lines when a '\n' is added after it. */
  lemma FinalNewlineOneLine(l: string)
    requires l != [] && '\n' !in l
    ensures Lines(l + "\n") == Lines(l)
  {
    LinesLast(l);
    assert l + "\n" == l + "\n" + "";
    LinesCons(l, "");
  }

  /** Appending '\n' to a line followed by t appends it to t. */
  lemma AppendNewline(l: string, t: string)
    ensures l + "\n" + t + "\n" == l + "\n" + (t + "\n")
  {
  }

  /** If a final '\n' adds no line to t, it adds none to a line followed by t. */
  lemma FinalNewlineStep(l: string, t: string)
    requires '\n' !in l
    requires Lines(t + "\n") == Lines(t)
    ensures Lines(l + "\n" + t + "\n") == Lines(l + "\n" + t)
  {
    AppendNewline(l, t);
    LinesCons(l, t);
    LinesCons(l, t + "\n");
  }

  /** A '\n' added after a last line that lacks one adds no empty line. */
  lemma {:induction false} FinalNewline(s: string)
    requires s != [] && s[|s| - 1] != '\n'
    ensures Lines(s + "\n") == Lines(s)
    decreases |s|
  {
    if '\n' !in s {
      FinalNewlineOneLine(s);
    } else {
      var l, t := SplitFirstLine(s);
      assert t != [];
      assert t[|t| - 1] == s[|s| - 1];
      FinalNewline(t);
      FinalNewlineStep(l, t);
    }
  }

  /** Splitting undoes Unlines when no line holds a '\n' or ends in '\r'. */
  lemma {:induction false} LinesOfUnlines(ls: seq<string>)
    requires forall l :: l in ls ==> IsLine(l)
    ensures Lines(Unlines(ls)) == ls
    decreases |ls|
  {
    if ls != [] {
      assert ls[0] in ls;
      LinesCons(ls[0], Unlines(ls[1..]));
      LinesOfUnlines(ls[1..]);
      assert ls == [ls[0]] + ls[1..];
    }
  }

  /**
   * Unlines rebuilds text that is empty or ends in '\n', provided no '\r'
   * comes directly before a '\n' (lines() would drop that '\r').
   */
  lemma {:induction false} UnlinesOfLines(s: string)
    requires forall k :: 0 <= k < |s| - 1 ==> !(s[k] == '\r' && s[k + 1] == '\n')
    requires s == [] || s[|s| - 1] == '\n'
    ensures Unlines(Lines(s)) == s
    decreases |s|
  {
    if s != [] {
      assert s[|s| - 1] in s;
      var line, rest := SplitFirstLine(s);
      var n := |line|;
      assert s[n] == '\n';
      assert IsLine(line) by {
        if n > 0 {
          assert line[n - 1] == s[n - 1];
        }
      }
      forall k | 0 <= k < |rest| - 1
        ensures !(rest[k] == '\r' && rest[k + 1] == '\n')
      {
        assert rest[k] == s[n + 1 + k] && rest[k + 1] == s[n + 2 + k];
      }
      assert rest == [] || rest[|rest| - 1] == s[|s| - 1];
      LinesCons(line, rest);
      UnlinesOfLines(rest);
      assert ([line] + Lines(rest))[1..] == Lines(rest);
    }
  }

  /**
   * Splitting undoes JoinLines when no line holds a '\n' or ends in '\r' and
   * the last line is not empty (an empty last line would leave a final '\n').
   */
  lemma {:induction false} LinesOfJoinLines(ls: seq<string>)
    requires forall l :: l in ls ==> IsLine(l)
    requires ls != [] && ls[|ls| - 1] != []
    ensures Lines(JoinLines(ls)) == ls
    decreases |ls|
  {
    assert ls[0] in ls;
    if |ls| == 1 {
      LinesLast(ls[0]);
    } else {
      var rest := ls[1..];
      assert rest[|rest| - 1] == ls[|ls| - 1];
      assert forall l :: l in rest ==> l in ls;
      LinesOfJoinLines(rest);
      assert JoinLines(ls) == ls[0] + "\n" + JoinLines(rest);
      LinesCons(ls[0], JoinLines(rest));
      assert ls == [ls[0]] + rest;
    }
  }
}
