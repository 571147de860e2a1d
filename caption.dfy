/**
  The caption clean-up applied before drawing: `re.sub(r"[ -]{2,}", " ", text)`
  replaces every run of two or more spaces and hyphens by one space and leaves
  single spaces and hyphens alone.
*/
module Caption {
  import Sequences

  predicate IsSeparator(c: char) { c == ' ' || c == '-' }

  /** No two neighbouring characters are both spaces or hyphens. */
  predicate NoDoubleSeparator(s: string)
  {
    forall i :: 0 <= i < |s| - 1 ==> !(IsSeparator(s[i]) && IsSeparator(s[i + 1]))
  }

  /** Length of the run of spaces and hyphens at the front of `s`. */
  function RunLength(s: string): (n: nat)
    ensures n <= |s|
    ensures forall i :: 0 <= i < n ==> IsSeparator(s[i])
    ensures n < |s| ==> !IsSeparator(s[n])
  {
    if s != [] && IsSeparator(s[0]) then 1 + RunLength(s[1..]) else 0
  }

  /**
    The regular expression scans left to right; at a separator it takes the
    longest run (the quantifier is greedy) and replaces it when the run has at
    least two characters. A one-character run does not match and is kept.
  */
  function CollapseRuns(s: string): (r: string)
    ensures |r| <= |s|
    ensures r == [] <==> s == []
    ensures s != [] ==> (IsSeparator(r[0]) <==> IsSeparator(s[0]))
    ensures NoDoubleSeparator(r)
    decreases |s|
  {
    if s == [] then []
    else if !IsSeparator(s[0]) then [s[0]] + CollapseRuns(s[1..])
    else
      var n := RunLength(s);
      (if n >= 2 then " " else [s[0]]) + CollapseRuns(s[n..])
  }

  /** The characters other than spaces and hyphens, in order. */
  function Letters(s: string): string
  {
    if s == [] then []
    else (if IsSeparator(s[0]) then [] else [s[0]]) + Letters(s[1..])
  }

  lemma {:induction false} LettersOfRun(s: string, n: nat)
    requires n <= |s| && forall i :: 0 <= i < n ==> IsSeparator(s[i])
    ensures Letters(s) == Letters(s[n..])
  {
    if n > 0 {
      LettersOfRun(s[1..], n - 1);
      assert s[1..][n - 1..] == s[n..];
    }
  }

  /** Everything that is not a space or a hyphen survives, in the same order. */
  lemma {:induction false} CollapseKeepsLetters(s: string)
    ensures Letters(CollapseRuns(s)) == Letters(s)
    decreases |s|
  {
    if s != [] {
      if !IsSeparator(s[0]) {
        CollapseKeepsLetters(s[1..]);
        assert CollapseRuns(s)[1..] == CollapseRuns(s[1..]);
      } else {
        var n := RunLength(s);
        var head: string := if n >= 2 then " " else [s[0]];
        CollapseKeepsLetters(s[n..]);
        LettersOfRun(s, n);
        assert CollapseRuns(s) == head + CollapseRuns(s[n..]);
        assert (head + CollapseRuns(s[n..]))[1..] == CollapseRuns(s[n..]);
      }
    }
  }

  /** Text without a double separator is left as it is. */
  lemma {:induction false} CollapseKeepsClean(s: string)
    requires NoDoubleSeparator(s)
    ensures CollapseRuns(s) == s
    decreases |s|
  {
    if s != [] {
      assert NoDoubleSeparator(s[1..]) by {
        forall i | 0 <= i < |s[1..]| - 1
          ensures !(IsSeparator(s[1..][i]) && IsSeparator(s[1..][i + 1]))
        {
          assert s[1..][i] == s[i + 1] && s[1..][i + 1] == s[i + 2];
        }
      }
      CollapseKeepsClean(s[1..]);
      if IsSeparator(s[0]) {
        assert |s| > 1 ==> !IsSeparator(s[1]);
        assert RunLength(s) == 1;
      }
    }
  }

  /** A whole run of separators: two or more become one space, a single one is kept. */
  lemma CollapseRun(run: string)
    requires |run| >= 1 && forall i :: 0 <= i < |run| ==> IsSeparator(run[i])
    ensures CollapseRuns(run) == (if |run| >= 2 then " " else run)
  {
    var n := RunLength(run);
    assert n == |run|;
    assert run[n..] == [];
  }

  /** The run at the front of `a + b` stays inside `a` unless `a` is all separators and `b` does not start with one. */
  lemma {:induction false} RunLengthConcat(a: string, b: string)
    requires a == [] || b == [] || !(IsSeparator(a[|a| - 1]) && IsSeparator(b[0]))
    requires a != [] && IsSeparator(a[0])
    ensures RunLength(a + b) == RunLength(a)
    decreases |a|
  {
    if |a| >= 2 && IsSeparator(a[1]) {
      assert (a + b)[1..] == a[1..] + b;
      RunLengthConcat(a[1..], b);
    } else if |a| >= 2 {
      assert (a + b)[1..][0] == a[1];
    } else {
      assert (a + b)[1..] == b;
    }
  }

  /** How many characters one step of the scan consumes: a whole run, or one other character. */
  function Step(s: string): (n: nat)
    requires s != []
    ensures 1 <= n <= |s|
  {
    if IsSeparator(s[0]) then RunLength(s) else 1
  }

  /** What one step of the scan emits. */
  function Head(s: string): string
    requires s != []
  {
    if !IsSeparator(s[0]) then [s[0]] else if Step(s) >= 2 then " " else [s[0]]
  }

  lemma CollapseStep(s: string)
    requires s != []
    ensures CollapseRuns(s) == Head(s) + CollapseRuns(s[Step(s)..])
  {
  }

  lemma StepConcat(a: string, b: string)
    requires a != [] && (b == [] || !(IsSeparator(a[|a| - 1]) && IsSeparator(b[0])))
    ensures Step(a + b) == Step(a) && Head(a + b) == Head(a)
  {
    assert (a + b)[0] == a[0];
    if IsSeparator(a[0]) {
      RunLengthConcat(a, b);
    }
  }

  /** Collapsing `a + b` starts with the same first piece as collapsing `a`. */
  lemma CollapseStepConcat(a: string, b: string)
    requires a != [] && (b == [] || !(IsSeparator(a[|a| - 1]) && IsSeparator(b[0])))
    ensures CollapseRuns(a + b) == Head(a) + CollapseRuns(a[Step(a)..] + b)
  {
    var n := Step(a);
    CollapseStep(a + b);
    StepConcat(a, b);
    Sequences.DropConcat(a, b, n);
  }

  /** One step of `CollapseConcat`: cleaning `a + b` is one scan step followed by cleaning the rest. */
  lemma ConcatStep(a: string, b: string)
    requires a != [] && (b == [] || !(IsSeparator(a[|a| - 1]) && IsSeparator(b[0])))
    requires CollapseRuns(a[Step(a)..] + b) == CollapseRuns(a[Step(a)..]) + CollapseRuns(b)
    ensures CollapseRuns(a + b) == CollapseRuns(a) + CollapseRuns(b)
  {
    CollapseStepConcat(a, b);
    CollapseStep(a);
    Sequences.Glue(Head(a), CollapseRuns(a[Step(a)..]), CollapseRuns(b),
         CollapseRuns(a + b), CollapseRuns(a), CollapseRuns(a[Step(a)..] + b));
  }

  /**
    The clean-up works piecewise: a caption cut where the two sides do not
    both end and start with a space or hyphen is cleaned by cleaning each
    side, so a run never merges across the cut.
  */
  lemma {:induction false} CollapseConcat(a: string, b: string)
    requires a == [] || b == [] || !(IsSeparator(a[|a| - 1]) && IsSeparator(b[0]))
    ensures CollapseRuns(a + b) == CollapseRuns(a) + CollapseRuns(b)
    decreases |a|
  {
    if a == [] {
      assert a + b == b;
    } else {
      var t := a[Step(a)..];
      assert t == [] || b == [] || !(IsSeparator(t[|t| - 1]) && IsSeparator(b[0])) by {
        if t != [] { assert t[|t| - 1] == a[|a| - 1]; }
      }
      CollapseConcat(t, b);
      ConcatStep(a, b);
    }
  }

  /** Cleaning a caption twice is cleaning it once. */
  lemma CollapseIdempotent(s: string)
    ensures CollapseRuns(CollapseRuns(s)) == CollapseRuns(s)
  {
    CollapseKeepsClean(CollapseRuns(s));
  }

  lemma CollapseExampleRun()
    ensures CollapseRuns("a  -- b") == "a b"
  {
    var tail := "  -- b";
    assert RunLength(tail[5..]) == 0;
    assert RunLength(tail[4..]) == 1;
    assert RunLength(tail[3..]) == 2;
    assert RunLength(tail[2..]) == 3;
    assert RunLength(tail[1..]) == 4;
    assert RunLength(tail) == 5;
    assert CollapseRuns(tail[5..]) == "b";
    assert CollapseRuns(tail) == " b";
    assert "a  -- b"[1..] == tail;
  }
}
