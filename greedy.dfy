/** The greedy selection of courses/recommender.py:82-88: walk the sorted eligible
    courses once, accept a course when the running total plus its credits stays within
    the cap, skip it otherwise and go on with the next. */
module Greedy {
  import opened Models
  import opened Sequences

  /** The credits of `s` added up from the front, as the running total is. */
  function SumCredits(s: seq<Course>): int
    decreases |s|
  {
    if s == [] then 0 else SumCredits(s[..|s| - 1]) + s[|s| - 1].credits
  }

  /** What the loop has accepted so far and its running credit total. */
  datatype Selection = Selection(picked: seq<Course>, total: int)

  /** The selection the loop holds after considering every course of `s`, in order. */
  function Pack(s: seq<Course>, cap: int): (r: Selection)
    ensures r.total == SumCredits(r.picked)
    ensures r.picked != [] ==> r.total <= cap
    decreases |s|
  {
    if s == [] then Selection([], 0)
    else
      var prev := Pack(s[..|s| - 1], cap);
      var c := s[|s| - 1];
      if prev.total + c.credits <= cap then
        assert (prev.picked + [c])[..|prev.picked|] == prev.picked;
        Selection(prev.picked + [c], prev.total + c.credits)
      else prev
  }

  /** The selection keeps the order the courses were considered in. */
  lemma {:induction false} PackSubsequence(s: seq<Course>, cap: int)
    ensures IsSubsequence(Pack(s, cap).picked, s)
    decreases |s|
  {
    if s != [] {
      var s' := s[..|s| - 1];
      PackSubsequence(s', cap);
      var prev := Pack(s', cap).picked;
      if Pack(s, cap).picked != prev {
        assert (prev + [s[|s| - 1]])[..|prev|] == prev;
      } else if prev != [] {
        assert IsSubsequence(prev, s');
      }
    }
  }

  /** One more course considered: it is appended when it fits, otherwise nothing changes. */
  lemma PackStep(s: seq<Course>, cap: int, i: nat)
    requires i < |s|
    ensures Pack(s[..i + 1], cap) ==
      var prev := Pack(s[..i], cap);
      if prev.total + s[i].credits <= cap then Selection(prev.picked + [s[i]], prev.total + s[i].credits)
      else prev
  {
    assert s[..i + 1][..i] == s[..i];
  }

  ghost predicate NonNegativeCredits(s: seq<Course>)
  {
    forall i :: 0 <= i < |s| ==> s[i].credits >= 0
  }

  /** Considering more courses only extends the selection: what was picked from the first
      `j` courses stays picked, in front. */
  lemma {:induction false} PackPrefix(s: seq<Course>, cap: int, j: nat)
    requires j <= |s|
    ensures Pack(s[..j], cap).picked <= Pack(s, cap).picked
    decreases |s|
  {
    if j == |s| {
      assert s[..j] == s;
    } else {
      var s' := s[..|s| - 1];
      assert s'[..j] == s[..j];
      PackPrefix(s', cap, j);
    }
  }

  /** Everything picked after the selection from the first `j` courses comes from `s[j..]`. */
  lemma {:induction false} PackLater(s: seq<Course>, cap: int, j: nat)
    requires j <= |s|
    ensures forall k :: |Pack(s[..j], cap).picked| <= k < |Pack(s, cap).picked| ==>
      Pack(s, cap).picked[k] in s[j..]
    decreases |s|
  {
    if j == |s| {
      assert s[..j] == s;
    } else {
      var s' := s[..|s| - 1];
      assert s'[..j] == s[..j];
      assert s[j..] == s'[j..] + [s[|s| - 1]];
      PackLater(s', cap, j);
    }
  }

  /** With non-negative credits the running total never goes down. */
  lemma {:induction false} PackTotalGrows(s: seq<Course>, cap: int, j: nat)
    requires j <= |s|
    requires NonNegativeCredits(s)
    ensures Pack(s[..j], cap).total <= Pack(s, cap).total
    decreases |s|
  {
    if j == |s| {
      assert s[..j] == s;
    } else {
      var s' := s[..|s| - 1];
      assert s'[..j] == s[..j];
      PackTotalGrows(s', cap, j);
    }
  }

  /** A course that fitted into the headroom left after the courses before it is picked;
      so a course left out did not fit at the moment it was considered. */
  lemma AcceptedWhenFits(s: seq<Course>, cap: int, i: nat)
    requires i < |s|
    ensures Pack(s[..i], cap).total + s[i].credits <= cap ==> s[i] in Pack(s, cap).picked
  {
    PackStep(s, cap, i);
    PackPrefix(s, cap, i + 1);
    var whole, head := Pack(s, cap).picked, Pack(s[..i + 1], cap).picked;
    if Pack(s[..i], cap).total + s[i].credits <= cap {
      assert head[|head| - 1] == s[i];
      assert whole[|head| - 1] == s[i];
    }
  }

  lemma DistinctElsewhere(s: seq<Course>, i: nat)
    requires i < |s|
    requires forall a, b :: 0 <= a < b < |s| ==> s[a] != s[b]
    ensures s[i] !in s[..i] && s[i] !in s[i + 1..]
  {
    var before, after := s[..i], s[i + 1..];
    forall a | 0 <= a < |before| ensures before[a] != s[i] { }
    forall b | 0 <= b < |after| ensures after[b] != s[i] { assert after[b] == s[i + 1 + b]; }
  }

  /** A course that occurs nowhere else in `s` and did not fit when it was considered does
      not turn up in the selection later. */
  lemma LeftOut(s: seq<Course>, cap: int, i: nat)
    requires i < |s|
    requires s[i] !in s[..i] && s[i] !in s[i + 1..]
    requires Pack(s[..i], cap).total + s[i].credits > cap
    ensures s[i] !in Pack(s, cap).picked
  {
    PackStep(s, cap, i);
    var head := Pack(s[..i + 1], cap).picked;
    PackSubsequence(s[..i], cap);
    SubsequenceMembers(head, s[..i]);
    PackPrefix(s, cap, i + 1);
    PackLater(s, cap, i + 1);
    var whole := Pack(s, cap).picked;
    forall k | 0 <= k < |whole| ensures whole[k] != s[i] {
      if k < |head| {
        assert whole[k] == head[k];
        assert head[k] in s[..i];
      } else {
        assert whole[k] in s[i + 1..];
      }
    }
  }

  /** When the courses are all different, the one at position `i` is picked exactly when it
      fitted into the headroom left after the courses before it. */
  lemma PackDecision(s: seq<Course>, cap: int, i: nat)
    requires i < |s|
    requires forall a, b :: 0 <= a < b < |s| ==> s[a] != s[b]
    ensures s[i] in Pack(s, cap).picked <==> Pack(s[..i], cap).total + s[i].credits <= cap
  {
    AcceptedWhenFits(s, cap, i);
    if Pack(s[..i], cap).total + s[i].credits > cap {
      DistinctElsewhere(s, i);
      LeftOut(s, cap, i);
    }
  }

  /** With non-negative credits the greedy selection is maximal: no course left out would
      still fit into the headroom that remains at the end. */
  lemma NothingLeftOutFits(s: seq<Course>, cap: int)
    requires NonNegativeCredits(s)
    ensures forall x :: x in s && x !in Pack(s, cap).picked ==> Pack(s, cap).total + x.credits > cap
  {
    forall x | x in s && x !in Pack(s, cap).picked
      ensures Pack(s, cap).total + x.credits > cap
    {
      var i :| 0 <= i < |s| && s[i] == x;
      AcceptedWhenFits(s, cap, i);
      PackTotalGrows(s, cap, i);
    }
  }
}
