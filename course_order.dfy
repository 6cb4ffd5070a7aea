/** The order `eligible_courses.sort(key=lambda c: c.course_code)` puts courses in:
    Python's `<` on strings, and a stable sort by that key. */
module CourseOrder {
  import opened Models
  import opened Sequences

  /** Python's `a < b` on str: lexicographic by code point, a proper prefix first. */
  predicate CodeLess(a: string, b: string)
    decreases |a|
  {
    if a == [] then b != []
    else if b == [] then false
    else if a[0] != b[0] then a[0] < b[0]
    else CodeLess(a[1..], b[1..])
  }

  lemma {:induction false} CodeLessIrreflexive(a: string)
    ensures !CodeLess(a, a)
    decreases |a|
  {
    if a != [] {
      CodeLessIrreflexive(a[1..]);
    }
  }

  lemma {:induction false} CodeLessTransitive(a: string, b: string, c: string)
    requires CodeLess(a, b) && CodeLess(b, c)
    ensures CodeLess(a, c)
    decreases |a|
  {
    if a != [] && a[0] == b[0] && b[0] == c[0] {
      CodeLessTransitive(a[1..], b[1..], c[1..]);
    }
  }

  /** Two different codes are always ordered one way or the other. */
  lemma {:induction false} CodeLessTotal(a: string, b: string)
    requires a != b
    ensures CodeLess(a, b) || CodeLess(b, a)
    decreases |a|
  {
    if a != [] && b != [] && a[0] == b[0] {
      assert a == [a[0]] + a[1..] && b == [b[0]] + b[1..];
      CodeLessTotal(a[1..], b[1..]);
    }
  }

  lemma CodeLessAsymmetric(a: string, b: string)
    requires CodeLess(a, b)
    ensures !CodeLess(b, a)
  {
    if CodeLess(b, a) {
      CodeLessTransitive(a, b, a);
      CodeLessIrreflexive(a);
    }
  }

  /** "Not smaller than" is transitive. */
  lemma NotLessTransitive(a: string, b: string, c: string)
    requires !CodeLess(b, a) && !CodeLess(c, b)
    ensures !CodeLess(c, a)
  {
    if CodeLess(c, a) {
      if a == b {
      } else {
        CodeLessTotal(a, b);
        CodeLessTransitive(c, a, b);
      }
    }
  }

  /** No later course has a smaller code than an earlier one. */
  ghost predicate SortedByCode(s: seq<Course>)
  {
    forall i, j :: 0 <= i < j < |s| ==> !CodeLess(s[j].code, s[i].code)
  }

  /** Codes strictly ascending, as they are once sorted when all codes differ. */
  ghost predicate StrictlyByCode(s: seq<Course>)
  {
    forall i, j :: 0 <= i < j < |s| ==> CodeLess(s[i].code, s[j].code)
  }

  ghost predicate DistinctCodes(s: seq<Course>)
  {
    forall i, j :: 0 <= i < j < |s| ==> s[i].code != s[j].code
  }

  /** A course whose code is not above the first of a sorted list extends it in front. */
  lemma ConsSorted(c: Course, s: seq<Course>)
    requires SortedByCode(s)
    requires s != [] ==> !CodeLess(s[0].code, c.code)
    ensures SortedByCode([c] + s)
  {
    var t := [c] + s;
    forall i, j | 0 <= i < j < |t| ensures !CodeLess(t[j].code, t[i].code) {
      if i == 0 && j > 1 {
        NotLessTransitive(c.code, s[0].code, s[j - 1].code);
      }
    }
  }

  /** Places `c` before the first course whose code is not smaller than its own. */
  function Insert(c: Course, s: seq<Course>): (r: seq<Course>)
    requires SortedByCode(s)
    ensures multiset(r) == multiset(s) + multiset{c}
    ensures SortedByCode(r)
    decreases |s|
  {
    if s == [] then [c]
    else if !CodeLess(s[0].code, c.code) then
      ConsSorted(c, s);
      [c] + s
    else
      assert s == [s[0]] + s[1..];
      var rest := Insert(c, s[1..]);
      assert rest != [] ==> !CodeLess(rest[0].code, s[0].code) by {
        if rest != [] {
          assert rest[0] in multiset(rest);
          if rest[0] == c {
            CodeLessAsymmetric(s[0].code, c.code);
          } else {
            assert rest[0] in multiset(s[1..]);
          }
        }
      }
      ConsSorted(s[0], rest);
      [s[0]] + rest
  }

  /** The result of the stable sort by course code: a permutation of `s` in code order. */
  function SortByCode(s: seq<Course>): (r: seq<Course>)
    ensures multiset(r) == multiset(s)
    ensures SortedByCode(r)
    decreases |s|
  {
    if s == [] then []
    else
      assert s == [s[0]] + s[1..];
      Insert(s[0], SortByCode(s[1..]))
  }

  /** Sorting neither adds, drops nor duplicates a course. */
  lemma SortMembers(s: seq<Course>)
    ensures |SortByCode(s)| == |s|
    ensures forall x :: x in SortByCode(s) <==> x in s
  {
    var r := SortByCode(s);
    assert |r| == |multiset(r)| == |multiset(s)| == |s|;
    assert forall x :: x in r <==> x in multiset(r);
  }

  lemma {:induction false} InsertStrict(c: Course, s: seq<Course>)
    requires StrictlyByCode(s)
    requires forall x :: x in s ==> x.code != c.code
    ensures SortedByCode(s)
    ensures StrictlyByCode(Insert(c, s))
    decreases |s|
  {
    StrictSorted(s);
    if s != [] {
      if !CodeLess(s[0].code, c.code) {
        CodeLessTotal(c.code, s[0].code);
        forall j | 0 < j < |s| ensures CodeLess(c.code, s[j].code) {
          CodeLessTransitive(c.code, s[0].code, s[j].code);
        }
      } else {
        InsertStrict(c, s[1..]);
        var rest := Insert(c, s[1..]);
        forall x | x in rest ensures CodeLess(s[0].code, x.code) {
          assert x in multiset(rest);
          if x != c {
            assert x in multiset(s[1..]);
          }
        }
      }
    }
  }

  /** Sorting courses whose codes all differ leaves them in strictly ascending code order. */
  lemma {:induction false} SortStrict(s: seq<Course>)
    requires DistinctCodes(s)
    ensures StrictlyByCode(SortByCode(s))
    decreases |s|
  {
    if s != [] {
      SortStrict(s[1..]);
      var t := SortByCode(s[1..]);
      forall x | x in t ensures x.code != s[0].code {
        assert x in multiset(s[1..]);
      }
      InsertStrict(s[0], t);
    }
  }

  /** The smallest code of the same courses comes first in both arrangements. */
  lemma SameFirst(a: seq<Course>, b: seq<Course>)
    requires StrictlyByCode(a) && StrictlyByCode(b)
    requires multiset(a) == multiset(b) && a != []
    ensures b != [] && a[0] == b[0]
  {
    assert a[0] in multiset(b);
    var k :| 0 <= k < |b| && b[k] == a[0];
    assert b[0] in multiset(a);
    var m :| 0 <= m < |a| && a[m] == b[0];
    if a[0] != b[0] {
      assert CodeLess(b[0].code, a[0].code);
      CodeLessAsymmetric(b[0].code, a[0].code);
    }
  }

  lemma StrictTail(s: seq<Course>)
    requires StrictlyByCode(s) && s != []
    ensures StrictlyByCode(s[1..])
  {
    forall i, j | 0 <= i < j < |s| - 1 ensures CodeLess(s[1..][i].code, s[1..][j].code) {
      assert s[1..][i] == s[i + 1] && s[1..][j] == s[j + 1];
    }
  }

  /** Two strictly code-ordered arrangements of the same courses are the same sequence:
      the sorted result does not depend on the sorting algorithm. */
  lemma {:induction false} StrictOrderUnique(a: seq<Course>, b: seq<Course>)
    requires StrictlyByCode(a) && StrictlyByCode(b)
    requires multiset(a) == multiset(b)
    ensures a == b
    decreases |a|
  {
    if a == [] {
      assert |multiset(b)| == 0;
    } else {
      SameFirst(a, b);
      assert a == [a[0]] + a[1..] && b == [b[0]] + b[1..];
      assert multiset(a[1..]) == multiset(a) - multiset{a[0]};
      assert multiset(b[1..]) == multiset(b) - multiset{b[0]};
      StrictTail(a);
      StrictTail(b);
      StrictOrderUnique(a[1..], b[1..]);
    }
  }

  lemma StrictSorted(s: seq<Course>)
    requires StrictlyByCode(s)
    ensures SortedByCode(s)
  {
    forall i, j | 0 <= i < j < |s| ensures !CodeLess(s[j].code, s[i].code) {
      CodeLessAsymmetric(s[i].code, s[j].code);
    }
  }

  /** A strictly ordered sequence has no two courses with one code. */
  lemma StrictDistinct(s: seq<Course>)
    requires StrictlyByCode(s)
    ensures DistinctCodes(s)
  {
    forall i, j | 0 <= i < j < |s| ensures s[i].code != s[j].code {
      if s[i].code == s[j].code { CodeLessIrreflexive(s[i].code); }
    }
  }

  /** Deleting courses keeps the rest strictly ordered. */
  lemma {:induction false} SubsequenceStrict(a: seq<Course>, b: seq<Course>)
    requires IsSubsequence(a, b) && StrictlyByCode(b)
    ensures StrictlyByCode(a)
    decreases |b|
  {
    if a != [] {
      var a', b' := a[..|a| - 1], b[..|b| - 1];
      if a[|a| - 1] == b[|b| - 1] && IsSubsequence(a', b') {
        SubsequenceStrict(a', b');
        SubsequenceMembers(a', b');
        forall i | 0 <= i < |a'| ensures CodeLess(a[i].code, a[|a| - 1].code) {
          assert a[i] == a'[i];
          assert a'[i] in b';
        }
      } else {
        SubsequenceStrict(a, b');
      }
    }
  }

  /** Deleting courses keeps the remaining codes distinct. */
  lemma {:induction false} SubsequenceDistinct(a: seq<Course>, b: seq<Course>)
    requires IsSubsequence(a, b) && DistinctCodes(b)
    ensures DistinctCodes(a)
    decreases |b|
  {
    if a != [] {
      var a', b' := a[..|a| - 1], b[..|b| - 1];
      if a[|a| - 1] == b[|b| - 1] && IsSubsequence(a', b') {
        SubsequenceDistinct(a', b');
        SubsequenceMembers(a', b');
        forall i | 0 <= i < |a'| ensures a[i].code != a[|a| - 1].code {
          assert a[i] == a'[i];
          assert a'[i] in b';
        }
      } else {
        SubsequenceDistinct(a, b');
      }
    }
  }
}
