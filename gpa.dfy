/**
 * The GPA engine's arithmetic: a credit-weighted mean of grade points, and
 * the standing label a report derives from it. A student's grades enter as
 * entries, one per grade: its score and the credits of its course.
 */
module Gpa {

  import opened Rules

  /** One grade as the GPA sees it: the score and the credits of the grade's course. */
  datatype Entry = Entry(score: real, credits: int)

  /** The weighted points one grade contributes: its grade points times its course's credits. */
  function Weighted(e: Entry): real {
    ScorePoints(e.score) * (e.credits as real)
  }

  /** The sum of the weighted points of all entries. */
  function TotalPoints(es: seq<Entry>): real {
    if es == [] then 0.0 else TotalPoints(es[..|es| - 1]) + Weighted(es[|es| - 1])
  }

  /** The sum of the credits of all entries: a course counts once per grade recorded in it. */
  function TotalCredits(es: seq<Entry>): int {
    if es == [] then 0 else TotalCredits(es[..|es| - 1]) + es[|es| - 1].credits
  }

  /**
   * `calculate_gpa`'s result: total weighted points over total credits, and
   * exactly 0.0 when there are no grades or the credits do not add up to a
   * positive number.
   */
  function WeightedGpa(es: seq<Entry>): (g: real)
    ensures es == [] ==> g == 0.0
    ensures TotalCredits(es) <= 0 ==> g == 0.0
    ensures TotalCredits(es) > 0 ==> g * (TotalCredits(es) as real) == TotalPoints(es)
  {
    if es == [] then 0.0
    else if TotalCredits(es) > 0 then TotalPoints(es) / TotalCredits(es) as real
    else 0.0
  }

  datatype Standing = GoodStanding | AcademicProbation

  /** The standing label of a student report: good standing from a GPA of 2.0 upwards. */
  function StandingOf(gpa: real): (s: Standing)
    ensures s == GoodStanding <==> gpa >= 2.0
    ensures s == AcademicProbation <==> gpa < 2.0
  {
    if gpa >= 2.0 then GoodStanding else AcademicProbation
  }

  /** `total` lies between `lo` and `hi` times `t`. */
  ghost predicate Scaled(lo: real, hi: real, t: real, total: real) {
    lo * t <= total <= hi * t
  }

  /** When every grade earns between `lo` and `hi` points, the weighted points lie between `lo` and `hi` times the credits. */
  lemma {:induction false} PointsBetween(es: seq<Entry>, lo: real, hi: real)
    requires forall i :: 0 <= i < |es| ==> lo <= ScorePoints(es[i].score) <= hi && 0 <= es[i].credits
    ensures Scaled(lo, hi, TotalCredits(es) as real, TotalPoints(es))
  {
    if es == [] {
      assert lo * 0.0 == 0.0 == hi * 0.0;
    } else {
      var init, last := es[..|es| - 1], es[|es| - 1];
      assert forall i :: 0 <= i < |init| ==> init[i] == es[i];
      PointsBetween(init, lo, hi);
      StepBetween(lo, hi, ScorePoints(last.score), last.credits as real,
                  TotalCredits(init) as real, TotalPoints(init),
                  TotalCredits(es) as real, TotalPoints(es));
    }
  }

  lemma StepBetween(lo: real, hi: real, points: real, c: real, t: real, total: real, t': real, total': real)
    requires Scaled(lo, hi, t, total)
    requires lo <= points <= hi && 0.0 <= c
    requires t' == t + c && total' == total + points * c
    ensures Scaled(lo, hi, t', total')
  {
    assert lo * c <= points * c <= hi * c;
  }

  /** A quotient of a total that lies between `lo` and `hi` times a positive divisor lies between `lo` and `hi`. */
  lemma QuotientBetween(p: real, t: real, g: real, lo: real, hi: real)
    requires t > 0.0 && g * t == p
    requires Scaled(lo, hi, t, p)
    ensures lo <= g <= hi
  {
  }

  /** With no negative credits the GPA lies on the 0 to 4 scale. */
  lemma GpaInRange(es: seq<Entry>)
    requires forall i :: 0 <= i < |es| ==> 0 <= es[i].credits
    ensures 0.0 <= WeightedGpa(es) <= 4.0
  {
    if TotalCredits(es) > 0 {
      PointsBetween(es, 0.0, 4.0);
      QuotientBetween(TotalPoints(es), TotalCredits(es) as real, WeightedGpa(es), 0.0, 4.0);
    }
  }

  /** A student whose every grade is a C or better, in courses with credits, is in good standing. */
  lemma AllCOrBetterIsGoodStanding(es: seq<Entry>)
    requires es != []
    requires forall i :: 0 <= i < |es| ==> 70.0 <= es[i].score && 0 < es[i].credits
    ensures StandingOf(WeightedGpa(es)) == GoodStanding
  {
    PositiveCredits(es);
    PointsBetween(es, 2.0, 4.0);
    QuotientBetween(TotalPoints(es), TotalCredits(es) as real, WeightedGpa(es), 2.0, 4.0);
  }

  lemma {:induction false} PositiveCredits(es: seq<Entry>)
    requires es != []
    requires forall i :: 0 <= i < |es| ==> 0 < es[i].credits
    ensures TotalCredits(es) > 0
  {
    if |es| > 1 {
      PositiveCredits(es[..|es| - 1]);
    }
  }

  /** Taking one entry out of a sequence takes its points and its credits out of the totals. */
  lemma {:induction false} TotalsWithout(es: seq<Entry>, j: nat)
    requires j < |es|
    ensures TotalPoints(es) == TotalPoints(es[..j] + es[j + 1..]) + Weighted(es[j])
    ensures TotalCredits(es) == TotalCredits(es[..j] + es[j + 1..]) + es[j].credits
  {
    var init, last := es[..|es| - 1], es[|es| - 1];
    if j == |es| - 1 {
      assert es[..j] + es[j + 1..] == init;
    } else {
      TotalsWithout(init, j);
      var rest := init[..j] + init[j + 1..];
      assert es[..j] + es[j + 1..] == rest + [last];
      assert (rest + [last])[..|rest|] == rest;
    }
  }

  /** The grade query has no order: any arrangement of the same grades gives the same totals. */
  lemma {:induction false} TotalsIgnoreOrder(es: seq<Entry>, fs: seq<Entry>)
    requires multiset(es) == multiset(fs)
    ensures TotalPoints(es) == TotalPoints(fs)
    ensures TotalCredits(es) == TotalCredits(fs)
  {
    if es == [] {
      assert |fs| == |multiset(fs)| == 0;
    } else {
      var init, last := es[..|es| - 1], es[|es| - 1];
      assert last in multiset(fs) by {
        assert es == init + [last];
      }
      var j :| 0 <= j < |fs| && fs[j] == last;
      var rest := fs[..j] + fs[j + 1..];
      RemoveMatching(es, fs, j);
      TotalsIgnoreOrder(init, rest);
      TotalsWithout(fs, j);
    }
  }

  /** Taking one matching element out of both sides keeps two multisets equal. */
  lemma RemoveMatching<T>(es: seq<T>, fs: seq<T>, j: nat)
    requires multiset(es) == multiset(fs) && es != []
    requires j < |fs| && fs[j] == es[|es| - 1]
    ensures multiset(es[..|es| - 1]) == multiset(fs[..j] + fs[j + 1..])
  {
    var init, last, rest := es[..|es| - 1], es[|es| - 1], fs[..j] + fs[j + 1..];
    assert es == init + [last];
    assert fs == fs[..j] + [fs[j]] + fs[j + 1..];
    assert multiset(rest) == multiset(fs[..j]) + multiset(fs[j + 1..]);
    assert multiset(init) == multiset(es) - multiset{last};
    assert multiset(rest) == multiset(fs) - multiset{last};
  }

  /** Any arrangement of the same grades gives the same GPA. */
  lemma GpaIgnoresOrder(es: seq<Entry>, fs: seq<Entry>)
    requires multiset(es) == multiset(fs)
    ensures WeightedGpa(es) == WeightedGpa(fs)
  {
    TotalsIgnoreOrder(es, fs);
    assert es == [] <==> fs == [] by {
      assert |es| == |multiset(es)| && |fs| == |multiset(fs)|;
    }
  }

  /** Scores 95 (3 credits) and 70 (4 credits): (4 * 3 + 2 * 4) / 7 = 20/7. */
  lemma TwoCourseExample()
    ensures WeightedGpa([Entry(95.0, 3), Entry(70.0, 4)]) == 20.0 / 7.0
  {
    var es := [Entry(95.0, 3), Entry(70.0, 4)];
    assert es[..1] == [Entry(95.0, 3)];
    assert TotalPoints(es) == 20.0 && TotalCredits(es) == 7;
  }

  /** CS101 scored 92 (3 credits) and MATH201 scored 55 (4 credits): GPA 12/7, on probation. */
  lemma ProbationExample()
    ensures WeightedGpa([Entry(92.0, 3), Entry(55.0, 4)]) == 12.0 / 7.0
    ensures StandingOf(WeightedGpa([Entry(92.0, 3), Entry(55.0, 4)])) == AcademicProbation
  {
    var es := [Entry(92.0, 3), Entry(55.0, 4)];
    assert es[..1] == [Entry(92.0, 3)];
    assert TotalPoints(es) == 12.0 && TotalCredits(es) == 7;
  }

  /** Two grades in one 3-credit course count its credits twice: (4 * 3 + 3 * 3) / 6 = 3.5. */
  lemma RepeatedCourseExample()
    ensures WeightedGpa([Entry(95.0, 3), Entry(85.0, 3)]) == 3.5
  {
    var es := [Entry(95.0, 3), Entry(85.0, 3)];
    assert es[..1] == [Entry(95.0, 3)];
    assert TotalPoints(es) == 21.0 && TotalCredits(es) == 6;
  }

  /** Credits that cancel out give a GPA of exactly 0.0, whatever the scores. */
  lemma CancellingCreditsExample()
    ensures WeightedGpa([Entry(95.0, 3), Entry(95.0, -3)]) == 0.0
  {
    var es := [Entry(95.0, 3), Entry(95.0, -3)];
    assert es[..1] == [Entry(95.0, 3)];
    assert TotalCredits(es) == 0;
  }
}
