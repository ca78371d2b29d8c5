/** Does the order of the rules matter to the risk engine? To the hits and counts never; to the score
    and grade it may, because each addition of points is rounded. */
module RuleOrder {
  import opened Reports
  import opened Floats
  import opened Risk

  /* ---------- the same rules make the same hits ---------- */

  ghost function HitBag(rules: seq<Rule>, results: Results): multiset<Hit> {
    multiset(Hits(rules, results))
  }

  /** A list without element i, without its last element. */
  lemma WithoutThenFront<T>(s: seq<T>, i: nat)
    requires i < |s| - 1
    ensures
      var n, fewer := |s| - 1, s[..i] + s[i + 1..];
      |fewer| == n && fewer[..n - 1] == s[..n][..i] + s[..n][i + 1..] && fewer[n - 1] == s[n]
  {}

  lemma {:induction false} HitsWithout(rules: seq<Rule>, results: Results, i: nat)
    requires i < |rules|
    ensures HitBag(rules, results) == HitBag(rules[..i] + rules[i + 1..], results) + multiset(HitOf(rules[i], results))
  {
    hide Hits, HitOf;
    var n := |rules| - 1;
    var fewer := rules[..i] + rules[i + 1..];
    HitsLast(rules, results);
    if i == n {
      assert fewer == rules[..n];
    } else {
      HitsWithout(rules[..n], results, i);
      WithoutThenFront(rules, i);
      HitsLast(fewer, results);
    }
  }

  /** Two lists of the same elements: the last of one is somewhere in the other, and the rest agree. */
  lemma TakeOut<T>(a: seq<T>, b: seq<T>) returns (i: nat)
    requires a != [] && multiset(a) == multiset(b)
    ensures i < |b| && b[i] == a[|a| - 1]
    ensures multiset(a[..|a| - 1]) == multiset(b[..i] + b[i + 1..])
  {
    var x := a[|a| - 1];
    assert x in multiset(b);
    i :| 0 <= i < |b| && b[i] == x;
    assert a == a[..|a| - 1] + [x];
    assert b == b[..i] + [x] + b[i + 1..];
    var p, q := multiset(a[..|a| - 1]), multiset(b[..i] + b[i + 1..]);
    assert p + multiset{x} == q + multiset{x};
    assert p == p + multiset{x} - multiset{x} && q == q + multiset{x} - multiset{x};
  }

  lemma {:induction false} SameRulesSameHits(rules: seq<Rule>, rules': seq<Rule>, results: Results)
    requires multiset(rules) == multiset(rules')
    ensures HitBag(rules, results) == HitBag(rules', results)
    decreases |rules|
  {
    if rules == [] {
      assert |multiset(rules')| == 0;
    } else {
      var n := |rules| - 1;
      var i := TakeOut(rules, rules');
      hide Hits, HitOf;
      SameRulesSameHits(rules[..n], rules'[..i] + rules'[i + 1..], results);
      HitsWithout(rules', results, i);
      HitsLast(rules, results);
    }
  }

  lemma {:induction false} CountWithout(hits: seq<Hit>, i: nat, s: Severity)
    requires i < |hits|
    ensures Count(hits, s) == Count(hits[..i] + hits[i + 1..], s) + if hits[i].severity == s then 1 else 0
    ensures Sum(hits) == Sum(hits[..i] + hits[i + 1..]) + hits[i].points
  {
    hide Count, Sum;
    var n := |hits| - 1;
    var fewer := hits[..i] + hits[i + 1..];
    PushSum(hits[..n], hits[n], s);
    assert hits == hits[..n] + [hits[n]];
    if i == n {
      assert fewer == hits[..n];
    } else {
      CountWithout(hits[..n], i, s);
      WithoutThenFront(hits, i);
      PushSum(fewer[..n - 1], hits[n], s);
      assert fewer == fewer[..n - 1] + [hits[n]];
    }
  }

  /** The sum of the points, not rounded. */
  function Sum(hits: seq<Hit>): nat {
    if hits == [] then 0 else Sum(hits[..|hits| - 1]) + hits[|hits| - 1].points
  }

  lemma PushSum(hits: seq<Hit>, h: Hit, s: Severity)
    ensures Sum(hits + [h]) == Sum(hits) + h.points
    ensures Count(hits + [h], s) == Count(hits, s) + if h.severity == s then 1 else 0
  {
    assert (hits + [h])[..|hits|] == hits;
  }

  lemma {:induction false} SameHitsSameSum(hits: seq<Hit>, hits': seq<Hit>, s: Severity)
    requires multiset(hits) == multiset(hits')
    ensures Sum(hits) == Sum(hits') && Count(hits, s) == Count(hits', s)
    decreases |hits|
  {
    hide Sum, Count;
    if hits == [] {
      assert |multiset(hits')| == 0;
    } else {
      var n := |hits| - 1;
      var i := TakeOut(hits, hits');
      SameHitsSameSum(hits[..n], hits'[..i] + hits'[i + 1..], s);
      CountWithout(hits', i, s);
      PushSum(hits[..n], hits[n], s);
      assert hits == hits[..n] + [hits[n]];
    }
  }

  /** The hits and their severity counts are the same for any order of the rules. */
  lemma HitsIgnoreOrder(rules: seq<Rule>, rules': seq<Rule>, results: Results, s: Severity)
    requires multiset(rules) == multiset(rules')
    ensures multiset(Hits(rules, results)) == multiset(Hits(rules', results))
    ensures Count(Hits(rules, results), s) == Count(Hits(rules', results), s)
  {
    SameRulesSameHits(rules, rules', results);
    SameHitsSameSum(Hits(rules, results), Hits(rules', results), s);
  }

  /* ---------- points that add up exactly ---------- */

  /** All points are multiples of `unit`. */
  ghost predicate InUnits(hits: seq<Hit>, unit: nat)
    requires unit >= 1
  {
    forall i | 0 <= i < |hits| :: hits[i].points % unit == 0
  }

  lemma InUnitsFront(hits: seq<Hit>, unit: nat)
    requires unit >= 1 && hits != [] && InUnits(hits, unit)
    ensures InUnits(hits[..|hits| - 1], unit) && hits[|hits| - 1].points % unit == 0
  {}

  lemma {:induction false} SumInUnits(hits: seq<Hit>, unit: nat)
    requires unit >= 1 && InUnits(hits, unit)
    ensures Sum(hits) % unit == 0
  {
    if hits != [] {
      InUnitsFront(hits, unit);
      SumInUnits(hits[..|hits| - 1], unit);
      var _ := SumOfMultiples(Sum(hits[..|hits| - 1]), hits[|hits| - 1].points, unit);
    }
  }

  /** Up to 2^53 + 1 units in all, only the last addition rounds. */
  lemma {:induction false} TotalIsRoundedSum(hits: seq<Hit>, unit: nat)
    requires IsPow2(unit) && InUnits(hits, unit) && Sum(hits) <= (PRECISION + 1) * unit
    ensures Total(hits) == Rounded(Sum(hits))
  {
    hide Rounded, InUnits;
    if hits == [] {
      RepresentableIsFixed(0);
    } else {
      var front, p := hits[..|hits| - 1], hits[|hits| - 1].points;
      InUnitsFront(hits, unit);
      TotalIsRoundedSum(front, unit);
      SumInUnits(front, unit);
      if p == 0 {
        PlusZero(Total(front));
      } else {
        AtLeastOneUnit(p, unit);
        MultipleIsFixed(Sum(front), unit);
      }
    }
  }

  lemma AtLeastOneUnit(p: nat, unit: nat)
    requires unit >= 1 && p % unit == 0 && p > 0
    ensures p >= unit
  {}

  lemma MultipleIsFixed(n: nat, unit: nat)
    requires IsPow2(unit) && n % unit == 0 && n <= PRECISION * unit
    ensures Rounded(n) == n
  {
    hide Rounded;
    var q := n / unit;
    assert n == q * unit;
    AtMost(q, PRECISION, unit);
    MultipleIsRepresentable(q, unit);
    RepresentableIsFixed(n);
  }

  /** Up to 2^53 units nothing is rounded, and what goes beyond never comes back. */
  lemma {:induction false} TotalUpToTop(hits: seq<Hit>, unit: nat)
    requires IsPow2(unit) && InUnits(hits, unit)
    ensures if Sum(hits) <= PRECISION * unit then Total(hits) == Sum(hits) else Total(hits) >= PRECISION * unit
  {
    hide InUnits, Plus;
    if hits != [] {
      var front, p := hits[..|hits| - 1], hits[|hits| - 1].points;
      InUnitsFront(hits, unit);
      TotalUpToTop(front, unit);
      SumInUnits(front, unit);
      NextUpToTop(Total(front), p, unit);
      if Sum(front) <= PRECISION * unit && Sum(hits) <= PRECISION * unit {
        PlusIsExact(Total(front), p, unit);
      }
    }
  }

  /** A sum of at least 2^53 units rounds to at least as many. */
  lemma NextUpToTop(a: Float, b: Float, unit: nat)
    requires IsPow2(unit)
    ensures a + b >= PRECISION * unit ==> Plus(a, b) >= PRECISION * unit
  {
    hide Rounded, IsPow2;
    if a + b >= PRECISION * unit {
      MultipleIsRepresentable(PRECISION, unit);
      RepresentableIsFixed(PRECISION * unit);
      RoundedIsMonotone(PRECISION * unit, a + b);
    }
  }

  /** The sum, rounded once. */
  function RoundedSum(hits: seq<Hit>): Float {
    RoundedIsRepresentable(Sum(hits));
    Rounded(Sum(hits))
  }

  /** The sum is short of 2^53 + 2 units, or the cap is within 2^53 of them. */
  ghost predicate Safe(unit: nat, limit: nat) {
    limit < (PRECISION + 2) * unit || Whole(100) <= PRECISION * unit
  }

  /** Then the score is the capped sum, rounded once. */
  lemma ScoreIsSum(hits: seq<Hit>, unit: nat)
    requires IsPow2(unit) && InUnits(hits, unit) && Safe(unit, Sum(hits))
    ensures Score(hits) == Cap(RoundedSum(hits))
  {
    hide Total, Sum, Whole, InUnits, Rounded;
    if Sum(hits) < (PRECISION + 2) * unit {
      BelowNextUnit(hits, unit);
      TotalIsRoundedSum(hits, unit);
    } else {
      TotalUpToTop(hits, unit);
      SumInUnits(hits, unit);
      MultipleIsRepresentable(PRECISION, unit);
      RepresentableIsFixed(PRECISION * unit);
      Times(PRECISION, PRECISION + 2, unit);
      RoundedIsMonotone(PRECISION * unit, Sum(hits));
    }
  }

  lemma BelowNextUnit(hits: seq<Hit>, unit: nat)
    requires unit >= 1 && InUnits(hits, unit) && Sum(hits) < (PRECISION + 2) * unit
    ensures Sum(hits) <= (PRECISION + 1) * unit
  {
    hide Sum;
    SumInUnits(hits, unit);
    var q := Sum(hits) / unit;
    assert Sum(hits) == q * unit;
    FewerTimes(q, PRECISION + 2, unit);
    Times(q, PRECISION + 1, unit);
  }

  /** As a caller can check it on the rules alone: the points of all rules are multiples of one power of
      two, and either their sum is short of 2^53 + 2 of it or 100 is within 2^53 of it. Whole points are
      such, whatever their sum. */
  ghost predicate ExactPoints(rules: seq<Rule>, unit: nat) {
    IsPow2(unit) && RulesInUnits(rules, unit) && Safe(unit, SumOfRules(rules))
  }

  function PointsOrNone(rule: Rule): Float {
    if rule.points.Points? then rule.points.value else 0
  }

  function SumOfRules(rules: seq<Rule>): nat {
    if rules == [] then 0 else SumOfRules(rules[..|rules| - 1]) + PointsOrNone(rules[|rules| - 1])
  }

  ghost predicate RulesInUnits(rules: seq<Rule>, unit: nat)
    requires unit >= 1
  {
    forall i | 0 <= i < |rules| && rules[i].points.Points? :: rules[i].points.value % unit == 0
  }

  lemma {:induction false} HitsAreInUnits(rules: seq<Rule>, results: Results, unit: nat)
    requires unit >= 1 && RulesInUnits(rules, unit)
    ensures InUnits(Hits(rules, results), unit) && Sum(Hits(rules, results)) <= SumOfRules(rules)
  {
    hide Hits, Sum, InUnits, SumOfRules, HitOf;
    if rules == [] {
      NothingInUnits(results, unit);
    } else {
      var front, rule := rules[..|rules| - 1], rules[|rules| - 1];
      HitsAreInUnits(front, results, unit);
      HitsLast(rules, results);
      OneMoreInUnits(Hits(front, results), rule, results, unit);
      SumOfRulesLast(rules);
    }
  }

  lemma NothingInUnits(results: Results, unit: nat)
    requires unit >= 1
    ensures InUnits(Hits([], results), unit) && Sum(Hits([], results)) == 0
  {}

  lemma SumOfRulesLast(rules: seq<Rule>)
    requires rules != []
    ensures SumOfRules(rules) == SumOfRules(rules[..|rules| - 1]) + PointsOrNone(rules[|rules| - 1])
  {}

  lemma OneMoreInUnits(hits: seq<Hit>, rule: Rule, results: Results, unit: nat)
    requires unit >= 1 && InUnits(hits, unit) && (rule.points.Points? ==> rule.points.value % unit == 0)
    ensures InUnits(hits + HitOf(rule, results), unit)
    ensures Sum(hits + HitOf(rule, results)) == Sum(hits) + if Scores(rule, results) then rule.points.value else 0
  {
    hide Sum;
    if Scores(rule, results) {
      PushSum(hits, HitOf(rule, results)[0], Info);
    } else {
      assert hits + HitOf(rule, results) == hits;
    }
  }

  /** Such rules give the same score and grade in any order. */
  lemma RuleOrderIsIrrelevant(rules: seq<Rule>, rules': seq<Rule>, results: Results, unit: nat)
    requires multiset(rules) == multiset(rules') && ExactPoints(rules, unit)
    ensures
      var hits, hits' := Hits(rules, results), Hits(rules', results);
      && Score(hits) == Score(hits') == Cap(RoundedSum(hits))
      && FinalGrade(hits) == FinalGrade(hits')
  {
    hide Hits, Sum, Safe, Score, FinalGrade;
    var hits, hits' := Hits(rules, results), Hits(rules', results);
    SameRulesSameHits(rules, rules', results);
    HitsAreInUnits(rules, results, unit);
    SafeBelow(unit, Sum(hits), SumOfRules(rules));
    SafeHits(hits, hits', unit);
  }

  lemma SafeBelow(unit: nat, less: nat, limit: nat)
    requires less <= limit && Safe(unit, limit)
    ensures Safe(unit, less)
  {}

  /** Two orders of the same hits. */
  lemma SafeHits(hits: seq<Hit>, hits': seq<Hit>, unit: nat)
    requires IsPow2(unit) && multiset(hits) == multiset(hits') && InUnits(hits, unit) && Safe(unit, Sum(hits))
    ensures Score(hits) == Score(hits') == Cap(RoundedSum(hits)) && FinalGrade(hits) == FinalGrade(hits')
  {
    hide Score, Sum, Safe, Cap, ScoreToGrade;
    SameHitsSameSum(hits, hits', Critical);
    SameUnits(hits, hits', unit);
    ScoreIsSum(hits, unit);
    ScoreIsSum(hits', unit);
  }

  lemma SameUnits(hits: seq<Hit>, hits': seq<Hit>, unit: nat)
    requires unit >= 1 && InUnits(hits, unit) && multiset(hits) == multiset(hits')
    ensures InUnits(hits', unit)
  {
    forall i | 0 <= i < |hits'| ensures hits'[i].points % unit == 0 {
      assert hits'[i] in multiset(hits);
    }
  }

  /** Whole points are exact, whatever they sum to. */
  lemma WholePointsAreExact(rules: seq<Rule>)
    requires RulesInUnits(rules, Pow2(LEAST_EXPONENT))
    ensures ExactPoints(rules, Pow2(LEAST_EXPONENT))
  {
    hide Pow2, IsPow2, RulesInUnits;
    Pow2IsPow2(LEAST_EXPONENT);
    Times(100, PRECISION, Pow2(LEAST_EXPONENT));
  }

  /** The default rules have whole points: no reordering of them changes a score or grade. */
  lemma DefaultPointsAreExact()
    ensures ExactPoints(RULE_REGISTRY, Pow2(LEAST_EXPONENT))
  {
    hide Pow2, IsPow2, Representable, ExactPoints;
    var one := Pow2(LEAST_EXPONENT);
    forall i | 0 <= i < |RULE_REGISTRY|
      ensures RULE_REGISTRY[i].points.Points? && RULE_REGISTRY[i].points.value % one == 0
    {
      PointsOf(i);
      MultipleInUnits(POINTS[i], one);
    }
    WholePointsAreExact(RULE_REGISTRY);
  }

  lemma MultipleInUnits(q: nat, unit: nat)
    requires unit >= 1
    ensures (q * unit) % unit == 0
  {
    DivMod(q * unit, unit, q, 0);
  }

  /* ---------- and exactly those ---------- */

  /** No reordering of hits in this unit, with at most this sum, changes the score. */
  ghost predicate ScoreIsSafe(unit: nat, limit: nat)
    requires unit >= 1
  {
    forall hits, hits' | multiset(hits) == multiset(hits') && InUnits(hits, unit) && Sum(hits) <= limit ::
      Score(hits) == Score(hits')
  }

  /** No reordering of hits in this unit changes the score. */
  ghost predicate AnyScoreIsSafe(unit: nat)
    requires unit >= 1
  {
    forall hits, hits' | multiset(hits) == multiset(hits') && InUnits(hits, unit) :: Score(hits) == Score(hits')
  }

  /** No reordering of hits in this unit changes the grade. */
  ghost predicate AnyGradeIsSafe(unit: nat)
    requires unit >= 1
  {
    forall hits, hits' | multiset(hits) == multiset(hits') && InUnits(hits, unit) ::
      FinalGrade(hits) == FinalGrade(hits')
  }

  function OneHit(points: Float): Hit {
    Hit("r", Low, points)
  }

  lemma TotalOfThree(a: Float, b: Float, c: Float)
    ensures
      var hits := [OneHit(a), OneHit(b), OneHit(c)];
      Total(hits) == Plus(Plus(a, b), c) && Sum(hits) == a + b + c
  {
    hide Plus;
    var x, y, z := OneHit(a), OneHit(b), OneHit(c);
    hide Total, Sum;
    NoHitsYet();
    assert [] + [x] == [x] && [x] + [y] == [x, y] && [x, y] + [z] == [x, y, z];
    PushHit([], x);
    PushHit([x], y);
    PushHit([x, y], z);
    PushSum([], x, Low);
    PushSum([x], y, Low);
    PushSum([x, y], z, Low);
    PlusZero(a);
  }

  lemma NoHitsYet()
    ensures Total([]) == 0 == Sum([])
  {}

  /** 2^53 units and two more: one at a time the two are rounded away, together they are not. */
  lemma TwoUnitsAreLost(unit: nat)
    requires IsPow2(unit)
    ensures Representable(unit) && Representable(PRECISION * unit)
    ensures Plus(Plus(PRECISION * unit, unit), unit) == PRECISION * unit < Plus(Plus(unit, unit), PRECISION * unit)
  {
    hide Rounded, Representable;
    MultipleIsRepresentable(1, unit);
    MultipleIsRepresentable(PRECISION, unit);
    TieGoesDown(unit);
    MultipleIsFixed2(unit);
    var top: Float, one: Float := PRECISION * unit, unit;
    assert Plus(top, one) == top;
    assert Plus(one, one) == 2 * unit;
    assert Plus(Plus(one, one), top) == 2 * unit + top;
  }

  lemma TieGoesDown(unit: nat)
    requires IsPow2(unit)
    ensures Rounded(PRECISION * unit + unit) == PRECISION * unit
  {
    DoubleIsPow2(unit);
    hide Rounded, IsPow2;
    RoundsAs(PRECISION / 2, unit, 2 * unit);
    Regroup(PRECISION / 2, 2, unit);
  }

  lemma DoubleIsPow2(unit: nat)
    requires IsPow2(unit)
    ensures IsPow2(2 * unit)
  {}

  lemma MultipleIsFixed2(unit: nat)
    requires IsPow2(unit)
    ensures Rounded(2 * unit) == 2 * unit && Rounded(2 * unit + PRECISION * unit) == 2 * unit + PRECISION * unit
  {
    hide Rounded;
    DoubleIsPow2(unit);
    MultipleIsRepresentable(1, 2 * unit);
    MultipleIsRepresentable(PRECISION / 2 + 1, 2 * unit);
    RepresentableIsFixed(2 * unit);
    RepresentableIsFixed((PRECISION / 2 + 1) * (2 * unit));
  }

  /** The score of hits in a unit is independent of order exactly under that limit: the sum is short of
      2^53 + 2 units, or 100 is within 2^53 of them. */
  lemma ScoreIsSafeIff(unit: nat, limit: nat)
    requires IsPow2(unit)
    ensures ScoreIsSafe(unit, limit) <==> Safe(unit, limit)
  {
    hide Score, Sum, InUnits, Safe, FinalGrade;
    if Safe(unit, limit) {
      forall hits, hits' | multiset(hits) == multiset(hits') && InUnits(hits, unit) && Sum(hits) <= limit
        ensures Score(hits) == Score(hits')
      {
        SafeBelow(unit, Sum(hits), limit);
        SafeHits(hits, hits', unit);
      }
    } else {
      UnsafeHits(unit, limit);
    }
  }

  lemma UnsafeHits(unit: nat, limit: nat)
    requires IsPow2(unit)
    ensures Safe(unit, limit) || !ScoreIsSafe(unit, limit)
  {
    hide Total, Sum, InUnits, IsPow2, Representable, Plus, Whole;
    if !Safe(unit, limit) {
      TwoUnitsAreLost(unit);
      var top: Float, one: Float := PRECISION * unit, unit;
      var big, small := OneHit(top), OneHit(one);
      TotalOfThree(top, one, one);
      TotalOfThree(one, one, top);
      assert multiset([big, small, small]) == multiset([small, small, big]);
      MultipleInUnits(PRECISION, unit);
      MultipleInUnits(1, unit);
      ThreeInUnits(top, one, one, unit);
      assert PRECISION * unit + unit + unit == (PRECISION + 2) * unit;
      assert Score([big, small, small]) != Score([small, small, big]);
    }
  }

  lemma ThreeInUnits(a: Float, b: Float, c: Float, unit: nat)
    requires unit >= 1 && a % unit == 0 && b % unit == 0 && c % unit == 0
    ensures InUnits([OneHit(a), OneHit(b), OneHit(c)], unit)
  {}

  /** With no limit on the sum, score and grade of hits in a unit are independent of order exactly when
      100 is within 2^53 units. */
  lemma AnyIsSafeIff(unit: nat)
    requires IsPow2(unit)
    ensures AnyScoreIsSafe(unit) <==> Whole(100) <= PRECISION * unit
    ensures AnyGradeIsSafe(unit) <==> Whole(100) <= PRECISION * unit
  {
    hide Score, FinalGrade, InUnits, Whole;
    if Whole(100) <= PRECISION * unit {
      forall hits, hits' | multiset(hits) == multiset(hits') && InUnits(hits, unit)
        ensures Score(hits) == Score(hits') && FinalGrade(hits) == FinalGrade(hits')
      {
        SafeHits(hits, hits', unit);
      }
    } else {
      FineUnits(unit);
      SeventyOrLess();
      var hits, hits' := SEVENTY_LESS_TWO, SEVENTY;
      assert multiset(hits) == multiset(hits');
      SameGradeSameScore(hits, hits');
    }
  }

  /** Hits of one bag that score alike are graded alike. */
  lemma SameGradeSameScore(hits: seq<Hit>, hits': seq<Hit>)
    requires multiset(hits) == multiset(hits') && FinalGrade(hits) != FinalGrade(hits')
    ensures Score(hits) != Score(hits')
  {
    hide Score, ScoreToGrade;
    SameHitsSameSum(hits, hits', Critical);
  }

  /** The coarsest unit of which 100 is more than 2^53. */
  const FINE: nat := Pow2(1027)

  /** 70 less four such units, and one and two of them. */
  const NEARLY := Scaled(4925812092436478, 1028)
  const A_UNIT := Scaled(1, 1027)
  const TWO_UNITS := Scaled(1, 1028)

  const SEVENTY_LESS_TWO := [OneHit(NEARLY), OneHit(A_UNIT), OneHit(TWO_UNITS)]
  const SEVENTY := [OneHit(A_UNIT), OneHit(TWO_UNITS), OneHit(NEARLY)]

  /** No reordering of n hits changes the score, whatever their points. */
  ghost predicate ScoreNeverDepends(n: nat) {
    forall hits, hits' | |hits| == n && multiset(hits) == multiset(hits') :: Score(hits) == Score(hits')
  }

  /** No reordering of n hits changes the grade, whatever their points. */
  ghost predicate GradeNeverDepends(n: nat) {
    forall hits, hits' | |hits| == n && multiset(hits) == multiset(hits') :: FinalGrade(hits) == FinalGrade(hits')
  }

  /** With any points at all, score and grade are independent of order exactly for up to two hits. */
  lemma OrderNeverMattersIff(n: nat)
    ensures ScoreNeverDepends(n) <==> n <= 2
    ensures GradeNeverDepends(n) <==> n <= 2
  {
    hide Total, FinalGrade, Score, Representable, Pow2, Scaled, Idle;
    if n <= 2 {
      forall hits, hits' | |hits| == n && multiset(hits) == multiset(hits')
        ensures Score(hits) == Score(hits') && FinalGrade(hits) == FinalGrade(hits')
      {
        AtMostTwo(hits, hits');
        SameTotalSameGrade(hits, hits');
      }
    } else {
      SeventyOrLess();
      var idle := Idle(n - 3);
      IdleChangesNothing(SEVENTY_LESS_TWO, n - 3);
      IdleChangesNothing(SEVENTY, n - 3);
      assert multiset(SEVENTY_LESS_TWO) == multiset(SEVENTY);
      DependsOnOrder(n, SEVENTY_LESS_TWO + idle, SEVENTY + idle);
    }
  }

  lemma DependsOnOrder(n: nat, hits: seq<Hit>, hits': seq<Hit>)
    requires |hits| == n && multiset(hits) == multiset(hits') && FinalGrade(hits) != FinalGrade(hits')
    ensures !ScoreNeverDepends(n) && !GradeNeverDepends(n)
  {
    hide Score, FinalGrade;
    SameGradeSameScore(hits, hits');
  }

  lemma SameTotalSameGrade(hits: seq<Hit>, hits': seq<Hit>)
    requires multiset(hits) == multiset(hits') && Total(hits) == Total(hits')
    ensures Score(hits) == Score(hits') && FinalGrade(hits) == FinalGrade(hits')
  {
    hide ScoreToGrade, Cap, Total;
    SameHitsSameSum(hits, hits', Critical);
  }

  lemma AtMostTwo(hits: seq<Hit>, hits': seq<Hit>)
    requires |hits| <= 2 && multiset(hits) == multiset(hits')
    ensures Total(hits) == Total(hits')
  {
    hide Plus;
    assert |multiset(hits)| == |hits| && |multiset(hits')| == |hits'|;
    if |hits| == 2 {
      var a, b := hits[0], hits[1];
      assert hits == [a, b];
      if hits' != hits {
        assert hits'[0] in multiset(hits) && hits'[1] in multiset(hits) && a in multiset(hits') && b in multiset(hits');
        assert hits' == [b, a];
        TotalOfTwo(a, b);
        TotalOfTwo(b, a);
        PlusCommutes(a.points, b.points);
      }
    } else if |hits| == 1 {
      assert hits[0] in multiset(hits');
      assert hits' == hits;
    }
  }

  lemma TotalOfTwo(a: Hit, b: Hit)
    ensures Total([a, b]) == Plus(a.points, b.points)
  {
    hide Plus, Total;
    NoHitsYet();
    assert [] + [a] == [a] && [a] + [b] == [a, b];
    PushHit([], a);
    PushHit([a], b);
    PlusZero(a.points);
  }

  function Idle(n: nat): seq<Hit> {
    if n == 0 then [] else Idle(n - 1) + [OneHit(0)]
  }

  lemma {:induction false} IdleAddsNothing(hits: seq<Hit>, n: nat)
    ensures |Idle(n)| == n && Total(hits + Idle(n)) == Total(hits)
    ensures Count(hits + Idle(n), Critical) == Count(hits, Critical)
  {
    hide Plus, Total, Count;
    if n == 0 {
      assert hits + Idle(0) == hits;
    } else {
      IdleAddsNothing(hits, n - 1);
      assert hits + Idle(n) == (hits + Idle(n - 1)) + [OneHit(0)];
      PushHit(hits + Idle(n - 1), OneHit(0));
      PlusZero(Total(hits));
    }
  }

  lemma IdleChangesNothing(hits: seq<Hit>, n: nat)
    ensures |Idle(n)| == n && FinalGrade(hits + Idle(n)) == FinalGrade(hits)
  {
    hide Total, Count, Idle, ScoreToGrade;
    IdleAddsNothing(hits, n);
  }

  /* ---------- 70, or a little less ---------- */

  lemma InFineUnits()
    ensures NEARLY == 9851624184872956 * FINE && A_UNIT == FINE && TWO_UNITS == 2 * FINE && IsPow2(FINE)
    ensures Whole(50) == 7036874417766400 * FINE && Whole(70) == 9851624184872960 * FINE
    ensures Whole(100) == 14073748835532800 * FINE
  {
    hide Pow2, IsPow2, Representable, Whole;
    Pow2IsPow2(1027);
    DoublePow2(1027);
    WholeInFineUnits(50);
    WholeInFineUnits(70);
    WholeInFineUnits(100);
  }

  lemma WholeInFineUnits(k: nat)
    requires k <= 100
    ensures Whole(k) == (k * 0x8000_0000_0000) * FINE
  {
    hide Pow2, Representable;
    Pow2Of47();
    Pow2Adds(47, 1027);
    Regroup(k, 0x8000_0000_0000, Pow2(1027));
  }

  lemma Pow2Of47()
    ensures Pow2(47) == 0x8000_0000_0000
  {
    assert Pow2(13) == 0x2000 && Pow2(8) == 0x100;
    hide Pow2;
    Pow2Adds(13, 13);
    Pow2Adds(26, 13);
    Pow2Adds(39, 8);
  }

  /** Any unit of which 100 is more than 2^53 divides these hits. */
  lemma FineUnits(unit: nat)
    requires IsPow2(unit) && PRECISION * unit < Whole(100)
    ensures InUnits(SEVENTY_LESS_TWO, unit)
  {
    InFineUnits();
    hide IsPow2, Scaled, Whole, Pow2, Representable;
    var m := DividesFine(unit);
    InMultiples(9851624184872956, m, unit);
    InMultiples(1, m, unit);
    InMultiples(2, m, unit);
    ThreeInUnits(NEARLY, A_UNIT, TWO_UNITS, unit);
  }

  lemma DividesFine(unit: nat) returns (m: nat)
    requires IsPow2(unit) && PRECISION * unit < Whole(100)
    ensures FINE == m * unit
  {
    InFineUnits();
    hide Whole, Pow2, Scaled, Representable;
    if FINE < unit {
      var k := Pow2Divides(FINE, unit);
      Times(2, k, FINE);
    }
    m := Pow2Divides(unit, FINE);
  }

  lemma InMultiples(a: nat, m: nat, unit: nat)
    requires unit >= 1
    ensures (a * (m * unit)) % unit == 0
  {
    Regroup(a, m, unit);
    MultipleInUnits(a * m, unit);
  }

  /** One order comes to 70 less two units, graded D, the other to 70, graded F. */
  lemma SeventyOrLess()
    ensures FinalGrade(SEVENTY_LESS_TWO) == D && FinalGrade(SEVENTY) == F
  {
    hide Total, Count, Whole, Plus, Scaled, FirstMet, Representable, Pow2, Sum;
    TotalOfThree(NEARLY, A_UNIT, TWO_UNITS);
    TotalOfThree(A_UNIT, TWO_UNITS, NEARLY);
    NoneCritical(SEVENTY_LESS_TWO);
    NoneCritical(SEVENTY);
    SeventyLessTwo();
    JustSeventy();
    ThresholdOrder();
    FirstMetIs(Plus(Plus(NEARLY, A_UNIT), TWO_UNITS));
    FirstMetIs(Whole(70));
  }

  lemma SeventyLessTwo()
    ensures Whole(50) <= Plus(Plus(NEARLY, A_UNIT), TWO_UNITS) < Whole(70)
  {
    hide Pow2, Rounded, Scaled, Whole, IsPow2, Representable;
    InFineUnits();
    DoubleIsPow2(FINE);
    var u := 2 * FINE;
    RoundsAs(4925812092436478, FINE, u);
    assert Plus(NEARLY, A_UNIT) == NEARLY;
    RoundsAs(4925812092436479, 0, u);
    assert Plus(NEARLY, TWO_UNITS) == 9851624184872958 * FINE;
  }

  lemma JustSeventy()
    ensures Plus(Plus(A_UNIT, TWO_UNITS), NEARLY) == Whole(70)
  {
    hide Pow2, Rounded, Scaled, Whole, IsPow2, Representable;
    InFineUnits();
    DoubleIsPow2(FINE);
    MultipleIsRepresentable(3, FINE);
    RepresentableIsFixed(3 * FINE);
    assert Plus(A_UNIT, TWO_UNITS) == 3 * FINE;
    RoundsAs(4925812092436479, FINE, 2 * FINE);
  }

  /* ---------- a grade that depends on the order ---------- */

  /** 11.7, 2.2 and 1.1 points. */
  const ELEVEN := Scaled(6586514455029350, 1025)
  const TWO := Scaled(4953959590107546, 1023)
  const ONE := Scaled(4953959590107546, 1022)

  const FIRING := (results: Results) => true

  function Rules(points: seq<Float>): seq<Rule> {
    seq(|points|, i requires 0 <= i < |points| => Rule("r", Low, Points(points[i]), FIRING))
  }

  lemma HitsOfThree(a: Float, b: Float, c: Float, results: Results)
    ensures Hits(Rules([a, b, c]), results) == [OneHit(a), OneHit(b), OneHit(c)]
    ensures Count(Hits(Rules([a, b, c]), results), Critical) == 0
  {
    var r := Rules([a, b, c]);
    assert r == [r[0], r[1], r[2]];
    assert r[..2] == [r[0], r[1]] && r[..2][..1] == [r[0]] && r[..2][..1][..0] == [];
    assert Hits(r[..2][..1], results) == [OneHit(a)];
    assert Hits(r[..2], results) == [OneHit(a), OneHit(b)];
    NoneCritical([OneHit(a), OneHit(b), OneHit(c)]);
  }

  lemma {:induction false} NoneCritical(hits: seq<Hit>)
    requires forall i | 0 <= i < |hits| :: hits[i].severity == Low
    ensures Count(hits, Critical) == 0
  {
    if hits != [] { NoneCritical(hits[..|hits| - 1]); }
  }

  /** All three in the unit of the smallest, 2^-52. */
  lemma InSmallUnits()
    ensures ELEVEN == 52692115640234800 * Pow2(1022) && TWO == 9907919180215092 * Pow2(1022)
    ensures ONE == 4953959590107546 * Pow2(1022)
  {
    hide Pow2;
    DoublePow2(1022);
    DoublePow2(1023);
    DoublePow2(1024);
  }

  lemma DoublePow2(k: nat)
    ensures Pow2(k + 1) == 2 * Pow2(k)
  {}

  lemma {:induction false} Pow2Adds(a: nat, b: nat)
    ensures Pow2(a + b) == Pow2(a) * Pow2(b)
  {
    if a > 0 { Pow2Adds(a - 1, b); }
  }

  lemma FifteenInSmallUnits()
    ensures Whole(15) == 15 * 0x10_0000_0000_0000 * Pow2(1022)
  {
    Pow2Of52();
    hide Pow2;
    Pow2Adds(52, 1022);
  }

  lemma Pow2Of52()
    ensures Pow2(52) == 0x10_0000_0000_0000
  {
    assert Pow2(13) == 0x2000;
    hide Pow2;
    Pow2Adds(13, 13);
    Pow2Adds(26, 26);
  }

  /** A sum between 2^55 and 2^56 small units, rounded to a multiple of eight of them. */
  lemma RoundsToEight(q: nat, r: nat, u: nat)
    requires IsPow2(u) && PRECISION / 2 <= q < PRECISION && r < 8
    ensures Rounded((8 * q + r) * u) == 8 * (if r > 4 || (r == 4 && q % 2 == 1) then q + 1 else q) * u
  {
    EightIsPow2(u);
    UpToEight(r, u);
    RoundsAs(q, r * u, 8 * u);
    hide Rounded, IsPow2;
    EightTimes(q, r, u);
    EightTimes(if r > 4 || (r == 4 && q % 2 == 1) then q + 1 else q, r, u);
  }

  lemma EightIsPow2(u: nat)
    requires IsPow2(u)
    ensures IsPow2(8 * u) && u >= 1
  {
    DoubleIsPow2(u);
    DoubleIsPow2(2 * u);
    DoubleIsPow2(4 * u);
  }

  lemma UpToEight(r: nat, u: nat)
    requires r < 8 && u >= 1
    ensures r * u < 8 * u && (2 * (r * u) > 8 * u <==> r > 4) && (2 * (r * u) == 8 * u <==> r == 4)
  {
    Apart(r - 8, u);
    Apart(r - 4, u);
    assert (r - 8) * u == r * u - 8 * u && (r - 4) * u == r * u - 4 * u;
  }

  lemma EightTimes(q: nat, r: nat, u: nat)
    ensures (8 * q + r) * u == q * (8 * u) + r * u && 8 * q * u == q * (8 * u)
  {}

  lemma PlusInEights(a: Float, b: Float, x: nat, y: nat, q: nat, r: nat, u: nat)
    requires IsPow2(u) && PRECISION / 2 <= q < PRECISION && r < 8
    requires a == x * u && b == y * u && x + y == 8 * q + r
    ensures Plus(a, b) == 8 * (if r > 4 || (r == 4 && q % 2 == 1) then q + 1 else q) * u
  {
    hide Rounded, IsPow2, Representable;
    assert a + b == (x + y) * u;
    RoundsToEight(q, r, u);
  }

  /** The order of three rules decides between A and B: 11.7 + 2.2 + 1.1 falls just short of 15, and
      11.7 + 1.1 + 2.2 does not. */
  lemma OrderDecidesGrade(results: Results)
    ensures
      var hits, hits' := Hits(Rules([ELEVEN, TWO, ONE]), results), Hits(Rules([ELEVEN, ONE, TWO]), results);
      FinalGrade(hits) == A && FinalGrade(hits') == B
  {
    hide Hits, Total, Count, Whole, Plus, Scaled;
    HitsOfThree(ELEVEN, TWO, ONE, results);
    HitsOfThree(ELEVEN, ONE, TWO, results);
    TotalOfThree(ELEVEN, TWO, ONE);
    TotalOfThree(ELEVEN, ONE, TWO);
    FirstOrder();
    SecondOrder();
    ThresholdOrder();
    FirstMetIs(Plus(Plus(ELEVEN, TWO), ONE));
    FirstMetIs(Plus(Plus(ELEVEN, ONE), TWO));
  }

  lemma FirstOrder()
    ensures Plus(Plus(ELEVEN, TWO), ONE) < Whole(15)
  {
    hide Pow2, Plus, Scaled, Whole, IsPow2, Representable;
    var u := Pow2(1022);
    Pow2IsPow2(1022);
    InSmallUnits();
    FifteenInSmallUnits();
    PlusInEights(ELEVEN, TWO, 52692115640234800, 9907919180215092, 7825004352556236, 4, u);
    PlusInEights(Plus(ELEVEN, TWO), ONE, 62600034820449888, 4953959590107546, 8444249301319679, 2, u);
  }

  lemma SecondOrder()
    ensures Plus(Plus(ELEVEN, ONE), TWO) == Whole(15)
  {
    hide Pow2, Plus, Scaled, Whole, IsPow2, Representable;
    var u := Pow2(1022);
    Pow2IsPow2(1022);
    InSmallUnits();
    FifteenInSmallUnits();
    PlusInEights(ELEVEN, ONE, 52692115640234800, 4953959590107546, 7205759403792793, 2, u);
    PlusInEights(Plus(ELEVEN, ONE), TWO, 57646075230342344, 9907919180215092, 8444249301319679, 4, u);
  }
}
