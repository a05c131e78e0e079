/** The red-marker rules: a colour is detected when its red channel is high
    and exceeds both green and blue by a margin. The differences are taken on
    unbounded integers, so they may be negative and never wrap. */
module Rules {
  import opened Pixels

  /** A rule is three integer thresholds; a colour matches when red is above
      `minRed` and red minus green and red minus blue are above the margins. */
  datatype Rule = Rule(minRed: int, redOverGreen: int, redOverBlue: int)

  /** The detection condition in current use: R > 200, R-G > 80, R-B > 80. */
  const Current := Rule(200, 80, 80)

  /** The stricter candidate condition: R > 220, R-G > 150, R-B > 150. */
  const Strict := Rule(220, 150, 150)

  /** The rule's test on one colour: strict comparisons on integer
      differences, which may be negative. */
  predicate Matches(rule: Rule, c: Rgb) {
    c.r > rule.minRed && c.r - c.g > rule.redOverGreen && c.r - c.b > rule.redOverBlue
  }

  /** `a` demands at least as much as `b` on every threshold. */
  predicate AtLeastAsStrict(a: Rule, b: Rule) {
    a.minRed >= b.minRed && a.redOverGreen >= b.redOverGreen && a.redOverBlue >= b.redOverBlue
  }

  /** The current rule's comparisons are strict and its differences are
      not clamped: each condition fails exactly at its threshold, passes one
      above it, and a red at or below green is rejected however high. */
  lemma CurrentBoundaries()
    ensures Matches(Current, Rgb(201, 120, 120)) && !Matches(Current, Rgb(200, 0, 0))
    ensures !Matches(Current, Rgb(201, 121, 0)) && !Matches(Current, Rgb(201, 0, 121))
    ensures !Matches(Current, Rgb(255, 255, 0)) && !Matches(Current, Rgb(210, 255, 0))
  {
  }

  /** The same boundaries for the stricter rule. */
  lemma StrictBoundaries()
    ensures Matches(Strict, Rgb(221, 70, 70)) && !Matches(Strict, Rgb(220, 0, 0))
    ensures !Matches(Strict, Rgb(221, 71, 0)) && !Matches(Strict, Rgb(221, 0, 71))
    ensures !Matches(Strict, Rgb(255, 255, 0)) && !Matches(Strict, Rgb(230, 255, 0))
  {
  }

  /** A rule at least as strict as another selects only colours the other
      selects too. */
  lemma StricterSelectsFewer(a: Rule, b: Rule, c: Rgb)
    requires AtLeastAsStrict(a, b)
    ensures Matches(a, c) ==> Matches(b, c)
  {
  }

  /** The stricter condition really is stricter than the current one, and
      not equal to it: some colour passes the current rule only. */
  lemma StrictRefinesCurrent()
    ensures AtLeastAsStrict(Strict, Current)
    ensures forall c :: Matches(Strict, c) ==> Matches(Current, c)
    ensures Matches(Current, Rgb(201, 120, 120)) && !Matches(Strict, Rgb(201, 120, 120))
  {
    forall c | Matches(Strict, c)
      ensures Matches(Current, c)
    {
      StricterSelectsFewer(Strict, Current, c);
    }
  }

  /** Subtraction on unsigned bytes, which wraps modulo 256: what the
      differences would be without the widening to integers. */
  function WrappingSub(x: Byte, y: Byte): (d: Byte)
    ensures x >= y ==> d == x - y
    ensures x < y ==> d == x - y + 256
  {
    (x - y) % 256
  }

  /** The rule evaluated with wrapping byte differences. */
  predicate MatchesWrapping(rule: Rule, c: Rgb) {
    c.r > rule.minRed
    && WrappingSub(c.r, c.g) > rule.redOverGreen
    && WrappingSub(c.r, c.b) > rule.redOverBlue
  }

  /** With non-negative margins, every colour the integer rule detects would
      also be detected with wrapping differences... */
  lemma IntegerRuleWithinWrapping(rule: Rule, c: Rgb)
    requires rule.redOverGreen >= 0 && rule.redOverBlue >= 0
    ensures Matches(rule, c) ==> MatchesWrapping(rule, c)
  {
  }

  /** ...but not conversely: a colour greener than it is red would pass the
      current rule if the difference wrapped, and the widening rejects it. */
  lemma WideningRejectsWrappedDifference()
    ensures MatchesWrapping(Current, Rgb(210, 255, 0))
    ensures !Matches(Current, Rgb(210, 255, 0))
  {
  }
}
