/** The script bot (QuizSoulsV1.py): catalog normalisation, per-attribute
    rules accumulated from the icons of the feedback row, a piecewise-linear
    scorer, a stable ranking and the choice among the site's suggestions.

    Python floats are modelled as exact reals. */
module QuizSoulsV1 {
  import opened Options
  import opened Numbers
  import opened Text
  import StableSort
  import SiteClasses

  // ---------------------------------------------------------------------
  // Catalog
  // ---------------------------------------------------------------------

  /** A catalog record as loaded: every key may be missing. `hp` is the
      value after `int()`. */
  datatype RawBoss = RawBoss(
    slug: Option<string>,
    name: Option<string>,
    hp: Option<int>,
    optional: Option<string>,
    resistance: Option<seq<string>>,
    weakness: Option<seq<string>>,
    immunity: Option<seq<string>>,
    weapons: Option<seq<string>>)

  /** A normalised boss: missing lists become empty, `optional` becomes a
      0/1 flag and the four list lengths are stored as counts. */
  datatype Boss = Boss(
    slug: Option<string>,
    name: Option<string>,
    hp: int,
    optional: int,
    resistance: seq<string>,
    weakness: seq<string>,
    immunity: seq<string>,
    weapons: seq<string>,
    resCount: int,
    weakCount: int,
    immCount: int,
    wepCount: int)

  /** What normalisation guarantees of a boss. */
  predicate WellFormed(b: Boss)
  {
    && (b.optional == 0 || b.optional == 1)
    && b.resCount == |b.resistance|
    && b.weakCount == |b.weakness|
    && b.immCount == |b.immunity|
    && b.wepCount == |b.weapons|
  }

  /** `normalize_boss`: a boss is required (flag 0) only when its record
      says "required"; a missing or any other value makes it optional. */
  function NormalizeBoss(raw: RawBoss): (b: Boss)
    ensures WellFormed(b)
    ensures b.optional == 0 <==> raw.optional == Some("required")
    ensures b.name == raw.name && b.slug == raw.slug && b.hp == raw.hp.GetOr(0)
    ensures b.resistance == raw.resistance.GetOr([]) && b.weakness == raw.weakness.GetOr([])
    ensures b.immunity == raw.immunity.GetOr([]) && b.weapons == raw.weapons.GetOr([])
  {
    var resistance := raw.resistance.GetOr([]);
    var weakness := raw.weakness.GetOr([]);
    var immunity := raw.immunity.GetOr([]);
    var weapons := raw.weapons.GetOr([]);
    Boss(raw.slug, raw.name, raw.hp.GetOr(0),
      if raw.optional == Some("required") then 0 else 1,
      resistance, weakness, immunity, weapons,
      |resistance|, |weakness|, |immunity|, |weapons|)
  }

  /** A record from which `NormalizeBoss` rebuilds `b`. */
  function Record(b: Boss): RawBoss
  {
    RawBoss(b.slug, b.name, Some(b.hp), Some(if b.optional == 0 then "required" else "optional"),
      Some(b.resistance), Some(b.weakness), Some(b.immunity), Some(b.weapons))
  }

  /** Normalisation loses nothing of a well-formed boss. */
  lemma NormalizeRoundTrip(b: Boss)
    requires WellFormed(b)
    ensures NormalizeBoss(Record(b)) == b
  {
    assert "optional"[0] != "required"[0];
  }

  /** A record without an `optional` key counts as an optional boss. */
  lemma MissingOptionalIsOptional(raw: RawBoss)
    requires raw.optional.None?
    ensures NormalizeBoss(raw).optional == 1
  {
  }

  // ---------------------------------------------------------------------
  // Rules accumulated from feedback
  // ---------------------------------------------------------------------

  /** The clues gathered for one attribute. An absent "not" key and an
      empty list behave the same everywhere, so both are `[]`. */
  datatype Rules = Rules(exact: Option<int>, min: Option<int>, max: Option<int>, close: Option<int>, notList: seq<int>)

  const NoRules: Rules := Rules(None, None, None, None, [])

  predicate NoDuplicates(xs: seq<int>)
  {
    forall i, j :: 0 <= i < j < |xs| ==> xs[i] != xs[j]
  }

  /** `add_to_list_rule`: append a value not yet listed; None adds nothing. */
  function AddToList(xs: seq<int>, v: Option<int>): (r: seq<int>)
    ensures forall x :: x in r <==> x in xs || v == Some(x)
    ensures |xs| <= |r| <= |xs| + 1 && r[..|xs|] == xs
    ensures NoDuplicates(xs) ==> NoDuplicates(r)
  {
    if v.None? || v.value in xs then xs else xs + [v.value]
  }

  /** Listing a value twice lists it once. */
  lemma AddToListIdempotent(xs: seq<int>, v: Option<int>)
    ensures AddToList(AddToList(xs, v), v) == AddToList(xs, v)
  {
  }

  /** The icons of the feedback row: ✅, ⚠️, ⬆️, ⬇️ and ❌. */
  datatype Icon = Check | Warn | Up | Down | Cross

  /** The sentinels `-10**9` and `10**9` that stand in for a missing bound. */
  const Big: int := 1_000_000_000

  /** The clue one icon adds for an attribute whose guessed value is `x`:
      ✅ records the exact value (replacing an earlier one), ⬆️ raises the
      lower bound above `x`, ⬇️ lowers the upper bound below `x`, ⚠️
      records the close value, ❌ lists `x` as excluded. */
  function UpdateRule(rules: Rules, icon: Icon, x: int): (r: Rules)
    ensures icon == Check ==> r == rules.(exact := Some(x))
    ensures icon == Warn ==> r == rules.(close := Some(x))
    ensures icon == Cross ==> r == rules.(notList := AddToList(rules.notList, Some(x)))
    ensures icon == Up ==> r == rules.(min := r.min) && r.min.Some? && r.min.value > x
    ensures icon == Up ==> rules.min.Some? ==> r.min.value >= rules.min.value
    ensures icon == Up ==> r.min.value == x + 1 || r.min.value == rules.min.GetOr(-Big)
    ensures icon == Down ==> r == rules.(max := r.max) && r.max.Some? && r.max.value < x
    ensures icon == Down ==> rules.max.Some? ==> r.max.value <= rules.max.value
    ensures icon == Down ==> r.max.value == x - 1 || r.max.value == rules.max.GetOr(Big)
  {
    match icon
    case Check => rules.(exact := Some(x))
    case Up => rules.(min := Some(Max(rules.min.GetOr(-Big), x + 1)))
    case Down => rules.(max := Some(Min(rules.max.GetOr(Big), x - 1)))
    case Warn => rules.(close := Some(x))
    case Cross => rules.(notList := AddToList(rules.notList, Some(x)))
  }

  /** The sentinel is a real bound: an up arrow on a value below `-10**9`
      with no lower bound yet sets the lower bound to `-10**9`. */
  lemma SentinelBoundsUpArrow(x: int)
    requires x + 1 < -Big
    ensures UpdateRule(NoRules, Up, x).min == Some(-Big)
  {
  }

  /** `v` obeys the hard clues: the exact value, both bounds and the
      excluded values. A close value excludes nothing. */
  predicate Sat(rules: Rules, v: int)
  {
    && (rules.exact.Some? ==> v == rules.exact.value)
    && (rules.min.Some? ==> rules.min.value <= v)
    && (rules.max.Some? ==> v <= rules.max.value)
    && v !in rules.notList
  }

  /** What an icon tells about the secret value `v` when the guess had `x`.
      The script draws no hard conclusion from ⚠️. */
  predicate Truthful(icon: Icon, x: int, v: int)
  {
    match icon
    case Check => v == x
    case Up => v > x
    case Down => v < x
    case Warn => true
    case Cross => v != x
  }

  /** Truthful icons never rule out the secret value, as long as it lies
      between the sentinels. */
  lemma UpdateRuleKeepsSecret(rules: Rules, icon: Icon, x: int, v: int)
    requires Sat(rules, v) && Truthful(icon, x, v)
    requires -Big <= v <= Big
    ensures Sat(UpdateRule(rules, icon, x), v)
  {
  }

  /** The rules of the six scored attributes. */
  datatype Constraints = Constraints(hp: Rules, weapons: Rules, resistance: Rules, weakness: Rules, immunity: Rules, optional: Rules)

  const NoConstraints: Constraints := Constraints(NoRules, NoRules, NoRules, NoRules, NoRules, NoRules)

  /** One icon per column of the feedback row, the name column first. */
  datatype IconRow = IconRow(name: Icon, hp: Icon, weapons: Icon, resistance: Icon, weakness: Icon, immunity: Icon, optional: Icon)

  /** What one icon about a guessed value `x` does to an attribute's rules:
      ✅ pins `x`, ⚠️ makes it the close value, ❌ lists it, ⬆️ sets a lower
      bound above `x` that never falls, ⬇️ an upper bound below `x` that
      never rises; every other field is kept. */
  ghost predicate Clue(rules: Rules, icon: Icon, x: int, r: Rules)
  {
    match icon
    case Check => r == rules.(exact := Some(x))
    case Warn => r == rules.(close := Some(x))
    case Cross => r == rules.(notList := r.notList) && (forall y :: y in r.notList <==> y in rules.notList || y == x)
    case Up => (
      && r == rules.(min := r.min) && r.min.Some? && r.min.value > x
      && (rules.min.Some? ==> r.min.value >= rules.min.value))
    case Down => (
      && r == rules.(max := r.max) && r.max.Some? && r.max.value < x
      && (rules.max.Some? ==> r.max.value <= rules.max.value))
  }

  /** `update_constraints_from_feedback`: each attribute's rules take the
      clue of its own icon against the guess's value for that attribute
      (HP, then the four counts, then the optional flag); the name column
      is ignored. */
  function UpdateConstraints(c: Constraints, guess: Boss, fb: IconRow): (r: Constraints)
    ensures Clue(c.hp, fb.hp, guess.hp, r.hp)
    ensures Clue(c.weapons, fb.weapons, guess.wepCount, r.weapons)
    ensures Clue(c.resistance, fb.resistance, guess.resCount, r.resistance)
    ensures Clue(c.weakness, fb.weakness, guess.weakCount, r.weakness)
    ensures Clue(c.immunity, fb.immunity, guess.immCount, r.immunity)
    ensures Clue(c.optional, fb.optional, guess.optional, r.optional)
  {
    Constraints(
      UpdateRule(c.hp, fb.hp, guess.hp),
      UpdateRule(c.weapons, fb.weapons, guess.wepCount),
      UpdateRule(c.resistance, fb.resistance, guess.resCount),
      UpdateRule(c.weakness, fb.weakness, guess.weakCount),
      UpdateRule(c.immunity, fb.immunity, guess.immCount),
      UpdateRule(c.optional, fb.optional, guess.optional))
  }

  /** The name column carries no clue. */
  lemma NameColumnIgnored(c: Constraints, guess: Boss, fb: IconRow, icon: Icon)
    ensures UpdateConstraints(c, guess, fb.(name := icon)) == UpdateConstraints(c, guess, fb)
  {
  }

  /** Reading the same row twice adds nothing the first reading did not. */
  lemma {:induction false} UpdateConstraintsIdempotent(c: Constraints, guess: Boss, fb: IconRow)
    ensures UpdateConstraints(UpdateConstraints(c, guess, fb), guess, fb) == UpdateConstraints(c, guess, fb)
  {
    var once := UpdateConstraints(c, guess, fb);
    AddToListIdempotent(c.hp.notList, Some(guess.hp));
    AddToListIdempotent(c.weapons.notList, Some(guess.wepCount));
    AddToListIdempotent(c.resistance.notList, Some(guess.resCount));
    AddToListIdempotent(c.weakness.notList, Some(guess.weakCount));
    AddToListIdempotent(c.immunity.notList, Some(guess.immCount));
    AddToListIdempotent(c.optional.notList, Some(guess.optional));
  }

  /** The secret boss obeys every hard clue. */
  predicate Meets(c: Constraints, b: Boss)
  {
    && Sat(c.hp, b.hp) && Sat(c.weapons, b.wepCount) && Sat(c.resistance, b.resCount)
    && Sat(c.weakness, b.weakCount) && Sat(c.immunity, b.immCount) && Sat(c.optional, b.optional)
  }

  /** The row the site shows for `guess` when the secret is `secret`, in
      so far as the icons carry hard information. */
  predicate RowTruthful(fb: IconRow, guess: Boss, secret: Boss)
  {
    && Truthful(fb.hp, guess.hp, secret.hp)
    && Truthful(fb.weapons, guess.wepCount, secret.wepCount)
    && Truthful(fb.resistance, guess.resCount, secret.resCount)
    && Truthful(fb.weakness, guess.weakCount, secret.weakCount)
    && Truthful(fb.immunity, guess.immCount, secret.immCount)
    && Truthful(fb.optional, guess.optional, secret.optional)
  }

  predicate WithinSentinels(b: Boss)
  {
    && -Big <= b.hp <= Big && -Big <= b.wepCount <= Big && -Big <= b.resCount <= Big
    && -Big <= b.weakCount <= Big && -Big <= b.immCount <= Big && -Big <= b.optional <= Big
  }

  /** Accumulating truthful feedback never rules out the secret boss. */
  lemma {:induction false} UpdateConstraintsKeepsSecret(c: Constraints, guess: Boss, fb: IconRow, secret: Boss)
    requires Meets(c, secret) && RowTruthful(fb, guess, secret) && WithinSentinels(secret)
    ensures Meets(UpdateConstraints(c, guess, fb), secret)
  {
    UpdateRuleKeepsSecret(c.hp, fb.hp, guess.hp, secret.hp);
    UpdateRuleKeepsSecret(c.weapons, fb.weapons, guess.wepCount, secret.wepCount);
    UpdateRuleKeepsSecret(c.resistance, fb.resistance, guess.resCount, secret.resCount);
    UpdateRuleKeepsSecret(c.weakness, fb.weakness, guess.weakCount, secret.weakCount);
    UpdateRuleKeepsSecret(c.immunity, fb.immunity, guess.immCount, secret.immCount);
    UpdateRuleKeepsSecret(c.optional, fb.optional, guess.optional, secret.optional);
  }

  // ---------------------------------------------------------------------
  // Scoring
  // ---------------------------------------------------------------------

  /** The four weights of `score_numeric`. */
  datatype Weights = Weights(exact: real, close: real, range: real, penalty: real)

  /** The weights of `score_hp` and of `score_count`. */
  const HpWeights: Weights := Weights(1.0, 0.8, 0.75, 0.25)
  const CountWeights: Weights := Weights(1.0, 0.75, 0.65, 0.25)

  /** The score never falls below this unless an exact value rejects. */
  const Floor: real := 0.05

  /** The range `score_numeric` checks: a missing bound is the value itself. */
  function Lo(v: int, rules: Rules): int { if rules.min.Some? then rules.min.value else v }
  function Hi(v: int, rules: Rules): int { if rules.max.Some? then rules.max.value else v }

  predicate HasRange(rules: Rules) { rules.min.Some? || rules.max.Some? }

  predicate InRange(v: int, rules: Rules) { HasRange(rules) && Lo(v, rules) <= v <= Hi(v, rules) }

  /** The linear fall from 1 at the centre of `[lo, hi]` to 0 at its ends. */
  function Proximity(v: int, lo: int, hi: int): (p: real)
    requires lo < hi && lo <= v <= hi
    ensures 0.0 <= p <= 1.0
    ensures p == 1.0 <==> 2 * v == lo + hi
    ensures v == lo || v == hi ==> p == 0.0
  {
    var center := (lo + hi) as real / 2.0;
    var dist := Abs(v as real - center);
    var maxdist := (hi - lo) as real / 2.0;
    assert dist <= maxdist;
    assert dist == 0.0 <==> 2 * v == lo + hi;
    assert v == lo || v == hi ==> dist == maxdist;
    if maxdist > 0.0 then
      RatioInUnit(dist, maxdist);
      1.0 - dist / maxdist
    else 1.0
  }

  lemma RatioInUnit(a: real, b: real)
    requires 0.0 <= a <= b && b > 0.0
    ensures 0.0 <= a / b <= 1.0
    ensures a / b == 0.0 <==> a == 0.0
    ensures a / b == 1.0 <==> a == b
  {
  }

  /** The in-range term: `w.range` for a one-point range, else between
      0.7 and 1 times `w.range` depending on the distance from the centre. */
  function RangeTerm(v: int, lo: int, hi: int, w: Weights): (t: real)
    requires lo <= v <= hi
    ensures w.range >= 0.0 ==> 0.7 * w.range <= t <= w.range
    ensures t == w.range <==> lo == hi || 2 * v == lo + hi || w.range == 0.0
  {
    if hi > lo then
      var p := Proximity(v, lo, hi);
      ScaleBand(w.range, p);
      w.range * (0.7 + 0.3 * p)
    else w.range
  }

  lemma ScaleBand(wr: real, p: real)
    requires 0.0 <= p <= 1.0
    ensures wr >= 0.0 ==> 0.7 * wr <= wr * (0.7 + 0.3 * p) <= wr
    ensures wr * (0.7 + 0.3 * p) == wr <==> p == 1.0 || wr == 0.0
  {
    assert wr * (0.7 + 0.3 * p) == 0.7 * wr + 0.3 * (wr * p);
    if wr >= 0.0 {
      assert 0.0 <= wr * p <= wr * 1.0;
    }
  }

  /** The score before the floor: the best of the close bonus and the
      range term, less the penalty for an excluded value. */
  function Unfloored(v: int, rules: Rules, w: Weights): (u: real)
    ensures 0.0 <= u
    ensures w.range >= 0.0 && w.penalty >= 0.0 ==> u <= RMax(w.close, w.range)
  {
    var s1 := if rules.close.Some? && IntAbs(v - rules.close.value) <= 1 then RMax(0.0, w.close) else 0.0;
    var s2 := if InRange(v, rules) then RMax(s1, RangeTerm(v, Lo(v, rules), Hi(v, rules), w)) else s1;
    if v in rules.notList then RMax(s2 - w.penalty, 0.0) else s2
  }

  /** `score_numeric`: an exact value decides alone (all or nothing);
      otherwise the result lies between the floor and the larger of the
      close and range weights. */
  function ScoreNumeric(v: int, rules: Rules, w: Weights): (r: real)
    ensures rules.exact.Some? ==> r == (if v == rules.exact.value then w.exact else 0.0)
    ensures rules.exact.None? ==> Floor <= r
    ensures rules.exact.None? && w.range >= 0.0 && w.penalty >= 0.0 ==> r <= RMax(RMax(w.close, w.range), Floor)
  {
    if rules.exact.Some? then (if v == rules.exact.value then w.exact else 0.0)
    else RMax(Unfloored(v, rules, w), Floor)
  }

  /** `score_hp`: between 0.05 and 0.8 without an exact value, else 0 or 1. */
  function ScoreHp(v: int, rules: Rules): (r: real)
    ensures rules.exact.None? ==> 0.05 <= r <= 0.8
    ensures rules.exact.Some? ==> (r == 1.0 <==> v == rules.exact.value) && (r == 0.0 <==> v != rules.exact.value)
  {
    ScoreNumeric(v, rules, HpWeights)
  }

  /** `score_count`: between 0.05 and 0.75 without an exact value, else 0 or 1. */
  function ScoreCount(v: int, rules: Rules): (r: real)
    ensures rules.exact.None? ==> 0.05 <= r <= 0.75
    ensures rules.exact.Some? ==> (r == 1.0 <==> v == rules.exact.value) && (r == 0.0 <==> v != rules.exact.value)
  {
    ScoreNumeric(v, rules, CountWeights)
  }

  /** The "not" list matters only for a listed value, and for one it takes
      the penalty off the score (never below the floor). */
  lemma NotListEffect(v: int, rules: Rules, w: Weights)
    requires rules.exact.None? && w.penalty >= 0.0
    ensures v !in rules.notList ==> ScoreNumeric(v, rules, w) == ScoreNumeric(v, rules.(notList := []), w)
    ensures v in rules.notList ==> ScoreNumeric(v, rules, w) == RMax(ScoreNumeric(v, rules.(notList := []), w) - w.penalty, Floor)
  {
  }

  /** A value inside the range, with no close value and not excluded,
      scores between 0.7 and 1 times the range weight. */
  lemma InRangeBand(v: int, rules: Rules, w: Weights)
    requires rules.exact.None? && rules.close.None? && v !in rules.notList
    requires InRange(v, rules) && 0.7 * w.range >= Floor
    ensures 0.7 * w.range <= ScoreNumeric(v, rules, w) <= w.range
  {
  }

  /** The centre of a two-sided range scores the full range weight. */
  lemma CentreScoresFull(v: int, rules: Rules, w: Weights)
    requires rules.exact.None? && rules.close.None? && v !in rules.notList
    requires rules.min.Some? && rules.max.Some? && rules.min.value <= v <= rules.max.value
    requires 2 * v == rules.min.value + rules.max.value && w.range >= Floor
    ensures ScoreNumeric(v, rules, w) == w.range
  {
  }

  /** With only a lower bound, the range is taken to end at the value
      itself: the bound scores the full range weight and every value above
      it 0.7 of it, however far away. */
  lemma OneSidedFavoursBound(v: int, rules: Rules, w: Weights)
    requires rules.exact.None? && rules.close.None? && v !in rules.notList
    requires rules.min.Some? && rules.max.None? && rules.min.value <= v
    requires 0.7 * w.range >= Floor
    ensures v == rules.min.value ==> ScoreNumeric(v, rules, w) == w.range
    ensures v > rules.min.value ==> ScoreNumeric(v, rules, w) == 0.7 * w.range
  {
    if v > rules.min.value {
      assert Proximity(v, rules.min.value, v) == 0.0;
    }
  }

  /** Outside the range and without a close bonus only the floor is left. */
  lemma OutsideRangeScoresFloor(v: int, rules: Rules, w: Weights)
    requires rules.exact.None? && rules.close.None? && !InRange(v, rules) && w.penalty >= 0.0
    ensures ScoreNumeric(v, rules, w) == Floor
  {
  }

  /** Within one of the close value, and not excluded, the score is at
      least the close weight. */
  lemma CloseBonus(v: int, rules: Rules, w: Weights)
    requires rules.exact.None? && rules.close.Some? && IntAbs(v - rules.close.value) <= 1
    requires v !in rules.notList && w.close >= 0.0
    ensures ScoreNumeric(v, rules, w) >= w.close
  {
  }

  /** The six attribute scores of `composite_score`. */
  datatype Parts = Parts(hp: real, weapons: real, resistance: real, weakness: real, immunity: real, optional: real)

  predicate PartsInUnit(p: Parts)
  {
    && 0.0 <= p.hp <= 1.0 && 0.0 <= p.weapons <= 1.0 && 0.0 <= p.resistance <= 1.0
    && 0.0 <= p.weakness <= 1.0 && 0.0 <= p.immunity <= 1.0 && 0.0 <= p.optional <= 1.0
  }

  /** The weighted sum: HP 3.0, Weapons 2.5, Resistance 2.0, Weakness 2.4,
      Immunity 2.2, Optional 1.2. */
  function WeightedSum(p: Parts): real
  {
    3.0 * p.hp + 2.5 * p.weapons + 2.0 * p.resistance + 2.4 * p.weakness + 2.2 * p.immunity + 1.2 * p.optional
  }

  /** The sum of the six weights. */
  const WeightTotal: real := 13.3

  /** A 5% bonus each for an exact count of 0 immunities, and of 0 weapons,
      that the boss has. */
  function Bonus(c: Constraints, b: Boss): (f: real)
    ensures f == 1.0 || f == 1.05 || f == 1.1025
  {
    var imm := c.immunity.exact == Some(0) && b.immCount == 0;
    var wep := c.weapons.exact == Some(0) && b.wepCount == 0;
    if imm && wep then 1.1025 else if imm || wep then 1.05 else 1.0
  }

  /** `composite_score`: the weighted parts, with the zero-count bonuses. */
  function CompositeScore(c: Constraints, b: Boss): (res: (real, Parts))
    ensures PartsInUnit(res.1)
    ensures WeightedSum(res.1) <= res.0 <= 1.1025 * WeightedSum(res.1)
    ensures 0.0 <= res.0 <= WeightTotal * 1.1025
  {
    var parts := Parts(
      ScoreHp(b.hp, c.hp),
      ScoreCount(b.wepCount, c.weapons),
      ScoreCount(b.resCount, c.resistance),
      ScoreCount(b.weakCount, c.weakness),
      ScoreCount(b.immCount, c.immunity),
      ScoreCount(b.optional, c.optional));
    var total := WeightedSum(parts);
    var total1 := if c.immunity.exact == Some(0) && b.immCount == 0 then total * 1.05 else total;
    var total2 := if c.weapons.exact == Some(0) && b.wepCount == 0 then total1 * 1.05 else total1;
    WeightedSumRange(parts);
    BonusApplied(c, b, total);
    (total2, parts)
  }

  /** The total is the weighted sum times the bonus factor. */
  lemma CompositeIsBonusTimesSum(c: Constraints, b: Boss)
    ensures CompositeScore(c, b).0 == WeightedSum(CompositeScore(c, b).1) * Bonus(c, b)
  {
    var (total, parts) := CompositeScore(c, b);
    WeightedSumRange(parts);
    BonusApplied(c, b, WeightedSum(parts));
  }

  lemma WeightedSumRange(p: Parts)
    requires PartsInUnit(p)
    ensures 0.0 <= WeightedSum(p) <= WeightTotal
  {
  }

  /** The two successive 5% bonuses are one multiplication by `Bonus`. */
  lemma BonusApplied(c: Constraints, b: Boss, total: real)
    requires 0.0 <= total <= WeightTotal
    ensures var total1 := if c.immunity.exact == Some(0) && b.immCount == 0 then total * 1.05 else total;
      var total2 := if c.weapons.exact == Some(0) && b.wepCount == 0 then total1 * 1.05 else total1;
      total2 == total * Bonus(c, b) && 0.0 <= total2 <= WeightTotal * 1.1025
  {
  }

  /** Every attribute has an exact value. */
  predicate AllExact(c: Constraints)
  {
    c.hp.exact.Some? && c.weapons.exact.Some? && c.resistance.exact.Some?
    && c.weakness.exact.Some? && c.immunity.exact.Some? && c.optional.exact.Some?
  }

  /** `b` equals every exact value the constraints hold; its old bounds and
      "not" lists are not consulted. */
  predicate MatchesExact(c: Constraints, b: Boss)
    requires AllExact(c)
  {
    && b.hp == c.hp.exact.value && b.wepCount == c.weapons.exact.value
    && b.resCount == c.resistance.exact.value && b.weakCount == c.weakness.exact.value
    && b.immCount == c.immunity.exact.value && b.optional == c.optional.exact.value
  }

  /** Once every attribute has an exact value, a boss equal to all six
      scores at least as much as any other boss, whatever the bounds and
      "not" lists say: `score_numeric` returns at the exact test. */
  lemma ExactMatchScoresBest(c: Constraints, b: Boss, other: Boss)
    requires AllExact(c) && MatchesExact(c, b)
    ensures CompositeScore(c, other).0 <= CompositeScore(c, b).0
  {
    var (tb, pb) := CompositeScore(c, b);
    var (to, po) := CompositeScore(c, other);
    CompositeIsBonusTimesSum(c, b);
    CompositeIsBonusTimesSum(c, other);
    assert WeightedSum(pb) == WeightTotal;
    assert WeightedSum(po) <= WeightTotal;
    assert Bonus(c, other) <= Bonus(c, b);
  }

  // ---------------------------------------------------------------------
  // Ranking and the choice of a guess
  // ---------------------------------------------------------------------

  /** A row of the ranking: (score, boss, parts). */
  datatype Ranked = Ranked(score: real, boss: Boss, parts: Parts)

  function RankKey(e: Ranked): real { e.score }

  function Entry(c: Constraints, b: Boss): (e: Ranked)
    ensures e.boss == b
  {
    var (s, parts) := CompositeScore(c, b);
    Ranked(s, b, parts)
  }

  function Entries(c: Constraints, bs: seq<Boss>): (es: seq<Ranked>)
    ensures |es| == |bs|
    ensures forall i :: 0 <= i < |bs| ==> es[i] == Entry(c, bs[i])
  {
    seq(|bs|, i requires 0 <= i < |bs| => Entry(c, bs[i]))
  }

  lemma EntriesMembers(c: Constraints, bs: seq<Boss>, e: Ranked)
    requires e in multiset(Entries(c, bs))
    ensures e.boss in bs && e == Entry(c, e.boss)
  {
    var es := Entries(c, bs);
    var i :| 0 <= i < |es| && es[i] == e;
  }

  /** `rank_bosses`: every boss of the list exactly once, best first. */
  function RankBosses(c: Constraints, bs: seq<Boss>): (res: seq<Ranked>)
    ensures StableSort.NonIncreasing(res, RankKey)
    ensures multiset(res) == multiset(Entries(c, bs))
    ensures |res| == |bs|
    ensures forall e :: e in res ==> e.boss in bs && e == Entry(c, e.boss)
    ensures forall i :: 0 <= i < |res| ==> res[i].score <= res[0].score
  {
    var es := Entries(c, bs);
    var res := StableSort.Sort(es, RankKey);
    assert |res| == |multiset(res)| == |multiset(es)| == |es|;
    assert forall e :: e in res ==> e.boss in bs && e == Entry(c, e.boss) by {
      forall e | e in res ensures e.boss in bs && e == Entry(c, e.boss) {
        assert e in multiset(res);
        EntriesMembers(c, bs, e);
      }
    }
    assert forall i :: 0 <= i < |res| ==> res[i].score <= res[0].score by {
      forall i | 0 < i < |res| ensures res[i].score <= res[0].score {
        assert RankKey(res[0]) >= RankKey(res[i]);
      }
    }
    res
  }

  /** Equal scores keep the order of the list. */
  lemma RankTiesKeepOrder(c: Constraints, bs: seq<Boss>, k: real)
    ensures StableSort.WithKey(RankBosses(c, bs), RankKey, k) == StableSort.WithKey(Entries(c, bs), RankKey, k)
  {
    StableSort.SortKeepsTies(Entries(c, bs), RankKey, k);
  }

  predicate Suggested(b: Boss, suggestions: seq<string>)
  {
    b.name.Some? && b.name.value in suggestions
  }

  /** The catalog bosses among the suggestions whose name is not in
      `exclude`, in catalog order. */
  function Pool(catalog: seq<Boss>, suggestions: seq<string>, exclude: set<string>): (r: seq<Boss>)
    ensures forall b :: b in r <==> b in catalog && Suggested(b, suggestions) && b.name.value !in exclude
  {
    if |catalog| == 0 then []
    else
      var b := catalog[0];
      (if Suggested(b, suggestions) && b.name.value !in exclude then [b] else []) + Pool(catalog[1..], suggestions, exclude)
  }

  /** Filtering a catalog filters its parts in turn: the pool keeps catalog
      order. */
  lemma {:induction false} PoolAppend(a: seq<Boss>, b: seq<Boss>, suggestions: seq<string>, exclude: set<string>)
    ensures Pool(a + b, suggestions, exclude) == Pool(a, suggestions, exclude) + Pool(b, suggestions, exclude)
    decreases |a|
  {
    if |a| == 0 {
      assert a + b == b;
    } else {
      assert (a + b)[0] == a[0];
      assert (a + b)[1..] == a[1..] + b;
      PoolAppend(a[1..], b, suggestions, exclude);
    }
  }

  /** A one-boss catalog gives that boss exactly when it is suggested and
      not excluded; with `PoolAppend` this fixes the whole pool. */
  lemma PoolSingle(b: Boss, suggestions: seq<string>, exclude: set<string>)
    ensures Pool([b], suggestions, exclude) == if Suggested(b, suggestions) && b.name.value !in exclude then [b] else []
  {
    assert [b][1..] == [];
  }

  /** The pool `pick_best_from_suggestions` ranks: the untried suggested
      bosses, or every suggested boss once all were tried. */
  function ChosenPool(catalog: seq<Boss>, suggestions: seq<string>, tried: set<string>): seq<Boss>
  {
    var untried := Pool(catalog, suggestions, tried);
    if |untried| > 0 then untried else Pool(catalog, suggestions, {})
  }

  /** `pick_best_from_suggestions`: the best-ranked suggested boss not yet
      tried, or the best-ranked suggested boss when all were tried. None
      stands for the random fallback, taken when no catalog boss is among
      the suggestions. */
  function PickBest(c: Constraints, catalog: seq<Boss>, suggestions: seq<string>, tried: set<string>): (r: Option<string>)
    ensures r.None? <==> forall b :: b in catalog ==> !Suggested(b, suggestions)
    ensures r.Some? ==> r.value in suggestions
    ensures r.Some? ==> (r.value in tried <==> forall b :: b in catalog && Suggested(b, suggestions) ==> b.name.value in tried)
  {
    var pool := ChosenPool(catalog, suggestions, tried);
    var ranked := RankBosses(c, pool);
    if |ranked| > 0 then
      assert ranked[0] in ranked;
      ranked[0].boss.name
    else
      assert pool == Pool(catalog, suggestions, {}) == [];
      None
  }

  /** The chosen boss has the best score of the pool it was chosen from. */
  lemma PickBestHasTopScore(c: Constraints, catalog: seq<Boss>, suggestions: seq<string>, tried: set<string>)
    requires PickBest(c, catalog, suggestions, tried).Some?
    ensures exists b :: (b in catalog && b.name == PickBest(c, catalog, suggestions, tried)
      && forall o :: o in catalog && Suggested(o, suggestions) && (b.name.value !in tried ==> o.name.value !in tried)
           ==> CompositeScore(c, o).0 <= CompositeScore(c, b).0)
  {
    var pool := ChosenPool(catalog, suggestions, tried);
    var ranked := RankBosses(c, pool);
    assert |ranked| > 0;
    var b := ranked[0].boss;
    assert ranked[0] in ranked;
    forall o | o in catalog && Suggested(o, suggestions) && (b.name.value !in tried ==> o.name.value !in tried)
      ensures CompositeScore(c, o).0 <= CompositeScore(c, b).0
    {
      assert o in pool;
      assert Entry(c, o) in multiset(ranked) by {
        assert Entry(c, o) in multiset(Entries(c, pool));
      }
      var i :| 0 <= i < |ranked| && ranked[i] == Entry(c, o);
    }
  }

  /** Among equal top scorers the pick is the first in catalog order: every
      boss of the pool before it scores strictly less. */
  lemma PickBestIsFirstBest(c: Constraints, catalog: seq<Boss>, suggestions: seq<string>, tried: set<string>)
    requires PickBest(c, catalog, suggestions, tried).Some?
    ensures exists i ::
      && StableSort.FirstBest(Entries(c, ChosenPool(catalog, suggestions, tried)), RankKey, i)
      && ChosenPool(catalog, suggestions, tried)[i].name == PickBest(c, catalog, suggestions, tried)
  {
    var pool := ChosenPool(catalog, suggestions, tried);
    assert |pool| > 0;
    StableSort.SortHeadIsFirstBest(Entries(c, pool), RankKey);
    var i :| StableSort.FirstBest(Entries(c, pool), RankKey, i)
      && RankBosses(c, pool)[0] == Entries(c, pool)[i];
    assert pool[i].name == PickBest(c, catalog, suggestions, tried);
  }

  // ---------------------------------------------------------------------
  // Feedback row
  // ---------------------------------------------------------------------

  /** The icon of one cell: green ✅, yellow ⚠️, arrow-up ⬆️, arrow-down
      ⬇️, anything else ❌, tested in that order. */
  function Classify(cls: string): (icon: Icon)
    ensures icon == Check <==> Contains(cls, "green")
    ensures icon == Cross <==> (!Contains(cls, "green") && !Contains(cls, "yellow")
      && !Contains(cls, "arrow-up") && !Contains(cls, "arrow-down"))
    ensures icon == Warn <==> !Contains(cls, "green") && Contains(cls, "yellow")
    ensures icon == Up <==> !Contains(cls, "green") && !Contains(cls, "yellow") && Contains(cls, "arrow-up")
    ensures icon == Down <==> (!Contains(cls, "green") && !Contains(cls, "yellow")
      && !Contains(cls, "arrow-up") && Contains(cls, "arrow-down"))
  {
    if Contains(cls, "green") then Check
    else if Contains(cls, "yellow") then Warn
    else if Contains(cls, "arrow-up") then Up
    else if Contains(cls, "arrow-down") then Down
    else Cross
  }

  /** `get_feedback`: the cells of the last row, read at positions 1 to 7
      (name, HP, Weapons, Resistance, Weakness, Immunity, Optional). No row,
      or a last row of fewer than eight cells, gives None. */
  function FeedbackFromRows(rows: seq<seq<string>>): (r: Option<IconRow>)
    ensures r.None? <==> |rows| == 0 || |rows[|rows| - 1]| < 8
    ensures r.Some? ==> r.value == IconRow(
      Classify(rows[|rows| - 1][1]), Classify(rows[|rows| - 1][2]), Classify(rows[|rows| - 1][3]),
      Classify(rows[|rows| - 1][4]), Classify(rows[|rows| - 1][5]), Classify(rows[|rows| - 1][6]),
      Classify(rows[|rows| - 1][7]))
  {
    if |rows| == 0 then None
    else
      var cells := rows[|rows| - 1];
      if |cells| < 8 then None
      else Some(IconRow(
        Classify(cells[1]), Classify(cells[2]), Classify(cells[3]), Classify(cells[4]),
        Classify(cells[5]), Classify(cells[6]), Classify(cells[7])))
  }

  /** A class string the site would show for each icon. */
  function IconClass(icon: Icon): string
  {
    match icon
    case Check => "green"
    case Warn => "yellow"
    case Up => "arrow-up"
    case Down => "arrow-down"
    case Cross => "red"
  }

  lemma ClassifyYellow()
    ensures Classify("yellow") == Warn
  {
    MissingChar("yellow", "green", 'g');
    Found("yellow", "yellow", 0);
  }

  lemma ClassifyUp()
    ensures Classify("arrow-up") == Up
  {
    var cls := "arrow-up";
    assert forall i :: 0 <= i < |cls| ==> cls[i] != 'g' && cls[i] != 'y';
    MissingChar(cls, "green", 'g');
    MissingChar(cls, "yellow", 'y');
    Found(cls, "arrow-up", 0);
  }

  lemma DownMisses()
    ensures !Contains("arrow-down", "green")
    ensures !Contains("arrow-down", "yellow")
    ensures !Contains("arrow-down", "arrow-up")
  {
    var cls := "arrow-down";
    assert forall i :: 0 <= i < |cls| ==> cls[i] != 'g' && cls[i] != 'y' && cls[i] != 'u';
    MissingChar(cls, "green", 'g');
    MissingChar(cls, "yellow", 'y');
    MissingChar(cls, "arrow-up", 'u');
  }

  lemma ClassifyDown()
    ensures Classify("arrow-down") == Down
  {
    DownMisses();
    Found("arrow-down", "arrow-down", 0);
  }

  lemma ClassifyRed()
    ensures Classify("red") == Cross
  {
    var cls := "red";
    assert forall i :: 0 <= i < |cls| ==> cls[i] != 'g' && cls[i] != 'y' && cls[i] != 'a';
    MissingChar(cls, "green", 'g');
    MissingChar(cls, "yellow", 'y');
    MissingChar(cls, "arrow-up", 'a');
    MissingChar(cls, "arrow-down", 'a');
  }

  /** The classifier reads back every icon from its class. */
  lemma ClassifyRoundTrip(icon: Icon)
    ensures Classify(IconClass(icon)) == icon
  {
    match icon
    case Check =>
    case Warn => ClassifyYellow();
    case Up => ClassifyUp();
    case Down => ClassifyDown();
    case Cross => ClassifyRed();
  }

  /** The cells of a row showing `fb`, after a leading cell. */
  function RowCells(first: string, fb: IconRow): seq<string>
  {
    [first, IconClass(fb.name), IconClass(fb.hp), IconClass(fb.weapons), IconClass(fb.resistance),
     IconClass(fb.weakness), IconClass(fb.immunity), IconClass(fb.optional)]
  }

  /** Only the last row counts, and it reads back as the icons it shows. */
  lemma FeedbackFromRowsRoundTrip(earlier: seq<seq<string>>, first: string, fb: IconRow)
    ensures FeedbackFromRows(earlier + [RowCells(first, fb)]) == Some(fb)
  {
    ClassifyRoundTrip(fb.name);
    ClassifyRoundTrip(fb.hp);
    ClassifyRoundTrip(fb.weapons);
    ClassifyRoundTrip(fb.resistance);
    ClassifyRoundTrip(fb.weakness);
    ClassifyRoundTrip(fb.immunity);
    ClassifyRoundTrip(fb.optional);
  }

  /** A word of a class attribute that carries none of the words `Classify`
      looks for. */
  predicate MarkerFree(w: string)
  {
    !Contains(w, "green") && !Contains(w, "yellow") && !Contains(w, "arrow-up") && !Contains(w, "arrow-down")
  }

  /** A marker-free word in front of a class, as the site puts the cell's
      own class name, does not change the icon. */
  lemma ClassifyIgnoresOtherWords(w: string, cls: string)
    requires MarkerFree(w)
    ensures Classify(w + " " + cls) == Classify(cls)
  {
    assert w + " " + cls == w + [' '] + cls;
    ContainsAcross(w, ' ', cls, "green");
    ContainsAcross(w, ' ', cls, "yellow");
    ContainsAcross(w, ' ', cls, "arrow-up");
    ContainsAcross(w, ' ', cls, "arrow-down");
  }

  /** The class name the script selects the cells by has no marker. */
  lemma CellWordIsMarkerFree()
    ensures MarkerFree(SiteClasses.V1CellWord)
  {
    SiteClasses.V1CellWordLacksGreen();
    SiteClasses.V1CellWordLacksOthers();
  }

  /** The cells of a row showing `fb`, after a leading cell, each class
      after the word `w`. */
  function SiteRowCells(first: string, w: string, fb: IconRow): seq<string>
  {
    [first, w + " " + IconClass(fb.name), w + " " + IconClass(fb.hp), w + " " + IconClass(fb.weapons),
     w + " " + IconClass(fb.resistance), w + " " + IconClass(fb.weakness), w + " " + IconClass(fb.immunity),
     w + " " + IconClass(fb.optional)]
  }

  /** Only the last row counts, and classes such as
      "categories__content-cell arrow-up" read back as the icons they show,
      for any marker-free leading word. */
  lemma FeedbackFromSiteRowsRoundTrip(earlier: seq<seq<string>>, first: string, w: string, fb: IconRow)
    requires MarkerFree(w)
    ensures FeedbackFromRows(earlier + [SiteRowCells(first, w, fb)]) == Some(fb)
  {
    ClassifyIgnoresOtherWords(w, IconClass(fb.name));
    ClassifyIgnoresOtherWords(w, IconClass(fb.hp));
    ClassifyIgnoresOtherWords(w, IconClass(fb.weapons));
    ClassifyIgnoresOtherWords(w, IconClass(fb.resistance));
    ClassifyIgnoresOtherWords(w, IconClass(fb.weakness));
    ClassifyIgnoresOtherWords(w, IconClass(fb.immunity));
    ClassifyIgnoresOtherWords(w, IconClass(fb.optional));
    FeedbackFromRowsRoundTrip(earlier, first, fb);
  }

  /** The same for the class name the script selects the cells by. */
  lemma SiteRowReadsBack(earlier: seq<seq<string>>, first: string, fb: IconRow)
    ensures FeedbackFromRows(earlier + [SiteRowCells(first, SiteClasses.V1CellWord, fb)]) == Some(fb)
  {
    CellWordIsMarkerFree();
    FeedbackFromSiteRowsRoundTrip(earlier, first, SiteClasses.V1CellWord, fb);
  }
}
