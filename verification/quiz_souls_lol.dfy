/** The GUI bot (QuizSoulsLOL.py): a fixed restriction record folded from
    per-attribute feedback, a Gaussian-style scorer, a whitelist-filtered
    stable ranking, the attempt counter of the GUI application with its
    widget calls removed, and the CSS-class classifier of the feedback row.

    The Gaussian `exp(-z²)` is the parameter `g`, assumed to satisfy
    `Bell.IsBell`. */
module QuizSoulsLol {
  import opened Options
  import opened Text
  import opened Numbers
  import opened Bell
  import SortedLists
  import StableSort
  import SiteClasses

  // ---------------------------------------------------------------------
  // Catalog, feedback and restrictions
  // ---------------------------------------------------------------------

  /** A catalog entry as the loader leaves it. Only the lengths of the four
      lists and the lower-cased `optional` text are ever looked at. */
  datatype Boss = Boss(
    name: string,
    slug: string,
    hp: int,
    weapons: seq<string>,
    resistance: seq<string>,
    weakness: seq<string>,
    immunity: seq<string>,
    optional: string)

  /** The feedback symbols MAIOR, MENOR, IGUAL, PERTO, DIFERENTE and "—".
      `Unknown` also stands for an absent key and for any other text: no
      branch of the bot tells those apart. */
  datatype Signal = Greater | Less | Equal | Close | Different | Unknown

  /** One symbol per attribute of the feedback row. */
  datatype Feedback = Feedback(
    hp: Signal,
    weapons: Signal,
    resistance: Signal,
    weakness: Signal,
    immunity: Signal,
    optional: Signal)

  datatype HpRestriction = HpRestriction(min: Option<int>, max: Option<int>)

  /** Restriction on the length of a list attribute; `notList` is the
      source's "not" list of forbidden lengths. */
  datatype CountRestriction = CountRestriction(exact: Option<int>, notList: seq<int>, close: Option<int>)

  /** The whole restriction record. Weapons and Optional carry only `exact`;
      Optional's is 0 (required) or 1 (optional). */
  datatype Restrictions = Restrictions(
    hp: HpRestriction,
    weapons: Option<int>,
    resistance: CountRestriction,
    weakness: CountRestriction,
    immunity: CountRestriction,
    optional: Option<int>)

  /** The flag of an `optional` field: 1 for "optional" in any letter case,
      0 for anything else ("required", an empty string, a typo). */
  function OptionalToInt(s: string): (r: int)
    ensures r == 0 || r == 1
    ensures r == 1 <==> Lower(s) == "optional"
  {
    if Lower(s) == "optional" then 1 else 0
  }

  lemma OptionalToIntExamples()
    ensures OptionalToInt("optional") == 1
    ensures OptionalToInt("Optional") == 1
    ensures OptionalToInt("OPTIONAL") == 1
    ensures OptionalToInt("required") == 0
    ensures OptionalToInt("") == 0
  {
    assert Lower("Optional") == "optional";
    assert Lower("OPTIONAL") == "optional";
    assert Lower("required")[0] == 'r';
  }

  /** The flag ignores letter case: lower-casing the text first changes
      nothing. */
  lemma OptionalIgnoresCase(s: string)
    ensures OptionalToInt(Lower(s)) == OptionalToInt(s)
  {
    LowerIdempotent(s);
  }

  /** HP values a restriction still allows. */
  predicate HpAdmits(h: HpRestriction, v: int)
  {
    (h.min.None? || h.min.value <= v) && (h.max.None? || v <= h.max.value)
  }

  /** A count restriction that says nothing. */
  function NoCountInfo(): CountRestriction
  {
    CountRestriction(None, [], None)
  }

  /** The record a session starts from: no bound, no exact value, nothing
      forbidden. */
  function BuildRestrictions(): (r: Restrictions)
    ensures forall v :: HpAdmits(r.hp, v)
    ensures r.weapons.None? && r.optional.None?
    ensures r.resistance == r.weakness == r.immunity == NoCountInfo()
  {
    Restrictions(HpRestriction(None, None), None, NoCountInfo(), NoCountInfo(), NoCountInfo(), None)
  }

  // ---------------------------------------------------------------------
  // Feedback interpreter
  // ---------------------------------------------------------------------

  /** New bounds are at least as tight as old ones: a lower bound never
      falls, an upper bound never rises, a bound once set stays set. */
  predicate HpNarrower(r: HpRestriction, h: HpRestriction)
  {
    && (h.min.Some? ==> r.min.Some? && r.min.value >= h.min.value)
    && (h.max.Some? ==> r.max.Some? && r.max.value <= h.max.value)
  }

  /** HP feedback against a guess with `hp` hit points. MAIOR keeps the
      values above `hp`, MENOR those below; IGUAL replaces both bounds with
      `hp` whatever they were; every other symbol is ignored. */
  function ApplyHp(h: HpRestriction, sig: Signal, hp: int): (r: HpRestriction)
    ensures sig == Greater ==> r.max == h.max && forall v :: HpAdmits(r, v) <==> HpAdmits(h, v) && v > hp
    ensures sig == Less ==> r.min == h.min && forall v :: HpAdmits(r, v) <==> HpAdmits(h, v) && v < hp
    ensures sig == Equal ==> r.min == r.max == Some(hp)
    ensures sig == Equal ==> forall v :: HpAdmits(r, v) <==> v == hp
    ensures sig != Greater && sig != Less && sig != Equal ==> r == h
    ensures sig != Equal ==> HpNarrower(r, h)
  {
    match sig
    case Greater =>
      var lo := if h.min.Some? then Max(h.min.value, hp + 1) else hp + 1;
      h.(min := Some(lo))
    case Less =>
      var hi := if h.max.Some? then Min(h.max.value, hp - 1) else hp - 1;
      h.(max := Some(hi))
    case Equal => HpRestriction(Some(hp), Some(hp))
    case _ => h
  }

  /** IGUAL is not a narrowing: it can move the range outside the old one. */
  lemma EqualOverwritesHp()
    ensures ApplyHp(HpRestriction(Some(2000), Some(3000)), Equal, 1000) == HpRestriction(Some(1000), Some(1000))
    ensures !HpNarrower(ApplyHp(HpRestriction(Some(2000), Some(3000)), Equal, 1000), HpRestriction(Some(2000), Some(3000)))
  {
  }

  /** MAIOR past the upper bound leaves `min > max`; nothing prevents it. */
  lemma GreaterCanInvertRange()
    ensures ApplyHp(HpRestriction(None, Some(999)), Greater, 1000) == HpRestriction(Some(1001), Some(999))
  {
  }

  /** Weapons feedback against a guess with `count` weapons. IGUAL pins the
      count; DIFERENTE means "no weapons" when the guess had some and clears
      the exact value when it had none; every other symbol is ignored. */
  function ApplyWeapons(exact: Option<int>, sig: Signal, count: int): (r: Option<int>)
    ensures sig == Equal ==> r == Some(count)
    ensures sig == Different && count != 0 ==> r == Some(0)
    ensures sig == Different && count == 0 ==> r.None?
    ensures sig != Equal && sig != Different ==> r == exact
  {
    match sig
    case Equal => Some(count)
    case Different => if count == 0 then None else Some(0)
    case _ => exact
  }

  /** There is no exact lock: DIFERENTE with a weaponless guess forgets an
      earlier IGUAL. */
  lemma WeaponsDifferentClearsExact()
    ensures ApplyWeapons(ApplyWeapons(None, Equal, 2), Different, 0).None?
  {
  }

  /** Resistance/Weakness/Immunity feedback against a guess whose list has
      `count` entries. IGUAL sets `exact`, PERTO sets `close`, DIFERENTE
      adds `count` to the sorted, duplicate-free "not" list. */
  function ApplyCount(c: CountRestriction, sig: Signal, count: int): (r: CountRestriction)
    ensures sig == Equal ==> r == c.(exact := Some(count))
    ensures sig == Close ==> r == c.(close := Some(count))
    ensures sig == Different ==> r.exact == c.exact && r.close == c.close
    ensures sig == Different ==> SortedLists.StrictlyIncreasing(r.notList)
    ensures sig == Different ==> SortedLists.Elems(r.notList) == SortedLists.Elems(c.notList) + {count}
    ensures sig != Equal && sig != Close && sig != Different ==> r == c
  {
    match sig
    case Equal => c.(exact := Some(count))
    case Close => c.(close := Some(count))
    case Different => c.(notList := SortedLists.Canonical(c.notList + [count]))
    case _ => c
  }

  /** DIFERENTE on a length that is already forbidden changes nothing, once
      the "not" list is in its sorted form. */
  lemma DifferentOnForbiddenIsNoop(c: CountRestriction, count: int)
    requires SortedLists.StrictlyIncreasing(c.notList) && count in c.notList
    ensures ApplyCount(c, Different, count) == c
  {
    SortedLists.CanonicalFixesSorted(c.notList);
    var r := ApplyCount(c, Different, count);
    SortedLists.Unique(r.notList, c.notList);
  }

  /** Repeating a DIFERENTE changes nothing. */
  lemma {:induction false} DifferentIdempotent(c: CountRestriction, count: int)
    ensures ApplyCount(ApplyCount(c, Different, count), Different, count) == ApplyCount(c, Different, count)
  {
    var once := ApplyCount(c, Different, count);
    var twice := ApplyCount(once, Different, count);
    SortedLists.Unique(twice.notList, once.notList);
  }

  /** The "not" list depends only on which counts were reported DIFERENTE,
      not on their order. */
  lemma {:induction false} DifferentCommutes(c: CountRestriction, a: int, b: int)
    ensures ApplyCount(ApplyCount(c, Different, a), Different, b)
         == ApplyCount(ApplyCount(c, Different, b), Different, a)
  {
    var ab := ApplyCount(ApplyCount(c, Different, a), Different, b);
    var ba := ApplyCount(ApplyCount(c, Different, b), Different, a);
    SortedLists.Unique(ab.notList, ba.notList);
  }

  /** Optional feedback against a guess whose flag is `flag`: IGUAL means
      the same flag, DIFERENTE the other one. */
  function ApplyOptional(exact: Option<int>, sig: Signal, flag: int): (r: Option<int>)
    ensures sig == Equal ==> r == Some(flag)
    ensures sig == Different ==> r == Some(1 - flag)
    ensures (flag == 0 || flag == 1) && sig == Different ==> r.value != flag && (r.value == 0 || r.value == 1)
    ensures sig != Equal && sig != Different ==> r == exact
  {
    match sig
    case Equal => Some(flag)
    case Different => Some(1 - flag)
    case _ => exact
  }

  /** How one list attribute's restriction `c` becomes `r` when the site
      reports `sig` about a guess whose list has `n` entries: IGUAL pins
      `n`, PERTO makes `n` the close target, DIFERENTE forbids `n`, and
      anything else leaves the restriction alone. */
  predicate CountReport(c: CountRestriction, sig: Signal, n: int, r: CountRestriction)
  {
    && (sig == Equal ==> r == c.(exact := Some(n)))
    && (sig == Close ==> r == c.(close := Some(n)))
    && (sig == Different ==> r.exact == c.exact && r.close == c.close)
    && (sig == Different ==> SortedLists.Elems(r.notList) == SortedLists.Elems(c.notList) + {n})
    && (sig != Equal && sig != Close && sig != Different ==> r == c)
  }

  /** `apply_feedback_to_restrictions`: each attribute is updated from its
      own symbol and the guess's value for it (HP, list length, optional
      flag), and only from those. */
  function ApplyFeedback(r: Restrictions, fb: Feedback, guess: Boss): (res: Restrictions)
    ensures fb.hp == Greater ==> forall v :: HpAdmits(res.hp, v) <==> HpAdmits(r.hp, v) && v > guess.hp
    ensures fb.hp == Less ==> forall v :: HpAdmits(res.hp, v) <==> HpAdmits(r.hp, v) && v < guess.hp
    ensures fb.hp == Equal ==> res.hp == HpRestriction(Some(guess.hp), Some(guess.hp))
    ensures fb.hp == Unknown ==> res.hp == r.hp
    ensures fb.weapons == Equal ==> res.weapons == Some(|guess.weapons|)
    ensures fb.weapons == Different ==> res.weapons == (if |guess.weapons| == 0 then None else Some(0))
    ensures fb.weapons == Unknown ==> res.weapons == r.weapons
    ensures CountReport(r.resistance, fb.resistance, |guess.resistance|, res.resistance)
    ensures CountReport(r.weakness, fb.weakness, |guess.weakness|, res.weakness)
    ensures CountReport(r.immunity, fb.immunity, |guess.immunity|, res.immunity)
    ensures fb.optional == Equal ==> res.optional == Some(OptionalToInt(guess.optional))
    ensures fb.optional == Different ==> res.optional == Some(1 - OptionalToInt(guess.optional))
    ensures fb.optional == Unknown ==> res.optional == r.optional
  {
    Restrictions(
      ApplyHp(r.hp, fb.hp, guess.hp),
      ApplyWeapons(r.weapons, fb.weapons, |guess.weapons|),
      ApplyCount(r.resistance, fb.resistance, |guess.resistance|),
      ApplyCount(r.weakness, fb.weakness, |guess.weakness|),
      ApplyCount(r.immunity, fb.immunity, |guess.immunity|),
      ApplyOptional(r.optional, fb.optional, OptionalToInt(guess.optional)))
  }

  /** An attribute's new restriction depends on that attribute's symbol
      alone: two feedback rows that agree on it give the same result. */
  lemma ApplyFeedbackIsLocal(r: Restrictions, f1: Feedback, f2: Feedback, guess: Boss)
    ensures f1.hp == f2.hp ==> ApplyFeedback(r, f1, guess).hp == ApplyFeedback(r, f2, guess).hp
    ensures f1.weapons == f2.weapons ==> ApplyFeedback(r, f1, guess).weapons == ApplyFeedback(r, f2, guess).weapons
    ensures f1.resistance == f2.resistance ==> ApplyFeedback(r, f1, guess).resistance == ApplyFeedback(r, f2, guess).resistance
    ensures f1.weakness == f2.weakness ==> ApplyFeedback(r, f1, guess).weakness == ApplyFeedback(r, f2, guess).weakness
    ensures f1.immunity == f2.immunity ==> ApplyFeedback(r, f1, guess).immunity == ApplyFeedback(r, f2, guess).immunity
    ensures f1.optional == f2.optional ==> ApplyFeedback(r, f1, guess).optional == ApplyFeedback(r, f2, guess).optional
  {
  }

  /** Only IGUAL can loosen an HP bound; every other symbol narrows. */
  lemma HpBoundsMonotone(r: Restrictions, fb: Feedback, guess: Boss)
    requires fb.hp != Equal
    ensures HpNarrower(ApplyFeedback(r, fb, guess).hp, r.hp)
  {
  }

  /** What the interpreter takes a symbol about `guess` to say of the hidden
      boss `secret`. MAIOR, MENOR and IGUAL compare HP; IGUAL on a list
      compares its length and DIFERENTE says the lengths differ, except for
      Weapons, where DIFERENTE says one of the two has no weapons and the
      other has some; PERTO is a hint and promises nothing. */
  predicate Truthful(fb: Feedback, guess: Boss, secret: Boss)
  {
    && (fb.hp == Greater ==> secret.hp > guess.hp)
    && (fb.hp == Less ==> secret.hp < guess.hp)
    && (fb.hp == Equal ==> secret.hp == guess.hp)
    && (fb.weapons == Equal ==> |secret.weapons| == |guess.weapons|)
    && (fb.weapons == Different ==> (|secret.weapons| == 0 <==> |guess.weapons| != 0))
    && CountTruthful(fb.resistance, |guess.resistance|, |secret.resistance|)
    && CountTruthful(fb.weakness, |guess.weakness|, |secret.weakness|)
    && CountTruthful(fb.immunity, |guess.immunity|, |secret.immunity|)
    && (fb.optional == Equal ==> OptionalToInt(secret.optional) == OptionalToInt(guess.optional))
    && (fb.optional == Different ==> OptionalToInt(secret.optional) != OptionalToInt(guess.optional))
  }

  predicate CountTruthful(sig: Signal, guessCount: int, secretCount: int)
  {
    && (sig == Equal ==> secretCount == guessCount)
    && (sig == Different ==> secretCount != guessCount)
  }

  /** The hidden boss satisfies every hard part of the restrictions: the HP
      bounds, the exact values and the forbidden lengths. */
  predicate Consistent(r: Restrictions, secret: Boss)
  {
    && HpAdmits(r.hp, secret.hp)
    && (r.weapons.Some? ==> r.weapons.value == |secret.weapons|)
    && CountConsistent(r.resistance, |secret.resistance|)
    && CountConsistent(r.weakness, |secret.weakness|)
    && CountConsistent(r.immunity, |secret.immunity|)
    && (r.optional.Some? ==> r.optional.value == OptionalToInt(secret.optional))
  }

  predicate CountConsistent(c: CountRestriction, n: int)
  {
    (c.exact.Some? ==> c.exact.value == n) && n !in c.notList
  }

  /** Truthful feedback never rules out the hidden boss. */
  lemma {:induction false} ApplyFeedbackKeepsSecret(r: Restrictions, fb: Feedback, guess: Boss, secret: Boss)
    requires Consistent(r, secret) && Truthful(fb, guess, secret)
    ensures Consistent(ApplyFeedback(r, fb, guess), secret)
  {
    var res := ApplyFeedback(r, fb, guess);
    CountReportKeepsSecret(r.resistance, fb.resistance, |guess.resistance|, res.resistance, |secret.resistance|);
    CountReportKeepsSecret(r.weakness, fb.weakness, |guess.weakness|, res.weakness, |secret.weakness|);
    CountReportKeepsSecret(r.immunity, fb.immunity, |guess.immunity|, res.immunity, |secret.immunity|);
  }

  lemma CountReportKeepsSecret(c: CountRestriction, sig: Signal, n: int, r: CountRestriction, secretCount: int)
    requires CountReport(c, sig, n, r)
    requires CountConsistent(c, secretCount) && CountTruthful(sig, n, secretCount)
    ensures CountConsistent(r, secretCount)
  {
    if sig == Different {
      assert secretCount !in SortedLists.Elems(c.notList) + {n};
    }
  }

  // ---------------------------------------------------------------------
  // Scoring
  // ---------------------------------------------------------------------

  /** Where the HP score reaches its maximum 1.0: the exact centre of a
      well-formed range, anywhere past a one-sided bound, nowhere when there
      is no bound or `min > max`. */
  predicate HpPerfect(hp: int, min: Option<int>, max: Option<int>)
  {
    if min.Some? && max.Some? then
      min.value <= max.value && 2 * hp == min.value + max.value
    else if min.Some? then hp >= min.value
    else if max.Some? then hp <= max.value
    else false
  }

  /** `score_hp`: a bell around the centre of [min, max] (half-width at
      least 1), full marks beyond a one-sided bound with a bell of width 500
      below/above it, and 0.5 when there is no usable range. */
  function ScoreHp(g: real -> real, hp: int, min: Option<int>, max: Option<int>): (r: real)
    requires IsBell(g)
    ensures 0.0 < r <= 1.0
    ensures r == 1.0 <==> HpPerfect(hp, min, max)
    ensures min.None? && max.None? ==> r == 0.5
    ensures min.Some? && max.Some? && min.value > max.value ==> r == 0.5
  {
    if min.Some? && max.Some? && min.value <= max.value then
      var center := (min.value + max.value) as real / 2.0;
      var half := RMax((max.value - min.value) as real / 2.0, 1.0);
      var z := (hp as real - center) / half;
      assert z == 0.0 <==> hp as real == center;
      g(z)
    else if min.Some? && max.None? then
      if hp >= min.value then 1.0
      else g((min.value - hp) as real / 500.0)
    else if max.Some? && min.None? then
      if hp <= max.value then 1.0
      else g((hp - max.value) as real / 500.0)
    else
      0.5
  }

  /** `score_count_exact`: 0.45 for the exact term (1, 0, or 0.5 when
      unset), 0.25 for not being forbidden, 0.30 for the bell around the
      close target (0.5 when unset). */
  function ScoreCountExact(g: real -> real, count: int, exact: Option<int>, notList: seq<int>, close: Option<int>): (r: real)
    requires IsBell(g)
    ensures 0.0 < r <= 1.0
    ensures exact.None? && |notList| == 0 && close.None? ==> r == 0.625
    ensures count in notList ==> r <= 0.75
    ensures close.None? ==> r <= 0.85
    ensures r == 1.0 <==> exact == Some(count) && count !in notList && close == Some(count)
  {
    var sExact := if exact.Some? && count == exact.value then 1.0 else if exact.Some? then 0.0 else 0.5;
    var sNot := if count in notList then 0.0 else 1.0;
    var sClose := if close.Some? then g((count - close.value) as real / 1.5) else 0.5;
    assert close.Some? ==> (sClose == 1.0 <==> count == close.value);
    0.45 * sExact + 0.25 * sNot + 0.30 * sClose
  }

  /** Once an exact length is known, that length beats every other length
      by at least the exact weight 0.45, when both are forbidden alike and
      the close target, if any, is that length. */
  lemma ExactCountScoresHigher(g: real -> real, k: int, j: int, notList: seq<int>, close: Option<int>)
    requires IsBell(g)
    requires j != k && (j in notList <==> k in notList)
    requires close.None? || close.value == k
    ensures ScoreCountExact(g, k, Some(k), notList, close) >= ScoreCountExact(g, j, Some(k), notList, close) + 0.45
  {
    if close.Some? {
      assert g((k - close.value) as real / 1.5) == 1.0;
      assert g((j - close.value) as real / 1.5) <= 1.0;
    }
  }

  /** A restriction a list of `n` entries meets perfectly: `n` is the exact
      value and the close target and is not forbidden. */
  predicate CountPerfect(c: CountRestriction, n: int)
  {
    c.exact == Some(n) && n !in c.notList && c.close == Some(n)
  }

  /** Optional is a hard match once known. */
  function ScoreOptional(exact: Option<int>, flag: int): (r: real)
    ensures r == 1.0 || r == 0.0
    ensures r == 0.0 <==> exact.Some? && exact.value != flag
  {
    if exact.None? then 1.0 else if exact.value == flag then 1.0 else 0.0
  }

  /** Per-attribute scores, each in [0, 1]. */
  datatype Breakdown = Breakdown(hp: real, weapons: real, resistance: real, weakness: real, immunity: real, optional: real)

  predicate InUnit(x: real) { 0.0 <= x <= 1.0 }

  predicate BreakdownInUnit(bd: Breakdown)
  {
    InUnit(bd.hp) && InUnit(bd.weapons) && InUnit(bd.resistance)
    && InUnit(bd.weakness) && InUnit(bd.immunity) && InUnit(bd.optional)
  }

  /** The fixed weight vector; the weights add up to 1. */
  function Weighted(bd: Breakdown): real
  {
    0.28 * bd.hp + 0.16 * bd.weapons + 0.14 * bd.resistance
    + 0.18 * bd.weakness + 0.16 * bd.immunity + 0.08 * bd.optional
  }

  /** The display scale of the composite score. */
  const Scale: real := 15.0

  datatype Scored = Scored(total: real, breakdown: Breakdown)

  /** `score_boss`: the scaled weighted sum of the six attribute scores.
      Weapons is scored with no "not" list and no close target, so its
      score never exceeds 0.85 and the total never reaches 15. */
  function ScoreBoss(g: real -> real, b: Boss, r: Restrictions): (s: Scored)
    requires IsBell(g)
    ensures BreakdownInUnit(s.breakdown)
    ensures s.total == Scale * Weighted(s.breakdown)
    ensures s.breakdown.weapons <= 0.85
    ensures 0.0 <= s.total <= 14.64
    ensures s.breakdown.hp == 1.0 <==> HpPerfect(b.hp, r.hp.min, r.hp.max)
    ensures s.breakdown.weapons == (if r.weapons.None? then 0.625 else if r.weapons.value == |b.weapons| then 0.85 else 0.4)
    ensures s.breakdown.resistance == 1.0 <==> CountPerfect(r.resistance, |b.resistance|)
    ensures s.breakdown.weakness == 1.0 <==> CountPerfect(r.weakness, |b.weakness|)
    ensures s.breakdown.immunity == 1.0 <==> CountPerfect(r.immunity, |b.immunity|)
    ensures s.breakdown.optional == 0.0 <==> r.optional.Some? && r.optional.value != OptionalToInt(b.optional)
  {
    var bd := Breakdown(
      ScoreHp(g, b.hp, r.hp.min, r.hp.max),
      ScoreCountExact(g, |b.weapons|, r.weapons, [], None),
      ScoreCountExact(g, |b.resistance|, r.resistance.exact, r.resistance.notList, r.resistance.close),
      ScoreCountExact(g, |b.weakness|, r.weakness.exact, r.weakness.notList, r.weakness.close),
      ScoreCountExact(g, |b.immunity|, r.immunity.exact, r.immunity.notList, r.immunity.close),
      ScoreOptional(r.optional, OptionalToInt(b.optional)));
    Scored(Scale * Weighted(bd), bd)
  }

  /** Before any feedback every boss scores the same 9.3. */
  lemma FreshScoreIsUniform(g: real -> real, b: Boss)
    requires IsBell(g)
    ensures ScoreBoss(g, b, BuildRestrictions()).total == 9.3
  {
  }

  /** Self-consistency of IGUAL on HP: the guessed boss's HP scores 1. */
  lemma EqualHpScoresGuessFully(g: real -> real, r: Restrictions, fb: Feedback, guess: Boss)
    requires IsBell(g)
    requires fb.hp == Equal
    ensures ScoreBoss(g, guess, ApplyFeedback(r, fb, guess)).breakdown.hp == 1.0
  {
  }

  /** Self-consistency of IGUAL on Weapons: the guess scores 0.85 for it
      and every boss with another weapon count 0.4. */
  lemma EqualWeaponsScoresGuessBest(g: real -> real, r: Restrictions, fb: Feedback, guess: Boss, b: Boss)
    requires IsBell(g)
    requires fb.weapons == Equal && |b.weapons| != |guess.weapons|
    ensures ScoreBoss(g, guess, ApplyFeedback(r, fb, guess)).breakdown.weapons == 0.85
    ensures ScoreBoss(g, b, ApplyFeedback(r, fb, guess)).breakdown.weapons == 0.4
  {
  }

  /** IGUAL was reported for a list of `gn` entries, a boss has `bn != gn`,
      there is no close target, and the "not" list forbids both lengths or
      neither. */
  predicate OnlyExactSeparates(sig: Signal, c: CountRestriction, gn: int, bn: int)
  {
    sig == Equal && bn != gn && c.close.None? && (bn in c.notList <==> gn in c.notList)
  }

  /** Self-consistency of IGUAL on Resistance, Weakness and Immunity: the
      guess outscores every boss with another length by at least 0.45 on
      that attribute, unless a close target or the "not" list tells them
      apart. */
  lemma EqualCountScoresGuessBest(g: real -> real, r: Restrictions, fb: Feedback, guess: Boss, b: Boss)
    requires IsBell(g)
    ensures OnlyExactSeparates(fb.resistance, r.resistance, |guess.resistance|, |b.resistance|) ==>
      ScoreBoss(g, guess, ApplyFeedback(r, fb, guess)).breakdown.resistance
      >= ScoreBoss(g, b, ApplyFeedback(r, fb, guess)).breakdown.resistance + 0.45
    ensures OnlyExactSeparates(fb.weakness, r.weakness, |guess.weakness|, |b.weakness|) ==>
      ScoreBoss(g, guess, ApplyFeedback(r, fb, guess)).breakdown.weakness
      >= ScoreBoss(g, b, ApplyFeedback(r, fb, guess)).breakdown.weakness + 0.45
    ensures OnlyExactSeparates(fb.immunity, r.immunity, |guess.immunity|, |b.immunity|) ==>
      ScoreBoss(g, guess, ApplyFeedback(r, fb, guess)).breakdown.immunity
      >= ScoreBoss(g, b, ApplyFeedback(r, fb, guess)).breakdown.immunity + 0.45
  {
    var res := ApplyFeedback(r, fb, guess);
    if OnlyExactSeparates(fb.resistance, r.resistance, |guess.resistance|, |b.resistance|) {
      ExactCountScoresHigher(g, |guess.resistance|, |b.resistance|, res.resistance.notList, None);
    }
    if OnlyExactSeparates(fb.weakness, r.weakness, |guess.weakness|, |b.weakness|) {
      ExactCountScoresHigher(g, |guess.weakness|, |b.weakness|, res.weakness.notList, None);
    }
    if OnlyExactSeparates(fb.immunity, r.immunity, |guess.immunity|, |b.immunity|) {
      ExactCountScoresHigher(g, |guess.immunity|, |b.immunity|, res.immunity.notList, None);
    }
  }

  /** Self-consistency of IGUAL on Optional: the guess scores 1 for it and
      every boss with the other flag 0. */
  lemma EqualOptionalScoresGuessBest(g: real -> real, r: Restrictions, fb: Feedback, guess: Boss, b: Boss)
    requires IsBell(g)
    requires fb.optional == Equal
    ensures ScoreBoss(g, guess, ApplyFeedback(r, fb, guess)).breakdown.optional == 1.0
    ensures OptionalToInt(b.optional) != OptionalToInt(guess.optional) ==>
      ScoreBoss(g, b, ApplyFeedback(r, fb, guess)).breakdown.optional == 0.0
  {
  }

  /** MAIOR on a guess with 1000 HP: min becomes 1001, a 1001-HP boss
      scores HP 1.0 and a 999-HP boss scores strictly less. */
  lemma GreaterScenario(g: real -> real)
    requires IsBell(g)
    ensures ApplyHp(HpRestriction(None, None), Greater, 1000).min == Some(1001)
    ensures ScoreHp(g, 1001, Some(1001), None) == 1.0
    ensures ScoreHp(g, 999, Some(1001), None) < 1.0
  {
  }

  lemma AbsOverPositive(x: real, h: real)
    requires h > 0.0
    ensures Abs(x / h) == Abs(x) / h
  {
  }

  lemma DivideMonotone(x: real, y: real, h: real)
    requires h > 0.0 && x <= y
    ensures x / h <= y / h
  {
  }

  /** Within a well-formed range the HP score is the bell at the boss's
      distance from the centre, in half-widths. */
  lemma ScoreHpInRange(g: real -> real, v: int, lo: int, hi: int)
    requires IsBell(g) && lo <= hi
    ensures ScoreHp(g, v, Some(lo), Some(hi))
      == g(((2 * v - lo - hi) as real / 2.0) / RMax((hi - lo) as real / 2.0, 1.0))
  {
    assert v as real - (lo + hi) as real / 2.0 == (2 * v - lo - hi) as real / 2.0;
  }

  /** Halving and dividing by the half-width keep the order of distances. */
  lemma ScaledDistanceOrdered(x: real, y: real, half: real)
    requires half >= 1.0 && Abs(x) <= Abs(y)
    ensures Abs((x / 2.0) / half) <= Abs((y / 2.0) / half)
  {
    AbsOverPositive(x, 2.0);
    AbsOverPositive(y, 2.0);
    DivideMonotone(Abs(x), Abs(y), 2.0);
    AbsOverPositive(x / 2.0, half);
    AbsOverPositive(y / 2.0, half);
    DivideMonotone(Abs(x / 2.0), Abs(y / 2.0), half);
  }

  /** With a well-formed range, a boss nearer the centre never scores lower
      (when the bell falls off monotonically, as `exp(-z²)` does). */
  lemma HpCloserToCentreScoresHigher(g: real -> real, a: int, b: int, lo: int, hi: int)
    requires IsBell(g) && Unimodal(g)
    requires lo <= hi
    requires Abs((2 * a - lo - hi) as real) <= Abs((2 * b - lo - hi) as real)
    ensures ScoreHp(g, b, Some(lo), Some(hi)) <= ScoreHp(g, a, Some(lo), Some(hi))
  {
    var half := RMax((hi - lo) as real / 2.0, 1.0);
    var za := ((2 * a - lo - hi) as real / 2.0) / half;
    var zb := ((2 * b - lo - hi) as real / 2.0) / half;
    ScoreHpInRange(g, a, lo, hi);
    ScoreHpInRange(g, b, lo, hi);
    ScaledDistanceOrdered((2 * a - lo - hi) as real, (2 * b - lo - hi) as real, half);
    assert g(zb) <= g(za);
  }

  // ---------------------------------------------------------------------
  // Ranking
  // ---------------------------------------------------------------------

  /** A boss passes the whitelist when there is none, when it is empty, or
      when it names the boss. */
  predicate Admitted(b: Boss, whitelist: Option<seq<string>>)
  {
    whitelist.None? || |whitelist.value| == 0 || b.name in whitelist.value
  }

  /** The bosses of `bs` whose name is in `names`, in catalog order. */
  function KeepNamed(bs: seq<Boss>, names: seq<string>): (r: seq<Boss>)
    ensures forall b :: b in r <==> b in bs && b.name in names
    ensures |r| <= |bs|
  {
    if |bs| == 0 then []
    else (if bs[0].name in names then [bs[0]] else []) + KeepNamed(bs[1..], names)
  }

  /** The candidate pool of `rank_bosses`: an absent or empty whitelist
      filters nothing. */
  function Candidates(catalog: seq<Boss>, whitelist: Option<seq<string>>): (r: seq<Boss>)
    ensures forall b :: b in r <==> b in catalog && Admitted(b, whitelist)
    ensures whitelist.None? || |whitelist.value| == 0 ==> r == catalog
  {
    if whitelist.None? || |whitelist.value| == 0 then catalog
    else KeepNamed(catalog, whitelist.value)
  }

  /** Filtering a catalog filters its parts in turn: the kept bosses stay
      in catalog order. */
  lemma {:induction false} KeepNamedAppend(a: seq<Boss>, b: seq<Boss>, names: seq<string>)
    ensures KeepNamed(a + b, names) == KeepNamed(a, names) + KeepNamed(b, names)
    decreases |a|
  {
    if |a| == 0 {
      assert a + b == b;
    } else {
      assert (a + b)[0] == a[0];
      assert (a + b)[1..] == a[1..] + b;
      KeepNamedAppend(a[1..], b, names);
    }
  }

  /** The candidates of a catalog are the candidates of its parts, in catalog
      order; together with `CandidatesSingle` this fixes the whole list. */
  lemma CandidatesAppend(a: seq<Boss>, b: seq<Boss>, whitelist: Option<seq<string>>)
    ensures Candidates(a + b, whitelist) == Candidates(a, whitelist) + Candidates(b, whitelist)
  {
    if whitelist.Some? && |whitelist.value| > 0 {
      KeepNamedAppend(a, b, whitelist.value);
    }
  }

  /** A one-boss catalog keeps its boss exactly when it is admitted. */
  lemma CandidatesSingle(b: Boss, whitelist: Option<seq<string>>)
    ensures Candidates([b], whitelist) == if Admitted(b, whitelist) then [b] else []
  {
    if whitelist.Some? && |whitelist.value| > 0 {
      assert [b][1..] == [];
    }
  }

  /** A row of the ranking: (boss, score, breakdown). */
  datatype Ranked = Ranked(boss: Boss, score: real, breakdown: Breakdown)

  function RankKey(e: Ranked): real { e.score }

  /** The row `score_boss` produces for `b`. */
  function Entry(g: real -> real, r: Restrictions, b: Boss): (e: Ranked)
    requires IsBell(g)
    ensures e.boss == b
  {
    var s := ScoreBoss(g, b, r);
    Ranked(b, s.total, s.breakdown)
  }

  /** The rows of `bs`, unsorted, in the order of `bs`. */
  function Entries(g: real -> real, r: Restrictions, bs: seq<Boss>): (es: seq<Ranked>)
    requires IsBell(g)
    ensures |es| == |bs|
    ensures forall i :: 0 <= i < |bs| ==> es[i] == Entry(g, r, bs[i])
  {
    seq(|bs|, i requires 0 <= i < |bs| => Entry(g, r, bs[i]))
  }

  /** Every row of `Entries` belongs to one of `bs` and is that boss's row. */
  lemma EntriesMembers(g: real -> real, r: Restrictions, bs: seq<Boss>, e: Ranked)
    requires IsBell(g)
    requires e in multiset(Entries(g, r, bs))
    ensures e.boss in bs && e == Entry(g, r, e.boss)
  {
    var es := Entries(g, r, bs);
    var i :| 0 <= i < |es| && es[i] == e;
  }

  /** `rank_bosses`: every admitted boss exactly once, scored against `r`,
      best first. */
  function RankBosses(g: real -> real, catalog: seq<Boss>, r: Restrictions, whitelist: Option<seq<string>>): (res: seq<Ranked>)
    requires IsBell(g)
    ensures StableSort.NonIncreasing(res, RankKey)
    ensures multiset(res) == multiset(Entries(g, r, Candidates(catalog, whitelist)))
    ensures forall e :: e in res ==> e.boss in catalog && Admitted(e.boss, whitelist) && e == Entry(g, r, e.boss)
    ensures forall i :: 0 <= i < |res| ==> res[i].score <= res[0].score
  {
    var bs := Candidates(catalog, whitelist);
    var es := Entries(g, r, bs);
    var res := StableSort.Sort(es, RankKey);
    assert forall e :: e in res ==> e.boss in bs && e == Entry(g, r, e.boss) by {
      forall e | e in res ensures e.boss in bs && e == Entry(g, r, e.boss) {
        assert e in multiset(res);
        EntriesMembers(g, r, bs, e);
      }
    }
    assert forall i :: 0 <= i < |res| ==> res[i].score <= res[0].score by {
      forall i | 0 < i < |res| ensures res[i].score <= res[0].score {
        assert RankKey(res[0]) >= RankKey(res[i]);
      }
    }
    res
  }

  /** Ties keep catalog order: the rows sharing any one score appear in the
      ranking in the order their bosses have in the catalog. */
  lemma RankTiesKeepCatalogOrder(g: real -> real, catalog: seq<Boss>, r: Restrictions, whitelist: Option<seq<string>>, k: real)
    requires IsBell(g)
    ensures StableSort.WithKey(RankBosses(g, catalog, r, whitelist), RankKey, k)
         == StableSort.WithKey(Entries(g, r, Candidates(catalog, whitelist)), RankKey, k)
  {
    StableSort.SortKeepsTies(Entries(g, r, Candidates(catalog, whitelist)), RankKey, k);
  }

  /** The top row is the first candidate, in catalog order, with the best
      score: every candidate before it scores strictly less. */
  lemma RankHeadIsFirstBest(g: real -> real, catalog: seq<Boss>, r: Restrictions, whitelist: Option<seq<string>>)
    requires IsBell(g)
    requires |Candidates(catalog, whitelist)| > 0
    ensures exists i ::
      && StableSort.FirstBest(Entries(g, r, Candidates(catalog, whitelist)), RankKey, i)
      && RankBosses(g, catalog, r, whitelist)[0] == Entries(g, r, Candidates(catalog, whitelist))[i]
  {
    StableSort.SortHeadIsFirstBest(Entries(g, r, Candidates(catalog, whitelist)), RankKey);
  }

  /** Before any feedback the ranking is the (filtered) catalog in order. */
  lemma FreshRankingIsCatalogOrder(g: real -> real, catalog: seq<Boss>, whitelist: Option<seq<string>>)
    requires IsBell(g)
    ensures RankBosses(g, catalog, BuildRestrictions(), whitelist)
         == Entries(g, BuildRestrictions(), Candidates(catalog, whitelist))
  {
    var es := Entries(g, BuildRestrictions(), Candidates(catalog, whitelist));
    forall i | 0 <= i < |es| ensures RankKey(es[i]) == 9.3 {
      FreshScoreIsUniform(g, Candidates(catalog, whitelist)[i]);
    }
    StableSort.SortOfEqualKeys(es, RankKey, 9.3);
  }

  /** A whitelist of "Boss2" and "Boss3" keeps "Boss1" out of the ranking
      whatever its score. */
  lemma WhitelistScenario(g: real -> real, r: Restrictions, b1: Boss, b2: Boss, b3: Boss)
    requires IsBell(g)
    requires b1.name == "Boss1" && b2.name == "Boss2" && b3.name == "Boss3"
    ensures forall e :: e in RankBosses(g, [b1, b2, b3], r, Some(["Boss2", "Boss3"])) ==> e.boss != b1
  {
    var wl := ["Boss2", "Boss3"];
    assert "Boss1" !in wl by {
      assert "Boss1"[4] != "Boss2"[4] && "Boss1"[4] != "Boss3"[4];
    }
    var res := RankBosses(g, [b1, b2, b3], r, Some(wl));
    forall e | e in res ensures e.boss != b1 {
      assert e.boss.name in wl;
    }
  }

  // ---------------------------------------------------------------------
  // Session (the attempt logic of the GUI application)
  // ---------------------------------------------------------------------

  /** `max_attempts`. */
  const MaxAttempts: nat := 7

  /** The application state the attempt logic reads and writes. */
  datatype Session = Session(catalog: seq<Boss>, restrictions: Restrictions, ranking: seq<Ranked>, attempt: nat)

  /** What a session promises between calls: the counter is within bounds
      and the ranking lists catalog bosses scored against the current
      restrictions, best first. */
  ghost predicate Coherent(g: real -> real, s: Session)
    requires IsBell(g)
  {
    && s.attempt <= MaxAttempts
    && StableSort.NonIncreasing(s.ranking, RankKey)
    && forall e :: e in s.ranking ==> e.boss in s.catalog && e == Entry(g, s.restrictions, e.boss)
  }

  /** `start_automation` without the browser: counter and restrictions
      cleared, the catalog ranked against the scraper's suggestions (None
      when there is no scraper). */
  function Start(g: real -> real, catalog: seq<Boss>, suggestions: Option<seq<string>>): (s: Session)
    requires IsBell(g)
    ensures Coherent(g, s)
    ensures s.attempt == 0 && s.restrictions == BuildRestrictions()
    ensures s.ranking == Entries(g, BuildRestrictions(), Candidates(catalog, suggestions))
  {
    FreshRankingIsCatalogOrder(g, catalog, suggestions);
    Session(catalog, BuildRestrictions(), RankBosses(g, catalog, BuildRestrictions(), suggestions), 0)
  }

  /** `reset_quiz`: counter and restrictions cleared and the whole catalog
      re-ranked, which puts it back in catalog order. */
  function Reset(g: real -> real, s: Session): (r: Session)
    requires IsBell(g)
    ensures Coherent(g, r)
    ensures r.catalog == s.catalog && r.attempt == 0 && r.restrictions == BuildRestrictions()
    ensures r.ranking == Entries(g, BuildRestrictions(), s.catalog)
  {
    FreshRankingIsCatalogOrder(g, s.catalog, None);
    s.(attempt := 0, restrictions := BuildRestrictions(), ranking := RankBosses(g, s.catalog, BuildRestrictions(), None))
  }

  datatype AttemptOutcome = LimitReached | NoCandidates | Guessed(boss: Boss, score: real)

  /** `do_attempt`: refuse once `MaxAttempts` guesses were made or when the
      ranking is empty; otherwise count the attempt and guess the top row. */
  function DoAttempt(s: Session): (res: (Session, AttemptOutcome))
    ensures res.1 == LimitReached <==> s.attempt >= MaxAttempts
    ensures res.1 == NoCandidates <==> s.attempt < MaxAttempts && |s.ranking| == 0
    ensures res.1.Guessed? ==> res.0 == s.(attempt := s.attempt + 1) && Ranked(res.1.boss, res.1.score, s.ranking[0].breakdown) == s.ranking[0]
    ensures !res.1.Guessed? ==> res.0 == s
    ensures s.attempt <= MaxAttempts ==> res.0.attempt <= MaxAttempts
  {
    if s.attempt >= MaxAttempts then (s, LimitReached)
    else if |s.ranking| == 0 then (s, NoCandidates)
    else (s.(attempt := s.attempt + 1), Guessed(s.ranking[0].boss, s.ranking[0].score))
  }

  /** The guess is a catalog boss with the best score under the current
      restrictions, and the session stays coherent. */
  lemma GuessIsBest(g: real -> real, s: Session)
    requires IsBell(g) && Coherent(g, s)
    ensures Coherent(g, DoAttempt(s).0)
    ensures DoAttempt(s).1.Guessed? ==>
      var b := DoAttempt(s).1.boss;
      && b in s.catalog
      && DoAttempt(s).1.score == ScoreBoss(g, b, s.restrictions).total
      && forall e :: e in s.ranking ==> e.score <= DoAttempt(s).1.score
  {
    if DoAttempt(s).1.Guessed? {
      assert s.ranking[0] in s.ranking;
      forall e | e in s.ranking ensures e.score <= s.ranking[0].score {
        var i :| 0 <= i < |s.ranking| && s.ranking[i] == e;
        if i > 0 {
          assert RankKey(s.ranking[0]) >= RankKey(s.ranking[i]);
        }
      }
    }
  }

  /** The symbols each combo box offers. */
  predicate HpOffered(sig: Signal) { sig == Greater || sig == Less || sig == Equal }
  predicate YesNoOffered(sig: Signal) { sig == Equal || sig == Different }
  predicate CountOffered(sig: Signal) { sig == Equal || sig == Close || sig == Different }

  /** Every box shows one of its own symbols or "—". */
  predicate Offered(fb: Feedback)
  {
    && (HpOffered(fb.hp) || fb.hp == Unknown)
    && (YesNoOffered(fb.weapons) || fb.weapons == Unknown)
    && (CountOffered(fb.resistance) || fb.resistance == Unknown)
    && (CountOffered(fb.weakness) || fb.weakness == Unknown)
    && (CountOffered(fb.immunity) || fb.immunity == Unknown)
    && (YesNoOffered(fb.optional) || fb.optional == Unknown)
  }

  /** The combo boxes: HP offers MAIOR/MENOR/IGUAL, Weapons and Optional
      IGUAL/DIFERENTE, the other three IGUAL/PERTO/DIFERENTE; anything else
      reads as "—". */
  function NormalizeFeedback(raw: Feedback): (fb: Feedback)
    ensures Offered(fb)
    ensures Offered(raw) ==> fb == raw
    ensures HpOffered(raw.hp) <==> fb.hp == raw.hp && fb.hp != Unknown
    ensures !HpOffered(raw.hp) ==> fb.hp == Unknown
    ensures YesNoOffered(raw.weapons) <==> fb.weapons == raw.weapons && fb.weapons != Unknown
    ensures !YesNoOffered(raw.weapons) ==> fb.weapons == Unknown
    ensures CountOffered(raw.resistance) <==> fb.resistance == raw.resistance && fb.resistance != Unknown
    ensures !CountOffered(raw.resistance) ==> fb.resistance == Unknown
    ensures CountOffered(raw.weakness) <==> fb.weakness == raw.weakness && fb.weakness != Unknown
    ensures !CountOffered(raw.weakness) ==> fb.weakness == Unknown
    ensures CountOffered(raw.immunity) <==> fb.immunity == raw.immunity && fb.immunity != Unknown
    ensures !CountOffered(raw.immunity) ==> fb.immunity == Unknown
    ensures YesNoOffered(raw.optional) <==> fb.optional == raw.optional && fb.optional != Unknown
    ensures !YesNoOffered(raw.optional) ==> fb.optional == Unknown
  {
    Feedback(
      if HpOffered(raw.hp) then raw.hp else Unknown,
      if YesNoOffered(raw.weapons) then raw.weapons else Unknown,
      if CountOffered(raw.resistance) then raw.resistance else Unknown,
      if CountOffered(raw.weakness) then raw.weakness else Unknown,
      if CountOffered(raw.immunity) then raw.immunity else Unknown,
      if YesNoOffered(raw.optional) then raw.optional else Unknown)
  }

  /** The combo-box filter never changes what the interpreter does: every
      symbol it drops is one the interpreter ignores for that attribute. */
  lemma NormalizationIsInvisible(r: Restrictions, raw: Feedback, guess: Boss)
    ensures ApplyFeedback(r, NormalizeFeedback(raw), guess) == ApplyFeedback(r, raw, guess)
  {
  }

  /** Normalising twice is normalising once. */
  lemma NormalizeIdempotent(raw: Feedback)
    ensures NormalizeFeedback(NormalizeFeedback(raw)) == NormalizeFeedback(raw)
  {
  }

  /** The found-the-boss test: every attribute IGUAL. */
  predicate AllEqual(fb: Feedback)
  {
    fb.hp == Equal && fb.weapons == Equal && fb.resistance == Equal
    && fb.weakness == Equal && fb.immunity == Equal && fb.optional == Equal
  }

  datatype FeedbackOutcome = NoRanking | Applied(guess: Boss, solved: bool, exhausted: bool)

  /** `apply_feedback_and_update`: with a non-empty ranking, fold the
      feedback into the restrictions against the top row's boss, re-rank
      against the suggestions, and report whether every attribute was IGUAL
      and whether the attempts are used up. The counter is not touched. */
  function ApplyFeedbackAndUpdate(g: real -> real, s: Session, raw: Feedback, suggestions: Option<seq<string>>): (res: (Session, FeedbackOutcome))
    requires IsBell(g)
    ensures |s.ranking| == 0 ==> res == (s, NoRanking)
    ensures |s.ranking| > 0 ==>
      var restr := ApplyFeedback(s.restrictions, raw, s.ranking[0].boss);
      && res.1 == Applied(s.ranking[0].boss, AllEqual(raw), s.attempt >= MaxAttempts)
      && res.0 == s.(restrictions := restr, ranking := RankBosses(g, s.catalog, restr, suggestions))
    ensures Coherent(g, s) ==> Coherent(g, res.0)
  {
    if |s.ranking| == 0 then (s, NoRanking)
    else
      var guess := s.ranking[0].boss;
      var fb := NormalizeFeedback(raw);
      NormalizationIsInvisible(s.restrictions, raw, guess);
      var restr := ApplyFeedback(s.restrictions, fb, guess);
      var ranking := RankBosses(g, s.catalog, restr, suggestions);
      (s.(restrictions := restr, ranking := ranking), Applied(guess, AllEqual(fb), s.attempt >= MaxAttempts))
  }

  /** Feedback that follows a guess is applied against that very guess. */
  lemma FeedbackUsesTheGuess(g: real -> real, s: Session, raw: Feedback, suggestions: Option<seq<string>>)
    requires IsBell(g)
    requires DoAttempt(s).1.Guessed?
    ensures ApplyFeedbackAndUpdate(g, DoAttempt(s).0, raw, suggestions).1 == Applied(
      DoAttempt(s).1.boss, AllEqual(raw), DoAttempt(s).0.attempt >= MaxAttempts)
  {
  }

  /** All six IGUAL after guessing "Boss1" reports it found. */
  lemma SolvedScenario(g: real -> real, s: Session, boss1: Boss)
    requires IsBell(g)
    requires |s.ranking| > 0 && s.ranking[0].boss == boss1 && s.attempt < MaxAttempts
    requires boss1 == Boss("Boss1", "boss1", 1000, ["w"], ["r"], ["k"], [], "required")
    ensures DoAttempt(s).1 == Guessed(boss1, s.ranking[0].score)
    ensures ApplyFeedbackAndUpdate(g, DoAttempt(s).0, Feedback(Equal, Equal, Equal, Equal, Equal, Equal), None).1
         == Applied(boss1, true, DoAttempt(s).0.attempt >= MaxAttempts)
  {
  }

  /** A button press of the GUI: INICIAR BOT (with the scraper's
      suggestions), PARAR BOT, FAZER TENTATIVA, APLICAR FEEDBACK (with the
      combo-box symbols and the scraper's suggestions) and RESET QUIZ.
      PARAR BOT only closes the browser, so it leaves the session alone. */
  datatype Action =
    | StartBot(initial: Option<seq<string>>)
    | StopBot
    | Attempt
    | GiveFeedback(raw: Feedback, suggestions: Option<seq<string>>)
    | ResetQuiz

  /** A press that puts the counter back to 0. */
  predicate Restarts(a: Action)
  {
    a.StartBot? || a.ResetQuiz?
  }

  /** Runs the presses in order; returns the final session and how many
      guesses were made. Between two restarts no more than `MaxAttempts`
      guesses can be made, however the buttons are pressed. */
  function Run(g: real -> real, s: Session, actions: seq<Action>): (res: (Session, nat))
    requires IsBell(g)
    ensures s.attempt <= MaxAttempts ==> res.0.attempt <= MaxAttempts
    ensures (forall i :: 0 <= i < |actions| ==> !Restarts(actions[i])) ==> res.0.attempt == s.attempt + res.1
    decreases |actions|
  {
    if |actions| == 0 then (s, 0)
    else
      match actions[0]
      case StartBot(initial) =>
        Run(g, Start(g, s.catalog, initial), actions[1..])
      case StopBot =>
        Run(g, s, actions[1..])
      case Attempt =>
        var (s1, out) := DoAttempt(s);
        var (s2, n) := Run(g, s1, actions[1..]);
        (s2, n + if out.Guessed? then 1 else 0)
      case GiveFeedback(raw, suggestions) =>
        Run(g, ApplyFeedbackAndUpdate(g, s, raw, suggestions).0, actions[1..])
      case ResetQuiz =>
        Run(g, Reset(g, s), actions[1..])
  }

  /** Without a reset, at most `MaxAttempts - attempt` more guesses. */
  lemma GuessesBounded(g: real -> real, s: Session, actions: seq<Action>)
    requires IsBell(g)
    requires s.attempt <= MaxAttempts
    requires forall i :: 0 <= i < |actions| ==> !Restarts(actions[i])
    ensures Run(g, s, actions).1 <= MaxAttempts - s.attempt
  {
  }

  // ---------------------------------------------------------------------
  // Feedback-row classifier (the pure part of get_feedback_from_site)
  // ---------------------------------------------------------------------

  /** The HP cell: green is IGUAL; red is MAIOR with an up arrow, MENOR with
      a down arrow, DIFERENTE without one; anything else is "—". */
  function ClassifyHpCell(cls: string): (sig: Signal)
    ensures sig != Close
    ensures sig == Equal <==> Contains(cls, "green")
    ensures sig == Unknown <==> !Contains(cls, "green") && !Contains(cls, "red")
    ensures sig == Greater <==> !Contains(cls, "green") && Contains(cls, "red") && Contains(cls, "arrow-up")
    ensures sig == Less <==> (!Contains(cls, "green") && Contains(cls, "red")
      && !Contains(cls, "arrow-up") && Contains(cls, "arrow-down"))
    ensures sig == Different <==> (!Contains(cls, "green") && Contains(cls, "red")
      && !Contains(cls, "arrow-up") && !Contains(cls, "arrow-down"))
  {
    if Contains(cls, "green") then Equal
    else if Contains(cls, "red") then
      if Contains(cls, "arrow-up") then Greater
      else if Contains(cls, "arrow-down") then Less
      else Different
    else Unknown
  }

  /** Any other cell: green IGUAL, orange PERTO, red DIFERENTE, else "—". */
  function ClassifyCell(cls: string): (sig: Signal)
    ensures sig != Greater && sig != Less
    ensures sig == Equal <==> Contains(cls, "green")
    ensures sig == Unknown <==> !Contains(cls, "green") && !Contains(cls, "orange") && !Contains(cls, "red")
    ensures sig == Close <==> !Contains(cls, "green") && Contains(cls, "orange")
    ensures sig == Different <==> !Contains(cls, "green") && !Contains(cls, "orange") && Contains(cls, "red")
  {
    if Contains(cls, "green") then Equal
    else if Contains(cls, "orange") then Close
    else if Contains(cls, "red") then Different
    else Unknown
  }

  /** The cell classes of one feedback row (NAME first, then the six
      attributes): fewer than seven cells give nothing, extra cells are
      ignored. */
  function FeedbackFromCells(cells: seq<string>): (r: Option<Feedback>)
    ensures r.None? <==> |cells| < 7
    ensures r.Some? ==> r.value.hp != Close
    ensures r.Some? ==> r.value == Feedback(ClassifyHpCell(cells[1]), ClassifyCell(cells[2]),
      ClassifyCell(cells[3]), ClassifyCell(cells[4]), ClassifyCell(cells[5]), ClassifyCell(cells[6]))
  {
    if |cells| < 7 then None
    else Some(Feedback(
      ClassifyHpCell(cells[1]),
      ClassifyCell(cells[2]),
      ClassifyCell(cells[3]),
      ClassifyCell(cells[4]),
      ClassifyCell(cells[5]),
      ClassifyCell(cells[6])))
  }

  /** A class string the site would show for each HP symbol. */
  function HpCellClass(sig: Signal): string
  {
    match sig
    case Equal => "green"
    case Greater => "red arrow-up"
    case Less => "red arrow-down"
    case Different => "red"
    case _ => ""
  }

  /** A class string the site would show for each other symbol. */
  function CellClass(sig: Signal): string
  {
    match sig
    case Equal => "green"
    case Close => "orange"
    case Different => "red"
    case _ => ""
  }

  lemma ClassifyUpArrow()
    ensures ClassifyHpCell("red arrow-up") == Greater
  {
    assert !Contains("red arrow-up", "green") by { MissingChar("red arrow-up", "green", 'g'); }
    assert Contains("red arrow-up", "red") by { Found("red arrow-up", "red", 0); }
    assert Contains("red arrow-up", "arrow-up") by { Found("red arrow-up", "arrow-up", 4); }
  }

  lemma DownArrowMisses()
    ensures !Contains("red arrow-down", "green")
    ensures !Contains("red arrow-down", "arrow-up")
  {
    var cls := "red arrow-down";
    assert forall i :: 0 <= i < |cls| ==> cls[i] != 'g' && cls[i] != 'u';
    MissingChar(cls, "green", 'g');
    MissingChar(cls, "arrow-up", 'u');
  }

  lemma DownArrowHits()
    ensures Contains("red arrow-down", "red")
    ensures Contains("red arrow-down", "arrow-down")
  {
    Found("red arrow-down", "red", 0);
    Found("red arrow-down", "arrow-down", 4);
  }

  lemma ClassifyDownArrow()
    ensures ClassifyHpCell("red arrow-down") == Less
  {
    DownArrowMisses();
    DownArrowHits();
  }

  lemma ClassifyRedHp()
    ensures ClassifyHpCell("red") == Different
  {
    assert !Contains("red", "green") by { MissingChar("red", "green", 'g'); }
    assert !Contains("red", "arrow-up") by { MissingChar("red", "arrow-up", 'a'); }
    assert !Contains("red", "arrow-down") by { MissingChar("red", "arrow-down", 'a'); }
  }

  /** The HP classifier reads back every symbol an HP cell can show. */
  lemma ClassifyHpCellRoundTrip(sig: Signal)
    requires sig != Close
    ensures ClassifyHpCell(HpCellClass(sig)) == sig
  {
    match sig
    case Greater => ClassifyUpArrow();
    case Less => ClassifyDownArrow();
    case Different => ClassifyRedHp();
    case _ =>
  }

  /** The other classifier reads back every symbol such a cell can show. */
  lemma ClassifyCellRoundTrip(sig: Signal)
    requires sig != Greater && sig != Less
    ensures ClassifyCell(CellClass(sig)) == sig
  {
    match sig
    case Close =>
      HeadMissing("orange", "green");
    case Different =>
      MissingChar("red", "green", 'g');
      MissingChar("red", "orange", 'o');
    case _ =>
  }

  /** A whole row of canonical classes reads back as the feedback it shows. */
  lemma FeedbackFromCellsRoundTrip(fb: Feedback, name: string)
    requires fb.hp != Close
    requires fb.weapons !in {Greater, Less} && fb.resistance !in {Greater, Less} && fb.weakness !in {Greater, Less}
    requires fb.immunity !in {Greater, Less} && fb.optional !in {Greater, Less}
    ensures FeedbackFromCells([name, HpCellClass(fb.hp), CellClass(fb.weapons), CellClass(fb.resistance),
                               CellClass(fb.weakness), CellClass(fb.immunity), CellClass(fb.optional)]) == Some(fb)
  {
    ClassifyHpCellRoundTrip(fb.hp);
    ClassifyCellRoundTrip(fb.weapons);
    ClassifyCellRoundTrip(fb.resistance);
    ClassifyCellRoundTrip(fb.weakness);
    ClassifyCellRoundTrip(fb.immunity);
    ClassifyCellRoundTrip(fb.optional);
  }

  /** A word of a class attribute that carries none of the colour and arrow
      markers the two cell readers look for. */
  predicate MarkerFree(w: string)
  {
    && !Contains(w, "green") && !Contains(w, "red") && !Contains(w, "orange")
    && !Contains(w, "arrow-up") && !Contains(w, "arrow-down")
  }

  /** A marker-free word in front of a class, as the site puts the cell's
      own class name, changes neither reading. */
  lemma ClassifyIgnoresOtherWords(w: string, cls: string)
    requires MarkerFree(w)
    ensures ClassifyHpCell(w + " " + cls) == ClassifyHpCell(cls)
    ensures ClassifyCell(w + " " + cls) == ClassifyCell(cls)
  {
    assert w + " " + cls == w + [' '] + cls;
    ContainsAcross(w, ' ', cls, "green");
    ContainsAcross(w, ' ', cls, "red");
    ContainsAcross(w, ' ', cls, "orange");
    ContainsAcross(w, ' ', cls, "arrow-up");
    ContainsAcross(w, ' ', cls, "arrow-down");
  }

  /** The class name the site gives every feedback cell has no marker. */
  lemma CellWordIsMarkerFree()
    ensures MarkerFree(SiteClasses.LolCellWord)
  {
    SiteClasses.LolCellWordLacksGreen();
    SiteClasses.LolCellWordLacksOrange();
    SiteClasses.LolCellWordLacksRed();
    SiteClasses.LolCellWordLacksArrows();
  }

  /** The cell classes of a row showing `fb`, each after the word `w`. */
  function SiteCells(name: string, w: string, fb: Feedback): seq<string>
  {
    [name, w + " " + HpCellClass(fb.hp), w + " " + CellClass(fb.weapons), w + " " + CellClass(fb.resistance),
     w + " " + CellClass(fb.weakness), w + " " + CellClass(fb.immunity), w + " " + CellClass(fb.optional)]
  }

  /** A row of classes such as "categories_content-cell red arrow-up" reads
      back as the feedback it shows, for any marker-free leading word. */
  lemma FeedbackFromSiteCellsRoundTrip(fb: Feedback, name: string, w: string)
    requires fb.hp != Close
    requires fb.weapons !in {Greater, Less} && fb.resistance !in {Greater, Less} && fb.weakness !in {Greater, Less}
    requires fb.immunity !in {Greater, Less} && fb.optional !in {Greater, Less}
    requires MarkerFree(w)
    ensures FeedbackFromCells(SiteCells(name, w, fb)) == Some(fb)
  {
    ClassifyIgnoresOtherWords(w, HpCellClass(fb.hp));
    ClassifyIgnoresOtherWords(w, CellClass(fb.weapons));
    ClassifyIgnoresOtherWords(w, CellClass(fb.resistance));
    ClassifyIgnoresOtherWords(w, CellClass(fb.weakness));
    ClassifyIgnoresOtherWords(w, CellClass(fb.immunity));
    ClassifyIgnoresOtherWords(w, CellClass(fb.optional));
    FeedbackFromCellsRoundTrip(fb, name);
  }

  /** The same for the class name the site actually uses. */
  lemma SiteRowReadsBack(fb: Feedback, name: string)
    requires fb.hp != Close
    requires fb.weapons !in {Greater, Less} && fb.resistance !in {Greater, Less} && fb.weakness !in {Greater, Less}
    requires fb.immunity !in {Greater, Less} && fb.optional !in {Greater, Less}
    ensures FeedbackFromCells(SiteCells(name, SiteClasses.LolCellWord, fb)) == Some(fb)
  {
    CellWordIsMarkerFree();
    FeedbackFromSiteCellsRoundTrip(fb, name, SiteClasses.LolCellWord);
  }
}
