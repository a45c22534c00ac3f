/**
 * The cost estimate for one selected program: base tuition (per credit or
 * flat), the Hartt and ELI surcharges added on top of it, fees and living
 * expenses passed through, and the grand total. A NaN amount (`None`)
 * propagates through every sum, as float addition does.
 */
module Cost {
  import opened Wrappers
  import opened Text
  import opened Catalog
  import opened Selection

  /** The Hartt annual fee, added when the college name contains "Hartt". */
  const HARTT_FEE: real := 400.0
  /** The student support fee, added when the program name contains "ELI". */
  const SUPPORT_FEE: real := 5386.0
  /** The range the credits widget accepts. */
  const MIN_CREDITS: int := 1
  const MAX_CREDITS: int := 100

  datatype Surcharge = HarttAnnualFee | StudentSupportFee

  /** How tuition is billed: the chosen number of credits at the per-credit rate, or the flat 18-credit figure. */
  datatype Billing = PerCredit(credits: int, rate: real) | FlatRate

  /** Every figure the page shows for one selection. */
  datatype Breakdown = Breakdown(
    billing: Billing,
    estimated: Option<real>,      // the "Estimated Tuition" metric, before surcharges
    surcharges: seq<Surcharge>,   // the surcharge lines, in the order they are written
    tuition: Option<real>,        // tuition after surcharges
    fees: Option<real>,
    living: Option<real>,
    total: Option<real>)

  function Fee(s: Surcharge): real {
    match s
    case HarttAnnualFee => HARTT_FEE
    case StudentSupportFee => SUPPORT_FEE
  }

  /** Float addition with NaN: the sum is NaN when either side is. */
  function Plus(a: Option<real>, b: Option<real>): (r: Option<real>)
    ensures r.None? <==> a.None? || b.None?
    ensures r.Some? ==> r.value == a.value + b.value
  {
    if a.Some? && b.Some? then Some(a.value + b.value) else None
  }

  /** The credits the widget hands over, which exist only for a per-credit program. */
  predicate CreditsAccepted(rec: Record, credits: int) {
    rec.perCredit.Some? ==> MIN_CREDITS <= credits <= MAX_CREDITS
  }

  /** The surcharges a selection incurs, in the order the page adds them. */
  function Surcharges(college: string, program: string): seq<Surcharge> {
    (if Contains(college, "Hartt") then [HarttAnnualFee] else [])
    + (if Contains(program, "ELI") then [StudentSupportFee] else [])
  }

  function SumFees(s: seq<Surcharge>): real {
    if s == [] then 0.0 else Fee(s[0]) + SumFees(s[1..])
  }

  /** The fees of the applicable surcharges add up fee by fee. */
  lemma SurchargeTotal(college: string, program: string)
    ensures SumFees(Surcharges(college, program))
            == (if Contains(college, "Hartt") then HARTT_FEE else 0.0)
               + (if Contains(program, "ELI") then SUPPORT_FEE else 0.0)
  {
    var s := Surcharges(college, program);
    assert SumFees([]) == 0.0;
    assert SumFees([HarttAnnualFee]) == HARTT_FEE;
    assert SumFees([StudentSupportFee]) == SUPPORT_FEE;
    assert [HarttAnnualFee, StudentSupportFee][1..] == [StudentSupportFee];
    assert SumFees([HarttAnnualFee, StudentSupportFee]) == HARTT_FEE + SUPPORT_FEE;
  }

  /** The tuition before surcharges: `credits * Per Credit` when the rate is present, else the flat figure. */
  function BaseTuition(rec: Record, credits: int): Option<real> {
    match rec.perCredit
    case Some(rate) => Some(credits as real * rate)
    case None => rec.tuition18
  }

  /**
   * The estimate for one catalog row: billing by the rate when it is
   * present, otherwise the flat figure whatever the credits; each surcharge
   * exactly when its name fragment occurs; fees and living unchanged.
   */
  function Quote(rec: Record, college: string, program: string, credits: int): (b: Breakdown)
    requires CreditsAccepted(rec, credits)
    ensures b.billing == if rec.perCredit.Some? then PerCredit(credits, rec.perCredit.value) else FlatRate
    ensures rec.perCredit.Some? ==> b.estimated.Some? && b.estimated.value == credits as real * rec.perCredit.value
    ensures rec.perCredit.None? ==> b.estimated == rec.tuition18
    ensures HarttAnnualFee in b.surcharges <==> Contains(college, "Hartt")
    ensures StudentSupportFee in b.surcharges <==> Contains(program, "ELI")
    ensures forall i, j :: 0 <= i < j < |b.surcharges| ==>
              b.surcharges[i] == HarttAnnualFee && b.surcharges[j] == StudentSupportFee
    ensures b.tuition == Plus(b.estimated, Some((if Contains(college, "Hartt") then HARTT_FEE else 0.0)
                                                + (if Contains(program, "ELI") then SUPPORT_FEE else 0.0)))
    ensures b.fees == rec.fees && b.living == rec.living
    ensures b.total == Plus(Plus(b.tuition, rec.fees), rec.living)
  {
    var billing := if rec.perCredit.Some? then PerCredit(credits, rec.perCredit.value) else FlatRate;
    var estimated := BaseTuition(rec, credits);
    var applied := Surcharges(college, program);
    SurchargeTotal(college, program);
    var tuition := Plus(estimated, Some(SumFees(applied)));
    Breakdown(billing, estimated, applied, tuition, rec.fees, rec.living,
              Plus(Plus(tuition, rec.fees), rec.living))
  }

  /**
   * The page's own sequence of steps: pick the base tuition, show it, then
   * add each applicable surcharge to the running tuition, then total.
   */
  method Estimate(rec: Record, college: string, program: string, credits: int) returns (b: Breakdown)
    requires CreditsAccepted(rec, credits)
    ensures b == Quote(rec, college, program, credits)
  {
    var billing: Billing;
    var tuition: Option<real>;
    if rec.perCredit.Some? {
      billing := PerCredit(credits, rec.perCredit.value);
      tuition := Some(credits as real * rec.perCredit.value);
      assert BaseTuition(rec, credits).Some? && tuition.value == BaseTuition(rec, credits).value;
    } else {
      billing := FlatRate;
      tuition := rec.tuition18;
    }
    var estimated := tuition;
    var fees := rec.fees;
    var living := rec.living;
    var applied: seq<Surcharge> := [];
    if Contains(college, "Hartt") {
      applied := applied + [HarttAnnualFee];
      tuition := Plus(tuition, Some(HARTT_FEE));
    }
    if Contains(program, "ELI") {
      applied := applied + [StudentSupportFee];
      tuition := Plus(tuition, Some(SUPPORT_FEE));
    }
    var total := Plus(Plus(tuition, fees), living);
    b := Breakdown(billing, estimated, applied, tuition, fees, living, total);
  }

  /**
   * The page for a chosen college, program and credit count: the first
   * matching row is priced; no row matching is reported as `None`. Credits
   * come from the widget only when that row is billed per credit.
   */
  method Calculate(cat: seq<Record>, college: string, program: string, credits: int) returns (r: Option<Breakdown>)
    requires Lookup(cat, college, program).Some? ==> CreditsAccepted(cat[Lookup(cat, college, program).value], credits)
    ensures r.None? <==> !Offers(cat, college, program)
    ensures r.Some? ==> exists i :: 0 <= i < |cat| && Matches(cat[i], college, program)
                                    && (forall j :: 0 <= j < i ==> !Matches(cat[j], college, program))
                                    && r.value == Quote(cat[i], college, program, credits)
  {
    var found := Lookup(cat, college, program);
    if found.None? {
      return None;
    }
    var b := Estimate(cat[found.value], college, program, credits);
    r := Some(b);
  }

  /** A flat-rate program costs the same whatever the credits. */
  lemma FlatIgnoresCredits(rec: Record, college: string, program: string, c1: int, c2: int)
    requires rec.perCredit.None?
    ensures Quote(rec, college, program, c1) == Quote(rec, college, program, c2)
  {
  }

  /** The surcharge lines add up to the fee added to tuition. */
  lemma SurchargesAdditive(rec: Record, college: string, program: string, credits: int)
    requires CreditsAccepted(rec, credits)
    ensures var b := Quote(rec, college, program, credits);
            b.tuition == Plus(b.estimated, Some(SumFees(b.surcharges)))
  {
  }

  /** The shown estimate equals the final tuition exactly when no surcharge applies. */
  lemma EstimateIsTuitionIffNoSurcharge(rec: Record, college: string, program: string, credits: int)
    requires CreditsAccepted(rec, credits)
    requires Quote(rec, college, program, credits).estimated.Some?
    ensures var b := Quote(rec, college, program, credits);
            b.tuition == b.estimated <==> b.surcharges == []
  {
  }

  /**
   * The total is the sum of base tuition, surcharges, fees and living when
   * all are present, and NaN as soon as one of them is NaN.
   */
  lemma TotalAddsUp(rec: Record, college: string, program: string, credits: int)
    requires CreditsAccepted(rec, credits)
    ensures var b := Quote(rec, college, program, credits);
            (b.total.Some? <==> b.estimated.Some? && rec.fees.Some? && rec.living.Some?)
            && (b.total.Some? ==>
                  b.total.value == b.estimated.value + SumFees(b.surcharges) + rec.fees.value + rec.living.value)
  {
    SurchargesAdditive(rec, college, program, credits);
  }

  /** A program with neither a rate nor a flat figure has NaN tuition and total. */
  lemma NoBillingFigureIsNaN(rec: Record, college: string, program: string, credits: int)
    requires rec.perCredit.None? && rec.tuition18.None?
    ensures Quote(rec, college, program, credits).tuition.None?
    ensures Quote(rec, college, program, credits).total.None?
  {
  }

  /**
   * A Hartt School program billed at a flat 18 000, with 1 200 fees and
   * 9 000 living costs.
   * The names are parameters pinned by `requires` rather than literals in the
   * `ensures`: that keeps the solver from unfolding the substring test over a
   * literal, which it does at great cost.
   */
  lemma HarttFlatExample(college: string, program: string)
    requires college == "Hartt School" && program == "Music"
    ensures var b := Quote(Record(Some(college), Some(program), None, Some(18000.0), Some(1200.0), Some(9000.0)),
                           college, program, 12);
            b.billing == FlatRate && b.estimated == Some(18000.0) && b.surcharges == [HarttAnnualFee]
            && b.tuition == Some(18400.0) && b.total == Some(28600.0)
  {
    PrefixContained(college, "Hartt");
    LacksFirstChar(program, "ELI");
  }

  /**
   * A program at 950 a credit with no surcharge, taken for 9 credits.
   * The names are parameters pinned by `requires` rather than literals in the
   * `ensures`: that keeps the solver from unfolding the substring test over a
   * literal, which it does at great cost.
   */
  lemma PerCreditPlainExample(college: string, program: string)
    requires college == "Arts & Sciences" && program == "Data Science"
    ensures var b := Quote(Record(Some(college), Some(program), Some(950.0), None, Some(800.0), Some(9000.0)),
                           college, program, 9);
            b.billing == PerCredit(9, 950.0) && b.surcharges == []
            && b.tuition == Some(8550.0) && b.total == Some(18350.0)
  {
    LacksFirstChar(college, "Hartt");
    LacksFirstChar(program, "ELI");
  }

  /**
   * A program at 950 a credit whose name contains "ELI", taken for 9 credits.
   * The names are parameters pinned by `requires` rather than literals in the
   * `ensures`: that keeps the solver from unfolding the substring test over a
   * literal, which it does at great cost.
   */
  lemma PerCreditSupportExample(college: string, program: string)
    requires college == "Arts & Sciences" && program == "ELI Program"
    ensures var b := Quote(Record(Some(college), Some(program), Some(950.0), None, Some(800.0), Some(9000.0)),
                           college, program, 9);
            b.billing == PerCredit(9, 950.0) && b.estimated == Some(8550.0) && b.surcharges == [StudentSupportFee]
            && b.tuition == Some(13936.0) && b.total == Some(23736.0)
  {
    LacksFirstChar(college, "Hartt");
    PrefixContained(program, "ELI");
  }
}
