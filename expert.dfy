/**
 * The expert-system object: constructing it loads the catalog and installs
 * the rule base; `rekomendasi` answers from those two fields.
 */
module Expert {
  import opened Wrappers
  import opened Catalog
  import opened RuleBase
  import opened Ranking
  import opened Engine

  /** `SistemPakarLaptop`, with the catalog the loader produced and the rule table. */
  class SistemPakarLaptop {
    const konversiFactor: real
    var data: Frame
    var rules: map<string, Rule>

    /** The fields as the constructor leaves them: a loaded catalog and the four rules. */
    predicate Valid()
      reads this
    {
      Loaded(data) && rules == Rules() && konversiFactor == KonversiFactor
    }

    /** `__init__`: the conversion factor, the catalog loaded from what reading the CSV gave, then the rules. */
    constructor (read: Option<Frame>)
      requires read.Some? ==> read.value.Valid()
      ensures Valid()
      ensures read.None? ==> data == EmptyFrame
      ensures read.Some? && Prepare(read.value.columns).None? ==> data == EmptyFrame
      ensures read.Some? && Prepare(read.value.columns).Some? ==>
        data == CleanedFrame(Prepare(read.value.columns).value, read.value.rows)
    {
      konversiFactor := KonversiFactor;
      var df := LoadAndCleanData(read);
      data := df;
      rules := Rules();
    }

    /**
     * `rekomendasi` step by step: the advisory check only yields a notice to
     * print, the candidate pool is rebound stage by stage, and the score,
     * explanation and estimate columns are filled row by row.
     */
    method Rekomendasi(budgetIdr: int, category: string) returns (advice: Option<Advice>, outcome: Outcome)
      requires Valid()
      ensures outcome == Recommend(data, budgetIdr, category)
      ensures advice.Some? <==> !data.IsEmpty() && category in Rules() && budgetIdr < BudgetFloor(category)
      ensures advice.Some? ==> advice.value == RealityCheck(budgetIdr, category)
    {
      advice := None;
      if data.IsEmpty() {
        return advice, Notice(DatabaseEmpty);
      }
      if category !in rules {
        return advice, Notice(WrongCategory);
      }
      var check := RealityCheck(budgetIdr, category);
      if !check.Valid? {
        advice := Some(check);
      }
      var budgetLimitUsd := (budgetIdr as real / konversiFactor) * 1.1;
      assert budgetLimitUsd == BudgetLimit(budgetIdr);
      var candidates := WithinBudget(Catalogue(data), budgetLimitUsd);
      if candidates == [] {
        return advice, Notice(BudgetTooLow);
      }
      var rule := rules[category];
      candidates := MeetingRule(candidates, rule);
      assert candidates == Pool(data, budgetIdr, rule);
      if candidates == [] {
        return advice, Notice(NoMatchingSpec);
      }
      var ranked := ScoreAndSort(candidates, rule, category);
      var missing := Missing(data.columns, DescriptiveNames);
      if missing != [] {
        return advice, KeyError(missing);
      }
      var top := Head(ranked, MaxRows);
      RankedFromCatalogue(data, budgetIdr, category);
      outcome := Table(Rows(data, top));
    }
  }
}
