/**
 * The knowledge base of the expert system: one rule per usage category,
 * with inclusive minimum benchmark and memory requirements and the weights
 * of the additive score, and the per-category budget floor of the advisory
 * reality check.
 */
module RuleBase {

  /**
   * A category's requirements (CPU mark, GPU mark, RAM in GB) and score
   * weights. The rule's free-text description is kept apart, in
   * `Description`, since nothing computes with it.
   */
  datatype Rule = Rule(minCpu: int, minGpu: int, minRam: int,
                       wCpu: real, wGpu: real, wRam: real, wStorage: real)

  /** Rupiah per US dollar used to read the catalog's dollar prices. */
  const KonversiFactor: real := 166.9

  /** The four categories of `self.rules`. */
  function Rules(): (m: map<string, Rule>)
    ensures m.Keys == {"ADMIN_PELAJAR", "PROGRAMMER_CODING", "DESAIN_VIDEO", "GAMING_BERAT"}
    ensures forall c :: c in m ==> m[c].minCpu >= 0 && m[c].minGpu >= 0 && m[c].minRam >= 0
    ensures forall c :: c in m ==> m[c].wCpu >= 0.0 && m[c].wGpu >= 0.0 && m[c].wRam >= 0.0 && m[c].wStorage >= 0.0
    ensures forall c :: c in m ==> m[c].wCpu + m[c].wGpu + m[c].wRam + m[c].wStorage == 1.0
  {
    map[
      "ADMIN_PELAJAR" := Rule(3000, 0, 4, 0.2, 0.0, 0.3, 0.5),
      "PROGRAMMER_CODING" := Rule(11000, 0, 8, 0.5, 0.0, 0.4, 0.1),
      "DESAIN_VIDEO" := Rule(15000, 8000, 16, 0.4, 0.6, 0.0, 0.0),
      "GAMING_BERAT" := Rule(14000, 13000, 16, 0.2, 0.7, 0.1, 0.0)
    ]
  }

  /** The `desc` entry of each category's rule; empty for a name that is not a category. */
  function Description(category: string): (d: string)
    ensures category in Rules() <==> d != ""
  {
    match category
    case "ADMIN_PELAJAR" => "Kebutuhan mengetik, browsing, dan Office ringan."
    case "PROGRAMMER_CODING" => "Kompilasi kode berat, multitasking emulator & docker."
    case "DESAIN_VIDEO" => "Rendering 3D dan Video Editing yang butuh akselerasi GPU."
    case "GAMING_BERAT" => "Gaming AAA rata kanan dengan FPS stabil."
    case _ => ""
  }

  /** `batas.get(kategori, 0)`: the smallest sensible budget in rupiah for a category. */
  function BudgetFloor(category: string): (floor: int)
    ensures floor >= 0
    ensures category !in Rules() ==> floor == 0
    ensures category in Rules() ==> floor >= 2000000
  {
    match category
    case "GAMING_BERAT" => 10000000
    case "DESAIN_VIDEO" => 9000000
    case "PROGRAMMER_CODING" => 5000000
    case "ADMIN_PELAJAR" => 2000000
    case _ => 0
  }

  /** The verdict of `_reality_check`; a low budget names the floor it missed. */
  datatype Advice = Valid | TooLow(budget: int, category: string, floor: int)

  /** `_reality_check`: a budget is too low exactly when it is under the category's floor. */
  function RealityCheck(budgetIdr: int, category: string): (a: Advice)
    ensures a.Valid? <==> budgetIdr >= BudgetFloor(category)
    ensures a.TooLow? ==> a.budget == budgetIdr && a.category == category && a.floor == BudgetFloor(category)
  {
    var limit := BudgetFloor(category);
    if budgetIdr < limit then TooLow(budgetIdr, category, limit) else Valid
  }

  /** A larger budget never turns a valid verdict into a low one. */
  lemma RealityCheckMonotone(low: int, high: int, category: string)
    requires low <= high && RealityCheck(low, category).Valid?
    ensures RealityCheck(high, category).Valid?
  {
  }

  /** An unknown category has floor 0, so no budget that is not negative is too low. */
  lemma UnknownCategoryNeverLow(budgetIdr: int, category: string)
    requires category !in Rules() && budgetIdr >= 0
    ensures RealityCheck(budgetIdr, category).Valid?
  {
  }

  /** The rules demanding a GPU are exactly the two GPU-heavy categories. */
  lemma GpuDemandingRules(category: string)
    requires category in Rules()
    ensures Rules()[category].minGpu > 0 <==> category == "DESAIN_VIDEO" || category == "GAMING_BERAT"
  {
  }
}
