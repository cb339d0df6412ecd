/**
 * The explanation attached to each recommended laptop: the estimated rupiah
 * price and a list of reasons (CPU against its minimum, the GPU when it
 * matters, the screen score and the memory), kept as tagged parts rather
 * than formatted text.
 */
module Explain {
  import opened RuleBase

  /** One catalog row, as the recommender reads it: its index label and its six numbers. */
  datatype Laptop = Laptop(index: nat, harga: real, cpu: real, gpu: real, ram: real, storage: real, screen: real)

  /** Python's `int()` on a float: the integer part, rounding toward zero. */
  function Trunc(r: real): (n: int)
    ensures r >= 0.0 ==> 0 <= n && n as real <= r < n as real + 1.0
    ensures r < 0.0 ==> n <= 0 && n as real - 1.0 < r <= n as real
  {
    if r >= 0.0 then r.Floor else -((-r).Floor)
  }

  /** A reason, with the truncated actual value and, where it is shown, the rule's minimum. */
  datatype Reason =
    | CpuReason(actual: int, minimum: int)
    | GpuWithMinimum(actual: int, minimum: int)
    | GpuReason(actual: int)
    | ScreenReason(actual: int)
    | RamReason(gigabytes: int)

  /** The estimated rupiah price and the reasons, in the order they are listed. */
  datatype Explanation = Explanation(estimate: real, reasons: seq<Reason>)

  /** The rupiah estimate of a dollar price. */
  function Estimate(harga: real): real {
    harga * KonversiFactor
  }

  /** What `_generate_explanation` builds for a row under a rule. */
  function Explained(l: Laptop, rule: Rule): (e: Explanation) {
    var cpu := [CpuReason(Trunc(l.cpu), rule.minCpu)];
    var gpu :=
      if rule.minGpu > 0 then [GpuWithMinimum(Trunc(l.gpu), rule.minGpu)]
      else if Trunc(l.gpu) > 0 then [GpuReason(Trunc(l.gpu))]
      else [];
    Explanation(Estimate(l.harga), cpu + gpu + [ScreenReason(Trunc(l.screen)), RamReason(Trunc(l.ram))])
  }

  /** `_generate_explanation`: the reasons are appended one by one. */
  method GenerateExplanation(l: Laptop, rule: Rule) returns (e: Explanation)
    ensures e == Explained(l, rule)
  {
    var reasons: seq<Reason> := [];
    var estRupiah := l.harga * KonversiFactor;
    var cpuAct := Trunc(l.cpu);
    reasons := reasons + [CpuReason(cpuAct, rule.minCpu)];
    var gpuAct := Trunc(l.gpu);
    if rule.minGpu > 0 {
      reasons := reasons + [GpuWithMinimum(gpuAct, rule.minGpu)];
    } else if gpuAct > 0 {
      reasons := reasons + [GpuReason(gpuAct)];
    }
    reasons := reasons + [ScreenReason(Trunc(l.screen))];
    reasons := reasons + [RamReason(Trunc(l.ram))];
    e := Explanation(estRupiah, reasons);
  }

  /**
   * The shape of every explanation: CPU with its minimum first, screen and
   * then RAM last, and between them a GPU part exactly when the rule has a
   * GPU minimum (then shown with it) or the truncated GPU score is positive.
   */
  lemma ExplanationParts(l: Laptop, rule: Rule)
    ensures var r := Explained(l, rule).reasons;
      && 3 <= |r| <= 4
      && r[0] == CpuReason(Trunc(l.cpu), rule.minCpu)
      && r[|r| - 2] == ScreenReason(Trunc(l.screen))
      && r[|r| - 1] == RamReason(Trunc(l.ram))
      && (|r| == 4 <==> rule.minGpu > 0 || Trunc(l.gpu) > 0)
      && (rule.minGpu > 0 ==> r[1] == GpuWithMinimum(Trunc(l.gpu), rule.minGpu))
      && (rule.minGpu <= 0 && Trunc(l.gpu) > 0 ==> r[1] == GpuReason(Trunc(l.gpu)))
  {
  }

  /** A GPU score under 1 is not mentioned by a rule without a GPU minimum. */
  lemma WeakGpuNotMentioned(l: Laptop, rule: Rule)
    requires rule.minGpu <= 0 && 0.0 <= l.gpu < 1.0
    ensures forall k :: 0 <= k < |Explained(l, rule).reasons| ==>
      !Explained(l, rule).reasons[k].GpuReason? && !Explained(l, rule).reasons[k].GpuWithMinimum?
  {
  }

  /** A GPU-demanding rule always shows its GPU minimum. */
  lemma GpuMinimumShown(l: Laptop, category: string)
    requires category in Rules() && (category == "DESAIN_VIDEO" || category == "GAMING_BERAT")
    ensures Explained(l, Rules()[category]).reasons[1] == GpuWithMinimum(Trunc(l.gpu), Rules()[category].minGpu)
  {
  }
}
