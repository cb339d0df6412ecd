/**
 * `SistemPakarLaptop.rekomendasi`: the laptops of the loaded catalog within
 * the converted budget, then those meeting the category's three minimums,
 * scored by simple additive weighting against the maxima of that pool,
 * explained, ordered (score descending; price ascending for students and
 * office work), and cut to the first twenty. Each way of finding nothing
 * gives its own message.
 */
module Engine {
  import opened Wrappers
  import opened Catalog
  import opened RuleBase
  import opened Explain
  import opened Ranking

  /** Row `i` of a loaded, non-empty catalog. */
  function LaptopAt(data: Frame, i: nat): (l: Laptop)
    requires Loaded(data) && !data.IsEmpty() && i < data.rows
    ensures l.index == i
  {
    LoadedNumbers(data);
    Laptop(i, NumAt(data, "Harga", i), NumAt(data, "CpuScore", i), NumAt(data, "GpuScore", i),
      NumAt(data, "RAM", i), NumAt(data, "Storage_GB", i), NumAt(data, "ScreenScore", i))
  }

  /** Every row of the catalog, in index order. */
  function Catalogue(data: Frame): (s: seq<Laptop>)
    requires Loaded(data) && !data.IsEmpty()
    ensures |s| == data.rows && forall i :: 0 <= i < |s| ==> s[i] == LaptopAt(data, i)
  {
    seq(data.rows, i requires 0 <= i < data.rows => LaptopAt(data, i))
  }

  /** `(user_budget_idr / KONVERSI_FACTOR) * 1.1`: the budget in dollars with a ten percent margin. */
  function BudgetLimit(budgetIdr: int): (limit: real)
    ensures limit * KonversiFactor == budgetIdr as real * 1.1
  {
    (budgetIdr as real / KonversiFactor) * 1.1
  }

  /** The index labels of `s` strictly increase, as they do in a filtered DataFrame. */
  predicate InIndexOrder(s: seq<Laptop>) {
    forall i, j :: 0 <= i < j < |s| ==> s[i].index < s[j].index
  }

  /**
   * `data[data['Harga'] <= budget_limit_usd]`: the rows priced within the
   * limit, each as often as it occurs, in their original order (the lemmas
   * below).
   */
  function WithinBudget(s: seq<Laptop>, limit: real): (r: seq<Laptop>)
    ensures |r| <= |s|
    ensures forall l :: l in r <==> l in s && l.harga <= limit
  {
    if s == [] then []
    else (if s[0].harga <= limit then [s[0]] else []) + WithinBudget(s[1..], limit)
  }

  /** The budget filter keeps each affordable row as often as it occurs, and no other row. */
  lemma {:induction false} WithinBudgetCount(s: seq<Laptop>, limit: real, l: Laptop)
    ensures multiset(WithinBudget(s, limit))[l] == if l.harga <= limit then multiset(s)[l] else 0
  {
    if s != [] {
      assert s == [s[0]] + s[1..];
      WithinBudgetCount(s[1..], limit, l);
    }
  }

  /** The budget filter of two parts is the filter of each, in order. */
  lemma {:induction false} WithinBudgetAppend(a: seq<Laptop>, b: seq<Laptop>, limit: real)
    ensures WithinBudget(a + b, limit) == WithinBudget(a, limit) + WithinBudget(b, limit)
    decreases |a|
  {
    if a != [] {
      assert (a + b)[0] == a[0];
      assert (a + b)[1..] == a[1..] + b;
      WithinBudgetAppend(a[1..], b, limit);
    } else {
      assert a + b == b;
    }
  }

  /** Rows in index order stay in index order through the budget filter. */
  lemma {:induction false} WithinBudgetOrder(s: seq<Laptop>, limit: real)
    requires InIndexOrder(s)
    ensures InIndexOrder(WithinBudget(s, limit))
  {
    if s != [] {
      var rest := WithinBudget(s[1..], limit);
      WithinBudgetOrder(s[1..], limit);
      forall l | l in rest ensures s[0].index < l.index {
        var j :| 0 <= j < |s[1..]| && s[1..][j] == l;
        assert s[j + 1] == l;
      }
      KeepsOrder(s[0], s[0].harga <= limit, rest);
    }
  }

  /** A row put (or not) in front of an ordered list of later rows leaves it ordered. */
  lemma KeepsOrder(x: Laptop, keep: bool, rest: seq<Laptop>)
    requires InIndexOrder(rest) && forall l :: l in rest ==> x.index < l.index
    ensures InIndexOrder((if keep then [x] else []) + rest)
  {
    var r := (if keep then [x] else []) + rest;
    if keep {
      forall i, j | 0 <= i < j < |r| ensures r[i].index < r[j].index {
        assert r[j] == rest[j - 1];
        if i > 0 {
          assert r[i] == rest[i - 1];
        } else {
          assert rest[j - 1] in rest;
        }
      }
    } else {
      assert r == rest;
    }
  }

  /** The three inclusive minimums of a rule. */
  predicate Meets(l: Laptop, rule: Rule) {
    l.cpu >= rule.minCpu as real && l.gpu >= rule.minGpu as real && l.ram >= rule.minRam as real
  }

  /** The rule-base filter: the rows meeting all three minimums, each as often as it occurs, in their original order. */
  function MeetingRule(s: seq<Laptop>, rule: Rule): (r: seq<Laptop>)
    ensures |r| <= |s|
    ensures forall l :: l in r <==> l in s && Meets(l, rule)
  {
    if s == [] then []
    else (if Meets(s[0], rule) then [s[0]] else []) + MeetingRule(s[1..], rule)
  }

  /** The rule filter keeps each row that meets the rule as often as it occurs, and no other row. */
  lemma {:induction false} MeetingRuleCount(s: seq<Laptop>, rule: Rule, l: Laptop)
    ensures multiset(MeetingRule(s, rule))[l] == if Meets(l, rule) then multiset(s)[l] else 0
  {
    if s != [] {
      assert s == [s[0]] + s[1..];
      MeetingRuleCount(s[1..], rule, l);
    }
  }

  /** The rule filter of two parts is the filter of each, in order. */
  lemma {:induction false} MeetingRuleAppend(a: seq<Laptop>, b: seq<Laptop>, rule: Rule)
    ensures MeetingRule(a + b, rule) == MeetingRule(a, rule) + MeetingRule(b, rule)
    decreases |a|
  {
    if a != [] {
      assert (a + b)[0] == a[0];
      assert (a + b)[1..] == a[1..] + b;
      MeetingRuleAppend(a[1..], b, rule);
    } else {
      assert a + b == b;
    }
  }

  /** Rows in index order stay in index order through the rule filter. */
  lemma {:induction false} MeetingRuleOrder(s: seq<Laptop>, rule: Rule)
    requires InIndexOrder(s)
    ensures InIndexOrder(MeetingRule(s, rule))
  {
    if s != [] {
      var rest := MeetingRule(s[1..], rule);
      MeetingRuleOrder(s[1..], rule);
      forall l | l in rest ensures s[0].index < l.index {
        var j :| 0 <= j < |s[1..]| && s[1..][j] == l;
        assert s[j + 1] == l;
      }
      KeepsOrder(s[0], Meets(s[0], rule), rest);
    }
  }

  /**
   * The candidates that reach scoring: exactly the catalog rows within
   * budget and meeting the rule, in index order.
   */
  function Pool(data: Frame, budgetIdr: int, rule: Rule): (r: seq<Laptop>)
    requires Loaded(data) && !data.IsEmpty()
    ensures InIndexOrder(r)
    ensures forall l :: l in r <==>
      l.index < data.rows && l == LaptopAt(data, l.index) && l.harga <= BudgetLimit(budgetIdr) && Meets(l, rule)
  {
    var s := Catalogue(data);
    assert forall l: Laptop :: l in s <==> l.index < data.rows && l == LaptopAt(data, l.index) by {
      forall l: Laptop | l.index < data.rows && l == LaptopAt(data, l.index) ensures l in s {
        assert s[l.index] == l;
      }
    }
    WithinBudgetOrder(s, BudgetLimit(budgetIdr));
    MeetingRuleOrder(WithinBudget(s, BudgetLimit(budgetIdr)), rule);
    MeetingRule(WithinBudget(s, BudgetLimit(budgetIdr)), rule)
  }

  /** The attributes the score normalises. */
  datatype Attribute = CpuScore | GpuScore | Ram

  function Value(l: Laptop, a: Attribute): real {
    match a
    case CpuScore => l.cpu
    case GpuScore => l.gpu
    case Ram => l.ram
  }

  /** `candidates[column].max()` over a non-empty pool. */
  function MaxOf(s: seq<Laptop>, a: Attribute): real
    requires |s| > 0
  {
    if |s| == 1 then Value(s[0], a)
    else
      var rest := MaxOf(s[1..], a);
      if Value(s[0], a) >= rest then Value(s[0], a) else rest
  }

  /** The maximum bounds every value of the pool and is one of them. */
  lemma {:induction false} MaxOfIsMaximum(s: seq<Laptop>, a: Attribute)
    requires |s| > 0
    ensures forall l :: l in s ==> Value(l, a) <= MaxOf(s, a)
    ensures exists l :: l in s && Value(l, a) == MaxOf(s, a)
  {
    if |s| > 1 {
      var tail := s[1..];
      MaxOfIsMaximum(tail, a);
      assert s == [s[0]] + tail;
      forall l | l in s ensures Value(l, a) <= MaxOf(s, a) {
        if l != s[0] {
          assert l in tail;
        }
      }
      if Value(s[0], a) >= MaxOf(tail, a) {
        assert s[0] in s && Value(s[0], a) == MaxOf(s, a);
      } else {
        var w :| w in tail && Value(w, a) == MaxOf(tail, a);
        assert w in s && Value(w, a) == MaxOf(s, a);
      }
    } else {
      assert s[0] in s;
    }
  }

  /** `maximum or 1`: a zero maximum is replaced by 1, so the divisor is never zero. */
  function Divisor(m: real): (d: real)
    ensures d != 0.0
    ensures m != 0.0 ==> d == m
  {
    if m == 0.0 then 1.0 else m
  }

  /** One weighted, normalised term of the score: `(value / maximum) * weight`. */
  function Term(value: real, maximum: real, weight: real): real {
    (value / Divisor(maximum)) * weight
  }

  /** The SAW score of `l` in `pool`; the storage weight takes no part. */
  function Score(l: Laptop, rule: Rule, pool: seq<Laptop>): real
    requires |pool| > 0
  {
    Term(l.cpu, MaxOf(pool, CpuScore), rule.wCpu)
      + Term(l.gpu, MaxOf(pool, GpuScore), rule.wGpu)
      + Term(l.ram, MaxOf(pool, Ram), rule.wRam)
  }

  /** A pool laptop with its score, explanation and rupiah estimate. */
  function Scored(l: Laptop, rule: Rule, pool: seq<Laptop>): Candidate
    requires |pool| > 0
  {
    Candidate(l, Score(l, rule, pool), Explained(l, rule), Estimate(l.harga))
  }

  /** The pool with the three added columns, in pool order. */
  function Candidates(pool: seq<Laptop>, rule: Rule): (s: seq<Candidate>)
    requires |pool| > 0
    ensures |s| == |pool| && forall k :: 0 <= k < |pool| ==> s[k] == Scored(pool[k], rule, pool)
  {
    seq(|pool|, k requires 0 <= k < |pool| => Scored(pool[k], rule, pool))
  }

  /** The order of the final table: by price for `ADMIN_PELAJAR`, otherwise by score. */
  function FinalOrder(category: string): Order {
    if category == "ADMIN_PELAJAR" then ByEstimateAscending else ByScoreDescending
  }

  /** Sorted by score descending, and re-sorted by the rupiah estimate for `ADMIN_PELAJAR`. */
  function Ranked(pool: seq<Laptop>, rule: Rule, category: string): (r: seq<Candidate>)
    requires |pool| > 0
    ensures SortedBy(r, FinalOrder(category))
    ensures multiset(r) == multiset(Candidates(pool, rule))
  {
    var byScore := SortBy(Candidates(pool, rule), ByScoreDescending);
    if category == "ADMIN_PELAJAR" then SortBy(byScore, ByEstimateAscending) else byScore
  }

  /** The maximum number of rows returned. */
  const MaxRows: nat := 20

  /** The descriptive columns the final selection reads from the catalog as they are. */
  const DescriptiveNames: seq<string> :=
    ["Nama_Produk", "TipeProcessor", "TipeGPU", "DetailLayar", "LinkPenjelasan", "LinkPembelian"]

  /** A cell of the catalog, numeric or text; None is NaN. */
  datatype Cell = NumberCell(number: Option<real>) | TextCell(text: Option<string>)

  /** The cell in row `i` of the first column called `name`. */
  function CellAt(data: Frame, name: string, i: nat): Cell
    requires data.Valid() && name in NamesOf(data.columns) && i < data.rows
  {
    var c := data.columns[IndexOf(data.columns, name).value];
    if c.Numeric? then NumberCell(c.nums[i]) else TextCell(c.texts[i])
  }

  /** One row of the returned table, with the pandas index label it keeps. */
  datatype OutputRow = OutputRow(index: nat, name: Cell, estimate: real, processor: Cell, gpuType: Cell,
                                 ram: real, storage: real, display: Cell, explanation: Explanation,
                                 detailLink: Cell, buyLink: Cell)

  /** The ten selected columns of a candidate's row. */
  function Select(data: Frame, c: Candidate): (r: OutputRow)
    requires data.Valid() && Missing(data.columns, DescriptiveNames) == [] && c.laptop.index < data.rows
    ensures r.index == c.laptop.index && r.estimate == c.estimate && r.explanation == c.explanation
    ensures r.ram == c.laptop.ram && r.storage == c.laptop.storage
  {
    var i := c.laptop.index;
    OutputRow(i, CellAt(data, "Nama_Produk", i), c.estimate, CellAt(data, "TipeProcessor", i),
      CellAt(data, "TipeGPU", i), c.laptop.ram, c.laptop.storage, CellAt(data, "DetailLayar", i),
      c.explanation, CellAt(data, "LinkPenjelasan", i), CellAt(data, "LinkPembelian", i))
  }

  /** The messages of the four ways to find nothing. */
  datatype Message = DatabaseEmpty | WrongCategory | BudgetTooLow | NoMatchingSpec

  /**
   * What `rekomendasi` gives back: a one-message table, the recommendations,
   * or the KeyError pandas raises when a selected column is absent.
   */
  datatype Outcome = Notice(message: Message) | Table(rows: seq<OutputRow>) | KeyError(missing: seq<string>)

  /** The table of the first twenty ranked candidates. */
  function Rows(data: Frame, top: seq<Candidate>): (r: seq<OutputRow>)
    requires data.Valid() && Missing(data.columns, DescriptiveNames) == []
    requires forall c :: c in top ==> c.laptop.index < data.rows
    ensures |r| == |top| && forall k :: 0 <= k < |top| ==> r[k] == Select(data, top[k])
  {
    seq(|top|, k requires 0 <= k < |top| => Select(data, top[k]))
  }

  /** `rekomendasi(user_budget_idr, user_kategori)` on the loaded catalog. */
  function Recommend(data: Frame, budgetIdr: int, category: string): Outcome
    requires Loaded(data)
  {
    if data.IsEmpty() then Notice(DatabaseEmpty)
    else if category !in Rules() then Notice(WrongCategory)
    else if WithinBudget(Catalogue(data), BudgetLimit(budgetIdr)) == [] then Notice(BudgetTooLow)
    else
      var rule := Rules()[category];
      var pool := Pool(data, budgetIdr, rule);
      if pool == [] then Notice(NoMatchingSpec)
      else if Missing(data.columns, DescriptiveNames) != [] then KeyError(Missing(data.columns, DescriptiveNames))
      else
        var top := Head(Ranked(pool, rule, category), MaxRows);
        RankedFromCatalogue(data, budgetIdr, category);
        Table(Rows(data, top))
  }

  /**
   * The scoring, explanation and sorting stages: the maxima of the pool, the
   * three added columns filled row by row, then `sort_values`.
   */
  method ScoreAndSort(candidates: seq<Laptop>, rule: Rule, category: string) returns (ranked: seq<Candidate>)
    requires |candidates| > 0
    ensures ranked == Ranked(candidates, rule, category)
  {
    var maxCpu := Divisor(MaxOf(candidates, CpuScore));
    var maxGpu := Divisor(MaxOf(candidates, GpuScore));
    var maxRam := Divisor(MaxOf(candidates, Ram));
    var scored: seq<Candidate> := [];
    for i := 0 to |candidates|
      invariant scored == Candidates(candidates, rule)[..i]
    {
      var row := ScoreRow(candidates[i], rule, candidates, maxCpu, maxGpu, maxRam);
      CandidatesPrefix(candidates, rule, i);
      scored := scored + [row];
    }
    assert scored == Candidates(candidates, rule);
    ranked := SortBy(scored, ByScoreDescending);
    if category == "ADMIN_PELAJAR" {
      ranked := SortBy(ranked, ByEstimateAscending);
    }
  }

  /** One row of the apply step: the SAW score, the explanation and the rupiah estimate. */
  method ScoreRow(l: Laptop, rule: Rule, pool: seq<Laptop>, maxCpu: real, maxGpu: real, maxRam: real)
    returns (c: Candidate)
    requires |pool| > 0
    requires maxCpu == Divisor(MaxOf(pool, CpuScore)) && maxGpu == Divisor(MaxOf(pool, GpuScore))
    requires maxRam == Divisor(MaxOf(pool, Ram))
    ensures c == Scored(l, rule, pool)
  {
    var cpuPart := (l.cpu / maxCpu) * rule.wCpu;
    var gpuPart := (l.gpu / maxGpu) * rule.wGpu;
    var ramPart := (l.ram / maxRam) * rule.wRam;
    assert cpuPart == Term(l.cpu, MaxOf(pool, CpuScore), rule.wCpu);
    assert gpuPart == Term(l.gpu, MaxOf(pool, GpuScore), rule.wGpu);
    assert ramPart == Term(l.ram, MaxOf(pool, Ram), rule.wRam);
    var nilai := cpuPart + gpuPart + ramPart;
    var penjelasan := GenerateExplanation(l, rule);
    c := Candidate(l, nilai, penjelasan, l.harga * KonversiFactor);
  }

  /** The scored prefix grows by the next laptop's candidate. */
  lemma CandidatesPrefix(pool: seq<Laptop>, rule: Rule, i: nat)
    requires i < |pool|
    ensures Candidates(pool, rule)[..i + 1] == Candidates(pool, rule)[..i] + [Scored(pool[i], rule, pool)]
  {
    var s := Candidates(pool, rule);
    assert s[..i + 1] == s[..i] + [s[i]];
  }

  /** A laptop of the pool is the catalog row its index names. */
  lemma PoolFromCatalogue(data: Frame, budgetIdr: int, rule: Rule, l: Laptop)
    requires Loaded(data) && !data.IsEmpty() && l in Pool(data, budgetIdr, rule)
    ensures l.index < data.rows && l == LaptopAt(data, l.index)
    ensures l.harga <= BudgetLimit(budgetIdr) && Meets(l, rule)
  {
  }

  /** A ranked candidate is a pool laptop with the score, explanation and estimate computed for it. */
  lemma RankedGenuine(pool: seq<Laptop>, rule: Rule, category: string, c: Candidate)
    requires |pool| > 0 && c in Ranked(pool, rule, category)
    ensures c.laptop in pool && c == Scored(c.laptop, rule, pool)
  {
    assert c in multiset(Candidates(pool, rule));
    var k :| 0 <= k < |pool| && Candidates(pool, rule)[k] == c;
  }

  /** The elements of a head belong to the list. */
  lemma HeadWithin(s: seq<Candidate>, n: nat, c: Candidate)
    requires c in Head(s, n)
    ensures c in s
  {
    var k :| 0 <= k < |Head(s, n)| && Head(s, n)[k] == c;
    assert s[k] == c;
  }

  /** Every candidate that can reach the table names a row of the catalog. */
  lemma RankedFromCatalogue(data: Frame, budgetIdr: int, category: string)
    requires Loaded(data) && !data.IsEmpty() && category in Rules()
    requires Pool(data, budgetIdr, Rules()[category]) != []
    ensures forall c :: c in Head(Ranked(Pool(data, budgetIdr, Rules()[category]), Rules()[category], category), MaxRows) ==>
      c.laptop.index < data.rows
  {
    var rule := Rules()[category];
    var pool := Pool(data, budgetIdr, rule);
    forall c | c in Head(Ranked(pool, rule, category), MaxRows) ensures c.laptop.index < data.rows {
      HeadWithin(Ranked(pool, rule, category), MaxRows, c);
      RankedGenuine(pool, rule, category, c);
      PoolFromCatalogue(data, budgetIdr, rule, c.laptop);
    }
  }
}
