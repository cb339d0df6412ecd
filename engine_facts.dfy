/**
 * What `rekomendasi` promises: each way of finding nothing has its own
 * message, every recommended laptop is within the converted budget and meets
 * the category's minimums, the scores are bounded by the weights and ignore
 * the storage weight, and the table holds the best twenty of the pool in the
 * category's order.
 */
module EngineFacts {
  import opened Wrappers
  import opened Catalog
  import opened RuleBase
  import opened Explain
  import opened Ranking
  import opened Engine

  /** Row `i` is priced within the converted budget. */
  predicate Affordable(data: Frame, budgetIdr: int, i: nat)
    requires Loaded(data) && !data.IsEmpty() && i < data.rows
  {
    LaptopAt(data, i).harga <= BudgetLimit(budgetIdr)
  }

  /** Row `i` is within budget and meets the rule. */
  predicate Qualifies(data: Frame, budgetIdr: int, rule: Rule, i: nat)
    requires Loaded(data) && !data.IsEmpty() && i < data.rows
  {
    Affordable(data, budgetIdr, i) && Meets(LaptopAt(data, i), rule)
  }

  /** The budget filter finds nothing exactly when no row is affordable. */
  lemma WithinBudgetEmptyIff(data: Frame, budgetIdr: int)
    requires Loaded(data) && !data.IsEmpty()
    ensures WithinBudget(Catalogue(data), BudgetLimit(budgetIdr)) == [] <==>
      forall i :: 0 <= i < data.rows ==> !Affordable(data, budgetIdr, i)
  {
    var s := Catalogue(data);
    var r := WithinBudget(s, BudgetLimit(budgetIdr));
    if r == [] {
      forall i | 0 <= i < data.rows ensures !Affordable(data, budgetIdr, i) {
        assert s[i] in s;
      }
    } else {
      assert r[0] in r;
      var i :| 0 <= i < |s| && s[i] == r[0];
      assert Affordable(data, budgetIdr, i);
    }
  }

  /** The pool is empty exactly when no row qualifies. */
  lemma PoolEmptyIff(data: Frame, budgetIdr: int, rule: Rule)
    requires Loaded(data) && !data.IsEmpty()
    ensures Pool(data, budgetIdr, rule) == [] <==> forall i :: 0 <= i < data.rows ==> !Qualifies(data, budgetIdr, rule, i)
  {
    var s := Catalogue(data);
    var p := Pool(data, budgetIdr, rule);
    if p == [] {
      forall i | 0 <= i < data.rows ensures !Qualifies(data, budgetIdr, rule, i) {
        assert s[i] in s;
      }
    } else {
      assert p[0] in p;
      var i :| 0 <= i < |s| && s[i] == p[0];
      assert Qualifies(data, budgetIdr, rule, i);
    }
  }

  /**
   * The five outcomes that are not a table of laptops, each exactly under
   * its condition: an empty catalog, an unknown category, nothing within
   * budget, nothing within budget meeting the rule, and a selected column
   * missing from the catalog.
   */
  lemma RecommendFailures(data: Frame, budgetIdr: int, category: string)
    requires Loaded(data)
    ensures Recommend(data, budgetIdr, category) == Notice(DatabaseEmpty) <==> data.IsEmpty()
    ensures Recommend(data, budgetIdr, category) == Notice(WrongCategory) <==> !data.IsEmpty() && category !in Rules()
    ensures Recommend(data, budgetIdr, category) == Notice(BudgetTooLow) <==>
      !data.IsEmpty() && category in Rules() && forall i :: 0 <= i < data.rows ==> !Affordable(data, budgetIdr, i)
    ensures Recommend(data, budgetIdr, category) == Notice(NoMatchingSpec) <==>
      && !data.IsEmpty() && category in Rules()
      && (exists i :: 0 <= i < data.rows && Affordable(data, budgetIdr, i))
      && forall i :: 0 <= i < data.rows ==> !Qualifies(data, budgetIdr, Rules()[category], i)
    ensures Recommend(data, budgetIdr, category).KeyError? <==>
      && !data.IsEmpty() && category in Rules()
      && (exists i :: 0 <= i < data.rows && Qualifies(data, budgetIdr, Rules()[category], i))
      && Missing(data.columns, DescriptiveNames) != []
    ensures Recommend(data, budgetIdr, category).KeyError? ==>
      Recommend(data, budgetIdr, category).missing == Missing(data.columns, DescriptiveNames)
  {
    if !data.IsEmpty() && category in Rules() {
      WithinBudgetEmptyIff(data, budgetIdr);
      PoolEmptyIff(data, budgetIdr, Rules()[category]);
      if WithinBudget(Catalogue(data), BudgetLimit(budgetIdr)) == [] {
        assert Pool(data, budgetIdr, Rules()[category]) == [];
      }
    }
  }

  /** The first twenty ranked candidates of a category's pool. */
  function Top(data: Frame, budgetIdr: int, category: string): seq<Candidate>
    requires Loaded(data) && !data.IsEmpty() && category in Rules()
    requires Pool(data, budgetIdr, Rules()[category]) != []
  {
    Head(Ranked(Pool(data, budgetIdr, Rules()[category]), Rules()[category], category), MaxRows)
  }

  /** The head is in the category's order, and each of its candidates is the scored catalog row it names. */
  lemma TopGenuine(data: Frame, budgetIdr: int, category: string)
    requires Loaded(data) && !data.IsEmpty() && category in Rules()
    requires Pool(data, budgetIdr, Rules()[category]) != []
    ensures SortedBy(Top(data, budgetIdr, category), FinalOrder(category))
    ensures forall k :: 0 <= k < |Top(data, budgetIdr, category)| ==>
      var c := Top(data, budgetIdr, category)[k];
      && c.laptop.index < data.rows && c.laptop == LaptopAt(data, c.laptop.index)
      && c.laptop in Pool(data, budgetIdr, Rules()[category])
      && c == Scored(c.laptop, Rules()[category], Pool(data, budgetIdr, Rules()[category]))
  {
    var rule := Rules()[category];
    var pool := Pool(data, budgetIdr, rule);
    var ranked := Ranked(pool, rule, category);
    HeadSorted(ranked, FinalOrder(category), MaxRows);
    forall k | 0 <= k < |Top(data, budgetIdr, category)|
      ensures var c := Top(data, budgetIdr, category)[k];
        && c.laptop.index < data.rows && c.laptop == LaptopAt(data, c.laptop.index)
        && c.laptop in pool && c == Scored(c.laptop, rule, pool)
    {
      var c := Top(data, budgetIdr, category)[k];
      HeadWithin(ranked, MaxRows, c);
      RankedGenuine(pool, rule, category, c);
      PoolFromCatalogue(data, budgetIdr, rule, c.laptop);
    }
  }

  /** The outcome is a table only past every check, and then it shows the head of the ranked pool. */
  lemma RecommendTable(data: Frame, budgetIdr: int, category: string)
    requires Loaded(data) && Recommend(data, budgetIdr, category).Table?
    ensures !data.IsEmpty() && category in Rules()
    ensures Pool(data, budgetIdr, Rules()[category]) != [] && Missing(data.columns, DescriptiveNames) == []
    ensures forall c :: c in Top(data, budgetIdr, category) ==> c.laptop.index < data.rows
    ensures Recommend(data, budgetIdr, category).rows == Rows(data, Top(data, budgetIdr, category))
  {
    RankedFromCatalogue(data, budgetIdr, category);
  }

  /** Every returned row shows the columns of the catalog row it names, a row that qualifies. */
  lemma RecommendRows(data: Frame, budgetIdr: int, category: string)
    requires Loaded(data) && Recommend(data, budgetIdr, category).Table?
    ensures !data.IsEmpty() && category in Rules() && Missing(data.columns, DescriptiveNames) == []
    ensures forall k :: 0 <= k < |Recommend(data, budgetIdr, category).rows| ==>
      var row := Recommend(data, budgetIdr, category).rows[k];
      && row.index < data.rows
      && Qualifies(data, budgetIdr, Rules()[category], row.index)
      && row.estimate == Estimate(LaptopAt(data, row.index).harga)
      && row.explanation == Explained(LaptopAt(data, row.index), Rules()[category])
      && row.ram == LaptopAt(data, row.index).ram && row.storage == LaptopAt(data, row.index).storage
      && row == Select(data, Top(data, budgetIdr, category)[k])
  {
    RecommendTable(data, budgetIdr, category);
    TopGenuine(data, budgetIdr, category);
  }

  /** How many of the first `n` catalog rows qualify. */
  function QualifyingCount(data: Frame, budgetIdr: int, rule: Rule, n: nat): nat
    requires Loaded(data) && !data.IsEmpty() && n <= data.rows
  {
    if n == 0 then 0
    else QualifyingCount(data, budgetIdr, rule, n - 1) + if Qualifies(data, budgetIdr, rule, n - 1) then 1 else 0
  }

  /** The pool holds one laptop per qualifying row: its size is the number of rows that qualify. */
  lemma PoolCount(data: Frame, budgetIdr: int, rule: Rule)
    requires Loaded(data) && !data.IsEmpty()
    ensures |Pool(data, budgetIdr, rule)| == QualifyingCount(data, budgetIdr, rule, data.rows)
  {
    var s := Catalogue(data);
    assert s[..data.rows] == s;
    PrefixPoolCount(data, budgetIdr, rule, data.rows);
  }

  /** The filters applied to the first `n` catalog rows keep as many as qualify among them. */
  lemma {:induction false} PrefixPoolCount(data: Frame, budgetIdr: int, rule: Rule, n: nat)
    requires Loaded(data) && !data.IsEmpty() && n <= data.rows
    ensures |MeetingRule(WithinBudget(Catalogue(data)[..n], BudgetLimit(budgetIdr)), rule)|
      == QualifyingCount(data, budgetIdr, rule, n)
  {
    if n > 0 {
      var s := Catalogue(data);
      var limit := BudgetLimit(budgetIdr);
      var x := s[n - 1];
      assert s[..n] == s[..n - 1] + [x];
      assert [x][1..] == [];
      WithinBudgetAppend(s[..n - 1], [x], limit);
      MeetingRuleAppend(WithinBudget(s[..n - 1], limit), WithinBudget([x], limit), rule);
      assert x == LaptopAt(data, n - 1);
      if x.harga <= limit {
        assert WithinBudget([x], limit) == [x];
        assert |MeetingRule([x], rule)| == if Meets(x, rule) then 1 else 0;
      }
      PrefixPoolCount(data, budgetIdr, rule, n - 1);
    } else {
      assert Catalogue(data)[..0] == [];
    }
  }

  /** The table has twenty rows, or all of the pool when it is smaller. */
  lemma RecommendSize(data: Frame, budgetIdr: int, category: string)
    requires Loaded(data) && Recommend(data, budgetIdr, category).Table?
    ensures !data.IsEmpty() && category in Rules()
    ensures var n := |Pool(data, budgetIdr, Rules()[category])|;
      |Recommend(data, budgetIdr, category).rows| == if n < MaxRows then n else MaxRows
  {
    RecommendTable(data, budgetIdr, category);
    var rule := Rules()[category];
    var pool := Pool(data, budgetIdr, rule);
    assert |Ranked(pool, rule, category)| == |Candidates(pool, rule)| by {
      assert |multiset(Ranked(pool, rule, category))| == |multiset(Candidates(pool, rule))|;
    }
  }

  /** The score of catalog row `i` within the pool of a category. */
  function ScoreOfRow(data: Frame, budgetIdr: int, category: string, i: nat): real
    requires Loaded(data) && !data.IsEmpty() && category in Rules() && i < data.rows
    requires Pool(data, budgetIdr, Rules()[category]) != []
  {
    Score(LaptopAt(data, i), Rules()[category], Pool(data, budgetIdr, Rules()[category]))
  }

  /** The row indices of a table, each naming a catalog row. */
  lemma RecommendIndices(data: Frame, budgetIdr: int, category: string)
    requires Loaded(data) && Recommend(data, budgetIdr, category).Table?
    ensures !data.IsEmpty() && category in Rules() && Pool(data, budgetIdr, Rules()[category]) != []
    ensures |Recommend(data, budgetIdr, category).rows| == |Top(data, budgetIdr, category)|
    ensures forall k :: 0 <= k < |Recommend(data, budgetIdr, category).rows| ==>
      && Recommend(data, budgetIdr, category).rows[k].index < data.rows
      && Recommend(data, budgetIdr, category).rows[k].index == Top(data, budgetIdr, category)[k].laptop.index
      && Recommend(data, budgetIdr, category).rows[k].estimate == Top(data, budgetIdr, category)[k].estimate
      && ScoreOfRow(data, budgetIdr, category, Recommend(data, budgetIdr, category).rows[k].index)
         == Top(data, budgetIdr, category)[k].score
  {
    RecommendTable(data, budgetIdr, category);
    TopGenuine(data, budgetIdr, category);
  }

  /**
   * The table is in the category's order: by rupiah estimate ascending for
   * `ADMIN_PELAJAR`, otherwise by score descending.
   */
  lemma RecommendOrdered(data: Frame, budgetIdr: int, category: string)
    requires Loaded(data) && Recommend(data, budgetIdr, category).Table?
    ensures !data.IsEmpty() && category in Rules() && Pool(data, budgetIdr, Rules()[category]) != []
    ensures forall k :: 0 <= k < |Recommend(data, budgetIdr, category).rows| ==>
      Recommend(data, budgetIdr, category).rows[k].index < data.rows
    ensures category == "ADMIN_PELAJAR" ==>
      forall i, j :: 0 <= i < j < |Recommend(data, budgetIdr, category).rows| ==>
        Recommend(data, budgetIdr, category).rows[i].estimate <= Recommend(data, budgetIdr, category).rows[j].estimate
    ensures category != "ADMIN_PELAJAR" ==>
      forall i, j :: 0 <= i < j < |Recommend(data, budgetIdr, category).rows| ==>
        ScoreOfRow(data, budgetIdr, category, Recommend(data, budgetIdr, category).rows[i].index)
        >= ScoreOfRow(data, budgetIdr, category, Recommend(data, budgetIdr, category).rows[j].index)
  {
    RecommendIndices(data, budgetIdr, category);
    TopOrdered(data, budgetIdr, category);
    var rows := Recommend(data, budgetIdr, category).rows;
    var top := Top(data, budgetIdr, category);
    if category == "ADMIN_PELAJAR" {
      forall i, j | 0 <= i < j < |rows| ensures rows[i].estimate <= rows[j].estimate {
        assert rows[i].estimate == top[i].estimate && rows[j].estimate == top[j].estimate;
      }
    } else {
      forall i, j | 0 <= i < j < |rows|
        ensures ScoreOfRow(data, budgetIdr, category, rows[i].index) >= ScoreOfRow(data, budgetIdr, category, rows[j].index)
      {
        assert ScoreOfRow(data, budgetIdr, category, rows[i].index) == top[i].score;
        assert ScoreOfRow(data, budgetIdr, category, rows[j].index) == top[j].score;
      }
    }
  }

  /** The head in terms of the two keys. */
  lemma TopOrdered(data: Frame, budgetIdr: int, category: string)
    requires Loaded(data) && !data.IsEmpty() && category in Rules()
    requires Pool(data, budgetIdr, Rules()[category]) != []
    ensures category == "ADMIN_PELAJAR" ==> forall i, j :: 0 <= i < j < |Top(data, budgetIdr, category)| ==>
      Top(data, budgetIdr, category)[i].estimate <= Top(data, budgetIdr, category)[j].estimate
    ensures category != "ADMIN_PELAJAR" ==> forall i, j :: 0 <= i < j < |Top(data, budgetIdr, category)| ==>
      Top(data, budgetIdr, category)[i].score >= Top(data, budgetIdr, category)[j].score
  {
    var top := Top(data, budgetIdr, category);
    TopGenuine(data, budgetIdr, category);
    forall i, j | 0 <= i < j < |top|
      ensures KeyOf(FinalOrder(category), top[i]) <= KeyOf(FinalOrder(category), top[j])
    {
    }
  }

  /**
   * The table holds the best of the pool: a qualifying laptop that is not in
   * it is no cheaper (for `ADMIN_PELAJAR`) or scores no higher (otherwise)
   * than any row that is.
   */
  lemma RecommendKeepsBest(data: Frame, budgetIdr: int, category: string, l: Laptop)
    requires Loaded(data) && Recommend(data, budgetIdr, category).Table?
    requires !data.IsEmpty() && category in Rules() && l in Pool(data, budgetIdr, Rules()[category])
    requires forall k :: 0 <= k < |Recommend(data, budgetIdr, category).rows| ==>
      Recommend(data, budgetIdr, category).rows[k].index != l.index
    ensures forall k :: 0 <= k < |Recommend(data, budgetIdr, category).rows| ==>
      Recommend(data, budgetIdr, category).rows[k].index < data.rows
    ensures category == "ADMIN_PELAJAR" ==>
      forall k :: 0 <= k < |Recommend(data, budgetIdr, category).rows| ==>
        Recommend(data, budgetIdr, category).rows[k].estimate <= Estimate(l.harga)
    ensures category != "ADMIN_PELAJAR" ==>
      forall k :: 0 <= k < |Recommend(data, budgetIdr, category).rows| ==>
        ScoreOfRow(data, budgetIdr, category, Recommend(data, budgetIdr, category).rows[k].index)
        >= Score(l, Rules()[category], Pool(data, budgetIdr, Rules()[category]))
  {
    RecommendIndices(data, budgetIdr, category);
    NotInTop(data, budgetIdr, category, l);
    var rule := Rules()[category];
    var pool := Pool(data, budgetIdr, rule);
    var rows := Recommend(data, budgetIdr, category).rows;
    var top := Top(data, budgetIdr, category);
    assert top == Head(Ranked(pool, rule, category), MaxRows);
    RankedKeepsBest(pool, rule, category, l);
    var order := FinalOrder(category);
    var c := Scored(l, rule, pool);
    if category == "ADMIN_PELAJAR" {
      assert KeyOf(order, c) == Estimate(l.harga);
      forall k | 0 <= k < |rows| ensures rows[k].estimate <= Estimate(l.harga) {
        assert rows[k].estimate == top[k].estimate == KeyOf(order, top[k]);
      }
    } else {
      assert KeyOf(order, c) == -Score(l, rule, pool);
      forall k | 0 <= k < |rows| ensures ScoreOfRow(data, budgetIdr, category, rows[k].index) >= Score(l, rule, pool) {
        assert ScoreOfRow(data, budgetIdr, category, rows[k].index) == top[k].score == -KeyOf(order, top[k]);
      }
    }
  }

  /** A laptop with no row in the table is named by no candidate of the head. */
  lemma NotInTop(data: Frame, budgetIdr: int, category: string, l: Laptop)
    requires Loaded(data) && Recommend(data, budgetIdr, category).Table?
    requires forall k :: 0 <= k < |Recommend(data, budgetIdr, category).rows| ==>
      Recommend(data, budgetIdr, category).rows[k].index != l.index
    ensures !data.IsEmpty() && category in Rules() && Pool(data, budgetIdr, Rules()[category]) != []
    ensures forall k :: 0 <= k < |Top(data, budgetIdr, category)| ==> Top(data, budgetIdr, category)[k].laptop.index != l.index
  {
    RecommendIndices(data, budgetIdr, category);
    var rows := Recommend(data, budgetIdr, category).rows;
    var top := Top(data, budgetIdr, category);
    forall k | 0 <= k < |top| ensures top[k].laptop.index != l.index {
      assert rows[k].index == top[k].laptop.index;
    }
  }

  /** The same, for any pool: the candidate of a laptop whose index is not in the head sorts no earlier than anything in it. */
  lemma RankedKeepsBest(pool: seq<Laptop>, rule: Rule, category: string, l: Laptop)
    requires l in pool
    requires forall k :: 0 <= k < |Head(Ranked(pool, rule, category), MaxRows)| ==>
      Head(Ranked(pool, rule, category), MaxRows)[k].laptop.index != l.index
    ensures forall k :: 0 <= k < |Head(Ranked(pool, rule, category), MaxRows)| ==>
      KeyOf(FinalOrder(category), Head(Ranked(pool, rule, category), MaxRows)[k]) <= KeyOf(FinalOrder(category), Scored(l, rule, pool))
  {
    var ranked := Ranked(pool, rule, category);
    var top := Head(ranked, MaxRows);
    var c := Scored(l, rule, pool);
    PoolCandidateRanked(pool, rule, category, l);
    assert c !in top by {
      forall k | 0 <= k < |top| ensures top[k] != c {
        assert top[k].laptop.index != c.laptop.index;
      }
    }
    LeftOutNoBetter(ranked, FinalOrder(category), MaxRows, c);
  }

  /** The candidate of every pool laptop is among the ranked ones. */
  lemma PoolCandidateRanked(pool: seq<Laptop>, rule: Rule, category: string, l: Laptop)
    requires l in pool
    ensures Scored(l, rule, pool) in Ranked(pool, rule, category)
  {
    var at :| 0 <= at < |pool| && pool[at] == l;
    assert Candidates(pool, rule)[at] == Scored(l, rule, pool);
    assert Scored(l, rule, pool) in multiset(Ranked(pool, rule, category));
  }

  /** A normalised term lies between 0 and its weight. */
  lemma RatioTerm(a: real, m: real, w: real)
    requires 0.0 <= a <= m && w >= 0.0
    ensures 0.0 <= Term(a, m, w) <= w
  {
    var d := Divisor(m);
    if m != 0.0 {
      var q := a / d;
      assert d > 0.0 && a <= d;
      assert q <= d / d == 1.0;
      assert (1.0 - q) * w >= 0.0;
      assert q * w == w - (1.0 - q) * w;
    }
  }

  /** Within a pool meeting a rule whose minimums and weights are not negative, a score is at most the sum of the three weights used. */
  lemma ScoreBounded(l: Laptop, rule: Rule, pool: seq<Laptop>)
    requires l in pool && forall x :: x in pool ==> Meets(x, rule)
    requires rule.minCpu >= 0 && rule.minGpu >= 0 && rule.minRam >= 0
    requires rule.wCpu >= 0.0 && rule.wGpu >= 0.0 && rule.wRam >= 0.0
    ensures 0.0 <= Score(l, rule, pool) <= rule.wCpu + rule.wGpu + rule.wRam
  {
    assert Value(l, CpuScore) == l.cpu && Value(l, GpuScore) == l.gpu && Value(l, Ram) == l.ram;
    MaxOfIsMaximum(pool, CpuScore);
    MaxOfIsMaximum(pool, GpuScore);
    MaxOfIsMaximum(pool, Ram);
    RatioTerm(l.cpu, MaxOf(pool, CpuScore), rule.wCpu);
    RatioTerm(l.gpu, MaxOf(pool, GpuScore), rule.wGpu);
    RatioTerm(l.ram, MaxOf(pool, Ram), rule.wRam);
    SumBounded(Term(l.cpu, MaxOf(pool, CpuScore), rule.wCpu), Term(l.gpu, MaxOf(pool, GpuScore), rule.wGpu),
      Term(l.ram, MaxOf(pool, Ram), rule.wRam), rule.wCpu, rule.wGpu, rule.wRam);
  }

  lemma SumBounded(x: real, y: real, z: real, a: real, b: real, c: real)
    requires 0.0 <= x <= a && 0.0 <= y <= b && 0.0 <= z <= c
    ensures 0.0 <= x + y + z <= a + b + c
  {
  }

  /** Every laptop of a category's pool scores between 0 and the sum of the rule's CPU, GPU and RAM weights. */
  lemma PoolScoreBounded(data: Frame, budgetIdr: int, category: string, l: Laptop)
    requires Loaded(data) && !data.IsEmpty() && category in Rules()
    requires l in Pool(data, budgetIdr, Rules()[category])
    ensures 0.0 <= Score(l, Rules()[category], Pool(data, budgetIdr, Rules()[category]))
      <= Rules()[category].wCpu + Rules()[category].wGpu + Rules()[category].wRam
  {
    var rule := Rules()[category];
    ScoreBounded(l, rule, Pool(data, budgetIdr, rule));
  }

  /** The storage weight plays no part in the score. */
  lemma ScoreIgnoresStorage(l: Laptop, rule: Rule, pool: seq<Laptop>, w: real)
    requires |pool| > 0
    ensures Score(l, rule.(wStorage := w), pool) == Score(l, rule, pool)
  {
  }
}
