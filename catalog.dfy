/**
 * The catalog loader of the expert system: the table read from CSV has its
 * known columns renamed onto the canonical schema, duplicate names dropped
 * (the first column of each name is kept), a `Price` column taken as the
 * price when `Harga_USD` is absent, and the six numeric columns coerced to
 * numbers, a missing one becoming all zeros.
 */
module Catalog {
  import opened Wrappers

  /**
   * A column with the type reading the CSV gave it: numeric (pandas
   * float/int), or object (text). None stands for a missing value (NaN).
   */
  datatype Column = Numeric(name: string, nums: seq<Option<real>>) | Object(name: string, texts: seq<Option<string>>)
  {
    function Height(): nat {
      if Numeric? then |nums| else |texts|
    }

    /** The same values under another name. */
    function Renamed(newName: string): (c: Column)
      ensures c.name == newName && c.Height() == Height()
      ensures c.Numeric? == Numeric? && (Numeric? ==> c.nums == nums) && (Object? ==> c.texts == texts)
    {
      if Numeric? then Numeric(newName, nums) else Object(newName, texts)
    }
  }

  /** A table: its columns in order and its number of rows. */
  datatype Frame = Frame(columns: seq<Column>, rows: nat) {
    predicate Valid() {
      forall k :: 0 <= k < |columns| ==> columns[k].Height() == rows
    }

    /** pandas' `DataFrame.empty`: no rows or no columns. */
    predicate IsEmpty() {
      rows == 0 || |columns| == 0
    }
  }

  /** What a failed load returns: `pd.DataFrame()`. */
  const EmptyFrame: Frame := Frame([], 0)

  /** The price, benchmark, memory, storage and screen columns, in the order the loader coerces them. */
  const NumericNames: seq<string> := ["Harga", "CpuScore", "GpuScore", "RAM", "Storage_GB", "ScreenScore"]

  /** The alias table from historical CSV headers to canonical names. */
  const ColumnMap: map<string, string> := map[
    "Harga_USD" := "Harga", "CPU_Score" := "CpuScore", "GPU_Score" := "GpuScore", "RAM_Clean" := "RAM",
    "Storage" := "Storage_GB", "Nama_Laptop" := "Nama_Produk", "Screen_Score" := "ScreenScore",
    "Processor" := "TipeProcessor", "GPU" := "TipeGPU", "Display" := "DetailLayar",
    "Detail_URL" := "LinkPenjelasan", "Buy_Link" := "LinkPembelian"]

  function NamesOf(cols: seq<Column>): (r: seq<string>)
    ensures |r| == |cols| && forall k :: 0 <= k < |cols| ==> r[k] == cols[k].name
  {
    seq(|cols|, k requires 0 <= k < |cols| => cols[k].name)
  }

  predicate Distinct(names: seq<string>) {
    forall i, j :: 0 <= i < j < |names| ==> names[i] != names[j]
  }

  /** The first position of a column called `name`, as pandas' label lookup finds it. */
  function IndexOf(cols: seq<Column>, name: string): (r: Option<nat>)
    ensures r.Some? ==> r.value < |cols| && cols[r.value].name == name
    ensures r.Some? ==> forall k :: 0 <= k < r.value ==> cols[k].name != name
    ensures r.None? <==> name !in NamesOf(cols)
  {
    if cols == [] then None
    else if cols[0].name == name then Some(0)
    else match IndexOf(cols[1..], name)
      case None =>
        assert NamesOf(cols) == [cols[0].name] + NamesOf(cols[1..]);
        None
      case Some(k) => Some(k + 1)
  }

  /** `df.rename(columns=rename_dict)` with the keys of the alias table that occur: every such column takes its canonical name. */
  function RenameKnown(cols: seq<Column>): (r: seq<Column>)
    ensures |r| == |cols|
    ensures forall k :: 0 <= k < |cols| ==> r[k].Height() == cols[k].Height()
    ensures forall k :: 0 <= k < |cols| ==> r[k] == cols[k].Renamed(r[k].name)
    ensures forall k :: 0 <= k < |cols| ==> r[k].name == if cols[k].name in ColumnMap then ColumnMap[cols[k].name] else cols[k].name
  {
    seq(|cols|, k requires 0 <= k < |cols| =>
      if cols[k].name in ColumnMap then cols[k].Renamed(ColumnMap[cols[k].name]) else cols[k].Renamed(cols[k].name))
  }

  /** `df.loc[:, ~df.columns.duplicated()]`: each name kept once, at its first column. */
  function DropDuplicates(cols: seq<Column>): (r: seq<Column>)
    ensures Distinct(NamesOf(r))
    ensures forall n :: n in NamesOf(r) <==> n in NamesOf(cols)
    ensures forall k :: 0 <= k < |r| ==> IndexOf(cols, r[k].name).Some? && r[k] == cols[IndexOf(cols, r[k].name).value]
    decreases |cols|, 1
  {
    if cols == [] then []
    else
      var init := cols[..|cols| - 1];
      var last := cols[|cols| - 1];
      assert cols == init + [last];
      if last.name in NamesOf(init) then
        DropSeen(init, last);
        DropDuplicates(init)
      else
        DropNew(init, last);
        DropDuplicates(init) + [last]
  }

  /** A column whose name was seen is dropped: what was kept before is still right. */
  lemma DropSeen(init: seq<Column>, last: Column)
    requires last.name in NamesOf(init)
    ensures var kept := DropDuplicates(init);
      && (forall n :: n in NamesOf(kept) <==> n in NamesOf(init + [last]))
      && (forall k :: 0 <= k < |kept| ==> IndexOf(init + [last], kept[k].name) == IndexOf(init, kept[k].name))
    decreases |init| + 1, 0
  {
    var kept := DropDuplicates(init);
    NamesOfAppend(init, last);
    forall k | 0 <= k < |kept| ensures IndexOf(init + [last], kept[k].name) == IndexOf(init, kept[k].name) {
      IndexOfPrefix(init, last, kept[k].name);
    }
  }

  /** A column with a new name is kept, at the end. */
  lemma DropNew(init: seq<Column>, last: Column)
    requires last.name !in NamesOf(init)
    ensures var r := DropDuplicates(init) + [last];
      && Distinct(NamesOf(r))
      && (forall n :: n in NamesOf(r) <==> n in NamesOf(init + [last]))
      && (forall k :: 0 <= k < |r| ==> IndexOf(init + [last], r[k].name).Some? && r[k] == (init + [last])[IndexOf(init + [last], r[k].name).value])
    decreases |init| + 1, 0
  {
    var cols := init + [last];
    var kept := DropDuplicates(init);
    var r := kept + [last];
    NamesOfAppend(init, last);
    NamesOfAppend(kept, last);
    DistinctAppend(NamesOf(kept), last.name);
    forall k | 0 <= k < |r| ensures IndexOf(cols, r[k].name).Some? && r[k] == cols[IndexOf(cols, r[k].name).value] {
      if k < |kept| {
        IndexOfPrefix(init, last, kept[k].name);
        assert r[k] == kept[k];
        assert cols[IndexOf(init, kept[k].name).value] == init[IndexOf(init, kept[k].name).value];
      } else {
        IndexOfPrefix(init, last, last.name);
        assert r[k] == last;
      }
    }
  }

  /** The first column called like `x` comes before the first column called like `y`. */
  predicate FirstBefore(cols: seq<Column>, x: Column, y: Column) {
    IndexOf(cols, x.name).Some? && IndexOf(cols, y.name).Some? && IndexOf(cols, x.name).value < IndexOf(cols, y.name).value
  }

  /** The columns of `r` appear in the order of the first occurrences of their names in `cols`. */
  predicate InFirstOccurrenceOrder(cols: seq<Column>, r: seq<Column>) {
    forall i, j :: 0 <= i < j < |r| ==> FirstBefore(cols, r[i], r[j])
  }

  /** De-duplication keeps the input order: kept columns appear in the order of their first occurrences. */
  lemma {:induction false} DropDuplicatesOrder(cols: seq<Column>)
    ensures InFirstOccurrenceOrder(cols, DropDuplicates(cols))
    decreases |cols|
  {
    if cols != [] {
      var init := cols[..|cols| - 1];
      var last := cols[|cols| - 1];
      assert cols == init + [last];
      var kept := DropDuplicates(init);
      DropDuplicatesOrder(init);
      if last.name in NamesOf(init) {
        assert DropDuplicates(cols) == kept;
        OrderAfterSeen(init, last, kept);
      } else {
        assert DropDuplicates(cols) == kept + [last];
        OrderAfterNew(init, last, kept);
      }
    }
  }

  /** Appending a column does not reorder columns whose names occur before it. */
  lemma OrderAfterSeen(init: seq<Column>, last: Column, kept: seq<Column>)
    requires InFirstOccurrenceOrder(init, kept)
    ensures InFirstOccurrenceOrder(init + [last], kept)
  {
    forall i, j | 0 <= i < j < |kept| ensures FirstBefore(init + [last], kept[i], kept[j]) {
      assert FirstBefore(init, kept[i], kept[j]);
      IndexOfPrefix(init, last, kept[i].name);
      IndexOfPrefix(init, last, kept[j].name);
    }
  }

  /** A column with a new name comes after every column whose name occurs before it. */
  lemma OrderAfterNew(init: seq<Column>, last: Column, kept: seq<Column>)
    requires InFirstOccurrenceOrder(init, kept) && last.name !in NamesOf(init)
    requires forall k :: 0 <= k < |kept| ==> IndexOf(init, kept[k].name).Some?
    ensures InFirstOccurrenceOrder(init + [last], kept + [last])
  {
    var cols, r := init + [last], kept + [last];
    OrderAfterSeen(init, last, kept);
    IndexOfPrefix(init, last, last.name);
    forall i, j | 0 <= i < j < |r| ensures FirstBefore(cols, r[i], r[j]) {
      assert r[i] == kept[i];
      if j < |kept| {
        assert r[j] == kept[j];
      } else {
        assert r[j] == last;
        IndexOfPrefix(init, last, kept[i].name);
      }
    }
  }

  /** A new name keeps a list of distinct names distinct. */
  lemma DistinctAppend(names: seq<string>, x: string)
    requires Distinct(names) && x !in names
    ensures Distinct(names + [x])
  {
  }

  lemma NamesOfAppend(init: seq<Column>, last: Column)
    ensures NamesOf(init + [last]) == NamesOf(init) + [last.name]
  {
  }

  /** Appending a column does not move the first column of a name already present. */
  lemma {:induction false} IndexOfPrefix(init: seq<Column>, last: Column, name: string)
    ensures IndexOf(init + [last], name) == if name in NamesOf(init) then IndexOf(init, name) else if last.name == name then Some(|init|) else None
    decreases |init|
  {
    var cols := init + [last];
    if init == [] {
      assert cols == [last];
    } else {
      assert cols[0] == init[0];
      assert cols[1..] == init[1..] + [last];
      IndexOfPrefix(init[1..], last, name);
      assert NamesOf(init) == [init[0].name] + NamesOf(init[1..]);
    }
  }

  /** Every column called `old` takes the name `new`. */
  function RenameColumn(cols: seq<Column>, from: string, to: string): (r: seq<Column>)
    ensures |r| == |cols|
    ensures forall k :: 0 <= k < |cols| ==> r[k] == cols[k].Renamed(if cols[k].name == from then to else cols[k].name)
  {
    seq(|cols|, k requires 0 <= k < |cols| => cols[k].Renamed(if cols[k].name == from then to else cols[k].name))
  }

  /**
   * The columns after renaming, de-duplication and the price fallback; None
   * when the load gives up because no price column exists. The prepared
   * columns carry distinct names, `Harga` among them.
   */
  function Prepare(cols: seq<Column>): (r: Option<seq<Column>>)
    ensures r.Some? ==> "Harga" in NamesOf(r.value) && Distinct(NamesOf(r.value))
  {
    var d := DropDuplicates(RenameKnown(cols));
    if "Harga" in NamesOf(d) then Some(d)
    else if "Price" in NamesOf(d) then
      var r := RenameColumn(d, "Price", "Harga");
      PriceRenamed(d, r);
      Some(r)
    else None
  }

  /** Renaming `Price` to `Harga` where no `Harga` exists keeps the names distinct and brings in `Harga`. */
  lemma PriceRenamed(d: seq<Column>, r: seq<Column>)
    requires Distinct(NamesOf(d)) && "Harga" !in NamesOf(d) && "Price" in NamesOf(d)
    requires r == RenameColumn(d, "Price", "Harga")
    ensures "Harga" in NamesOf(r) && Distinct(NamesOf(r))
  {
    var k :| 0 <= k < |d| && NamesOf(d)[k] == "Price";
    assert NamesOf(r)[k] == "Harga";
    forall i, j | 0 <= i < j < |r| ensures NamesOf(r)[i] != NamesOf(r)[j] {
      assert NamesOf(d)[i] != NamesOf(d)[j];
      assert NamesOf(d)[i] == d[i].name && NamesOf(d)[j] == d[j].name;
    }
  }

  predicate IsDigit(c: char) {
    '0' <= c <= '9'
  }

  /** `str.replace(r'[^\d.]', '', regex=True)`: only the digits and dots of `s`, in order. */
  function KeepDigitsDots(s: string): (r: string)
    ensures |r| <= |s|
    ensures forall i :: 0 <= i < |r| ==> IsDigit(r[i]) || r[i] == '.'
  {
    if s == [] then []
    else
      var rest := KeepDigitsDots(s[1..]);
      if IsDigit(s[0]) || s[0] == '.' then [s[0]] + rest else rest
  }

  /**
   * The reduction works character by character: a digit or a dot is kept,
   * anything else dropped, and the reduction of two texts put together is
   * the two reductions put together.
   */
  lemma {:induction false} KeepDigitsDotsAppend(a: string, b: string)
    ensures KeepDigitsDots(a + b) == KeepDigitsDots(a) + KeepDigitsDots(b)
    ensures |a| == 1 ==> KeepDigitsDots(a) == if IsDigit(a[0]) || a[0] == '.' then a else []
    decreases |a|
  {
    if a == [] {
      assert a + b == b;
    } else {
      assert (a + b)[0] == a[0];
      assert (a + b)[1..] == a[1..] + b;
      KeepDigitsDotsAppend(a[1..], b);
      if |a| == 1 {
        assert a[1..] == [];
        assert a == [a[0]];
      }
    }
  }

  /** Text made only of digits and dots is kept whole. */
  lemma {:induction false} KeepDigitsDotsFixes(s: string)
    requires forall i :: 0 <= i < |s| ==> IsDigit(s[i]) || s[i] == '.'
    ensures KeepDigitsDots(s) == s
  {
    if s != [] {
      KeepDigitsDotsFixes(s[1..]);
    }
  }

  predicate AllDigits(s: string) {
    forall i :: 0 <= i < |s| ==> IsDigit(s[i])
  }

  /** The value of a string of decimal digits. */
  function DigitsValue(s: string): nat
    requires AllDigits(s)
  {
    if s == [] then 0 else 10 * DigitsValue(s[..|s| - 1]) + (s[|s| - 1] as int - '0' as int)
  }

  function Pow10(n: nat): (p: nat)
    ensures p >= 1
  {
    if n == 0 then 1 else 10 * Pow10(n - 1)
  }

  /** Position of the first `.` in `s`, if any. */
  function DotAt(s: string): (r: Option<nat>)
    ensures r.Some? ==> r.value < |s| && s[r.value] == '.' && forall i :: 0 <= i < r.value ==> s[i] != '.'
    ensures r.None? ==> forall i :: 0 <= i < |s| ==> s[i] != '.'
  {
    if s == [] then None
    else if s[0] == '.' then Some(0)
    else match DotAt(s[1..])
      case None => None
      case Some(d) => Some(d + 1)
  }

  /**
   * `pd.to_numeric(..., errors='coerce').fillna(0)` on what is left of a
   * text cell: digits with at most one dot and at least one digit are read
   * as a decimal number; anything else is 0.
   */
  function ParseDecimal(t: string): (r: real)
    ensures r >= 0.0
  {
    match DotAt(t)
    case None => if t != [] && AllDigits(t) then DigitsValue(t) as real else 0.0
    case Some(d) =>
      var whole := t[..d];
      var frac := t[d + 1..];
      if |whole| + |frac| > 0 && AllDigits(whole) && AllDigits(frac)
      then DigitsValue(whole) as real + DigitsValue(frac) as real / Pow10(|frac|) as real
      else 0.0
  }

  /** Digits put together read as the first number shifted left by the length of the second, plus the second. */
  lemma {:induction false} DigitsValueAppend(w: string, f: string)
    requires AllDigits(w) && AllDigits(f)
    ensures AllDigits(w + f)
    ensures DigitsValue(w + f) == DigitsValue(w) * Pow10(|f|) + DigitsValue(f)
    decreases |f|
  {
    if f == [] {
      assert w + f == w;
    } else {
      var g := f[..|f| - 1];
      var d := f[|f| - 1] as int - '0' as int;
      assert (w + f)[..|w + f| - 1] == w + g;
      assert (w + f)[|w + f| - 1] == f[|f| - 1];
      DigitsValueAppend(w, g);
      var x, y, p := DigitsValue(w), DigitsValue(g), Pow10(|g|);
      assert DigitsValue(w + f) == 10 * (x * p + y) + d;
      assert DigitsValue(f) == 10 * y + d && Pow10(|f|) == 10 * p;
      MulTen(x, p);
    }
  }

  lemma MulTen(x: int, p: int)
    ensures 10 * (x * p) == x * (10 * p)
  {
  }

  /** A run of digits without a dot reads as the number it writes. */
  lemma ParseDecimalWhole(w: string)
    requires w != [] && AllDigits(w)
    ensures ParseDecimal(w) == DigitsValue(w) as real
  {
    assert DotAt(w).None?;
  }

  /**
   * Digits `w`, a dot and digits `f` read as the decimal number `w.f`:
   * scaled by ten to the number of decimals it is the whole digit string
   * `w + f`.
   */
  lemma ParseDecimalFraction(w: string, f: string)
    requires AllDigits(w) && AllDigits(f) && |w| + |f| > 0
    ensures ScaledTo(ParseDecimal(w + "." + f), Pow10(|f|), DigitsValue(w + f))
  {
    var t := w + "." + f;
    DotAfterDigits(w, f);
    assert t[..|w|] == w && t[|w| + 1..] == f;
    assert ParseDecimal(t) == DigitsValue(w) as real + DigitsValue(f) as real / Pow10(|f|) as real;
    DigitsValueAppend(w, f);
    ScaleFraction(ParseDecimal(w + "." + f), DigitsValue(w + f), DigitsValue(w), Pow10(|f|), DigitsValue(f));
  }

  /** The first dot of digits, a dot and more text is the one after the digits. */
  lemma DotAfterDigits(w: string, f: string)
    requires AllDigits(w)
    ensures DotAt(w + "." + f) == Some(|w|)
  {
    var t := w + "." + f;
    assert t[|w|] == '.';
    assert forall i :: 0 <= i < |w| ==> t[i] == w[i];
  }

  /** `x` times `b` is `n`: a decimal number with its point moved right by the digits `b` stands for. */
  predicate ScaledTo(x: real, b: nat, n: nat) {
    x * b as real == n as real
  }

  /** A whole part `a` plus a fraction `c / b`, scaled by `b`, is `a * b + c`. */
  lemma ScaleFraction(x: real, n: nat, a: nat, b: nat, c: nat)
    requires b > 0 && n == a * b + c && x == a as real + c as real / b as real
    ensures ScaledTo(x, b, n)
  {
  }

  /** A text cell as the loader reads it; NaN becomes the text "nan" and so 0. */
  function CoerceText(cell: Option<string>): (r: real)
    ensures r >= 0.0
  {
    ParseDecimal(KeepDigitsDots(cell.GetOr("nan")))
  }

  /**
   * A text cell whose digits and dots are digits `w`, optionally followed by
   * a dot and digits `f`, coerces to the number `w` or `w.f`; the other
   * characters play no part.
   */
  lemma CoerceTextValue(cell: string, w: string, f: string)
    requires AllDigits(w) && AllDigits(f)
    ensures KeepDigitsDots(cell) == w && w != [] ==> CoerceText(Some(cell)) == DigitsValue(w) as real
    ensures KeepDigitsDots(cell) == w + "." + f && |w| + |f| > 0 ==>
      ScaledTo(CoerceText(Some(cell)), Pow10(|f|), DigitsValue(w + f))
  {
    if KeepDigitsDots(cell) == w && w != [] {
      ParseDecimalWhole(w);
    }
    if KeepDigitsDots(cell) == w + "." + f && |w| + |f| > 0 {
      ParseDecimalFraction(w, f);
    }
  }

  /** The numbers a column becomes: a numeric column keeps its values (NaN as 0); an object column has each text reduced and parsed. */
  function Coerce(c: Column): (r: seq<real>)
    ensures |r| == c.Height()
    ensures c.Object? ==> forall i :: 0 <= i < |r| ==> r[i] == CoerceText(c.texts[i])
    ensures c.Numeric? ==> forall i :: 0 <= i < |r| ==> r[i] == c.nums[i].GetOr(0.0)
  {
    match c
    case Numeric(_, nums) => seq(|nums|, i requires 0 <= i < |nums| => nums[i].GetOr(0.0))
    case Object(_, texts) => seq(|texts|, i requires 0 <= i < |texts| => CoerceText(texts[i]))
  }

  function Present(values: seq<real>): (r: seq<Option<real>>)
    ensures |r| == |values| && forall i :: 0 <= i < |r| ==> r[i] == Some(values[i])
  {
    seq(|values|, i requires 0 <= i < |values| => Some(values[i]))
  }

  /** `df[name] = 0`. */
  function ZeroColumn(name: string, rows: nat): (c: Column)
    ensures c.Numeric? && c.name == name && c.Height() == rows
    ensures forall i :: 0 <= i < rows ==> c.nums[i] == Some(0.0)
  {
    Numeric(name, seq(rows, i => Some(0.0)))
  }

  /** A column after the coercion step: numeric names are coerced, the others left alone. */
  function CleanedColumn(c: Column): (r: Column)
    ensures r.name == c.name && r.Height() == c.Height()
  {
    if c.name in NumericNames then Numeric(c.name, Present(Coerce(c))) else c
  }

  /** The numeric names, among `names`, that no column of `cols` carries, in order. */
  function Missing(cols: seq<Column>, names: seq<string>): (r: seq<string>)
    ensures forall n :: n in r <==> n in names && n !in NamesOf(cols)
  {
    if names == [] then []
    else
      var init := Missing(cols, names[..|names| - 1]);
      var last := names[|names| - 1];
      assert forall n :: n in names <==> n in names[..|names| - 1] || n == last;
      if last in NamesOf(cols) then init else init + [last]
  }

  /**
   * The table the loader builds from the prepared columns: the prepared
   * columns in their order, then one new column for each numeric name
   * that none of them carries.
   */
  function CleanedFrame(p: seq<Column>, rows: nat): (df: Frame)
    ensures df.rows == rows
    ensures NamesOf(df.columns) == NamesOf(p) + Missing(p, NumericNames)
  {
    var missing := Missing(p, NumericNames);
    var cols := seq(|p|, k requires 0 <= k < |p| => CleanedColumn(p[k]))
          + seq(|missing|, i requires 0 <= i < |missing| => ZeroColumn(missing[i], rows));
    assert NamesOf(cols) == NamesOf(p) + missing by {
      forall k | 0 <= k < |cols| ensures NamesOf(cols)[k] == (NamesOf(p) + missing)[k] {
      }
    }
    Frame(cols, rows)
  }

  /** Extending the list of names extends the missing ones by the new name exactly when no column carries it. */
  lemma MissingStep(p: seq<Column>, names: seq<string>, n: string)
    ensures Missing(p, names + [n]) == if n in NamesOf(p) then Missing(p, names) else Missing(p, names) + [n]
  {
    assert (names + [n])[..|names|] == names;
  }

  /**
   * What the coercion loop has done once it has seen the names `done`: the
   * prepared columns with those names coerced, followed by a zero column for
   * each of those names that was missing.
   */
  predicate Coerced(p: seq<Column>, cols: seq<Column>, done: seq<string>, rows: nat) {
    && Distinct(NamesOf(p))
    && |cols| == |p| + |Missing(p, done)|
    && (forall k :: 0 <= k < |p| ==> cols[k] == if p[k].name in done then CleanedColumn(p[k]) else p[k])
    && (forall j :: 0 <= j < |Missing(p, done)| ==> cols[|p| + j] == ZeroColumn(Missing(p, done)[j], rows))
  }

  /**
   * `_load_and_clean_data`, given what reading the CSV produced (None when
   * the read raised). The `for col in numeric_cols` loop rewrites each
   * numeric column in place or appends a zero column for it.
   */
  method LoadAndCleanData(read: Option<Frame>) returns (df: Frame)
    requires read.Some? ==> read.value.Valid()
    ensures read.None? ==> df == EmptyFrame
    ensures read.Some? && Prepare(read.value.columns).None? ==> df == EmptyFrame
    ensures read.Some? && Prepare(read.value.columns).Some? ==> df == CleanedFrame(Prepare(read.value.columns).value, read.value.rows)
    ensures Loaded(df)
  {
    if read.None? {
      return EmptyFrame;
    }
    var raw := read.value;
    var renamed := RenameKnown(raw.columns);
    var deduped := DropDuplicates(renamed);
    var cols := deduped;
    if "Harga" !in NamesOf(cols) {
      if "Price" in NamesOf(cols) {
        cols := RenameColumn(cols, "Price", "Harga");
      } else {
        return EmptyFrame;
      }
    }
    ghost var p := cols;
    assert Prepare(raw.columns) == Some(p);
    NumericNamesDistinct();
    for i := 0 to |NumericNames|
      invariant Coerced(p, cols, NumericNames[..i], raw.rows)
    {
      CoerceStep(p, cols, NumericNames, i, raw.rows);
      cols := CoerceColumn(cols, NumericNames[i], raw.rows);
    }
    AllTaken(NumericNames);
    LoadFinished(p, cols, raw.rows);
    df := Frame(cols, raw.rows);
    PrepareValid(raw);
    CleanedFrameLoaded(p, raw.rows);
  }

  /** The loop body for one numeric name: `pd.to_numeric` on its column, or a new zero column when it does not exist. */
  method CoerceColumn(cols: seq<Column>, col: string, rows: nat) returns (r: seq<Column>)
    ensures r == CoerceName(cols, col, rows)
  {
    var at := IndexOf(cols, col);
    if at.None? {
      r := cols + [ZeroColumn(col, rows)];
    } else {
      var k := at.value;
      r := cols[k := Numeric(col, Present(Coerce(cols[k])))];
    }
  }

  /** A sequence is its own prefix of full length. */
  lemma AllTaken(s: seq<string>)
    ensures s[..|s|] == s
  {
  }

  /** After the loop has seen every numeric name, the columns are those of the cleaned table. */
  lemma LoadFinished(p: seq<Column>, cols: seq<Column>, rows: nat)
    requires Coerced(p, cols, NumericNames, rows)
    ensures cols == CleanedFrame(p, rows).columns
  {
    var c := CleanedFrame(p, rows).columns;
    assert |c| == |cols|;
    forall k | 0 <= k < |cols| ensures cols[k] == c[k] {
    }
  }

  /** The numeric names are distinct. */
  lemma NumericNamesDistinct()
    ensures Distinct(NumericNames)
  {
  }

  /** One turn of the coercion loop: the column called `name` is coerced, or a zero column appended when there is none. */
  function CoerceName(cols: seq<Column>, name: string, rows: nat): seq<Column> {
    match IndexOf(cols, name)
    case None => cols + [ZeroColumn(name, rows)]
    case Some(k) => cols[k := Numeric(name, Present(Coerce(cols[k])))]
  }

  lemma CoerceStep(p: seq<Column>, cols: seq<Column>, names: seq<string>, i: nat, rows: nat)
    requires i < |names| && Distinct(names) && names[i] in NumericNames
    requires Coerced(p, cols, names[..i], rows)
    ensures Coerced(p, CoerceName(cols, names[i], rows), names[..i + 1], rows)
  {
    if IndexOf(cols, names[i]).None? {
      CoerceAbsent(p, cols, names, i, rows);
    } else {
      CoercePresent(p, cols, names, i, rows);
    }
  }

  /** The next name of a list of distinct names extends the prefix seen so far and is not in it. */
  lemma PrefixStep(names: seq<string>, i: nat)
    requires i < |names| && Distinct(names)
    ensures names[..i + 1] == names[..i] + [names[i]]
    ensures names[i] !in names[..i]
  {
    forall j | 0 <= j < i ensures names[..i][j] != names[i] {
      assert names[..i][j] == names[j];
    }
  }

  /** A loop turn for a name no column carries appends its zero column. */
  lemma CoerceAbsent(p: seq<Column>, cols: seq<Column>, names: seq<string>, i: nat, rows: nat)
    requires i < |names| && Distinct(names)
    requires Coerced(p, cols, names[..i], rows)
    requires IndexOf(cols, names[i]).None?
    ensures Coerced(p, cols + [ZeroColumn(names[i], rows)], names[..i + 1], rows)
  {
    var col := names[i];
    var done := names[..i];
    PrefixStep(names, i);
    MissingStep(p, done, col);
    assert Missing(p, done + [col]) == Missing(p, done) + [col];
    var cols' := cols + [ZeroColumn(col, rows)];
    var m := Missing(p, done);
    var m' := Missing(p, done + [col]);
    assert |cols'| == |p| + |m'|;
    forall k | 0 <= k < |p| ensures cols'[k] == if p[k].name in done + [col] then CleanedColumn(p[k]) else p[k] {
      assert cols'[k] == cols[k];
      assert p[k].name != col by {
        assert NamesOf(p)[k] == p[k].name;
      }
    }
    forall j | 0 <= j < |m'| ensures cols'[|p| + j] == ZeroColumn(m'[j], rows) {
      if j < |m| {
        assert cols'[|p| + j] == cols[|p| + j];
        assert m'[j] == m[j];
      } else {
        assert m'[j] == col;
      }
    }
  }

  /** The column a loop turn finds for a name not yet seen is a prepared column that has not been touched. */
  lemma FoundIsPrepared(p: seq<Column>, cols: seq<Column>, done: seq<string>, col: string, rows: nat)
    requires col !in done
    requires Coerced(p, cols, done, rows)
    requires IndexOf(cols, col).Some?
    ensures IndexOf(cols, col).value < |p|
    ensures cols[IndexOf(cols, col).value] == p[IndexOf(cols, col).value]
    ensures p[IndexOf(cols, col).value].name == col
  {
    forall j | |p| <= j < |cols| ensures cols[j].name in done {
      assert Missing(p, done)[j - |p|] in Missing(p, done);
    }
  }

  /** A loop turn for a name carried by a column rewrites that column, which is one of the prepared ones. */
  lemma CoercePresent(p: seq<Column>, cols: seq<Column>, names: seq<string>, i: nat, rows: nat)
    requires i < |names| && Distinct(names) && names[i] in NumericNames
    requires Coerced(p, cols, names[..i], rows)
    requires IndexOf(cols, names[i]).Some?
    ensures var k := IndexOf(cols, names[i]).value;
      Coerced(p, cols[k := Numeric(names[i], Present(Coerce(cols[k])))], names[..i + 1], rows)
  {
    var col := names[i];
    var done := names[..i];
    PrefixStep(names, i);
    FoundIsPrepared(p, cols, done, col, rows);
    var k := IndexOf(cols, col).value;
    MissingStep(p, done, col);
    RewritePrepared(p, cols, done, col, k, rows);
  }

  /** Rewriting prepared column `k`, called `col`, in place: the prepared part now has `col` done, the zero columns stay. */
  lemma RewritePrepared(p: seq<Column>, cols: seq<Column>, done: seq<string>, col: string, k: nat, rows: nat)
    requires Coerced(p, cols, done, rows) && col in NumericNames
    requires k < |p| && p[k].name == col && cols[k] == p[k]
    requires Missing(p, done + [col]) == Missing(p, done)
    ensures Coerced(p, cols[k := Numeric(col, Present(Coerce(cols[k])))], done + [col], rows)
  {
    var cols' := cols[k := Numeric(col, Present(Coerce(cols[k])))];
    forall j | 0 <= j < |p| ensures cols'[j] == if p[j].name in done + [col] then CleanedColumn(p[j]) else p[j] {
      if j != k {
        assert NamesOf(p)[j] != NamesOf(p)[k];
      }
    }
    var m := Missing(p, done);
    forall j | 0 <= j < |m| ensures cols'[|p| + j] == ZeroColumn(m[j], rows) {
      assert cols'[|p| + j] == cols[|p| + j];
    }
  }

  /** The column called `n` of `df` is numeric, as tall as the table and without missing values. */
  predicate HasNumbers(df: Frame, n: string) {
    && IndexOf(df.columns, n).Some?
    && df.columns[IndexOf(df.columns, n).value].Numeric?
    && |df.columns[IndexOf(df.columns, n).value].nums| == df.rows
    && forall i :: 0 <= i < df.rows ==> df.columns[IndexOf(df.columns, n).value].nums[i].Some?
  }

  /** What the loader hands to the recommender: the empty table, or one whose six numeric columns are all numbers. */
  predicate Loaded(df: Frame) {
    df.Valid() && (df == EmptyFrame || forall n :: n in NumericNames ==> HasNumbers(df, n))
  }

  /** A loaded table that is not the empty one has each of the six numeric columns. */
  lemma LoadedNumbers(df: Frame)
    requires Loaded(df) && df != EmptyFrame
    ensures HasNumbers(df, "Harga") && HasNumbers(df, "CpuScore") && HasNumbers(df, "GpuScore")
    ensures HasNumbers(df, "RAM") && HasNumbers(df, "Storage_GB") && HasNumbers(df, "ScreenScore")
  {
    assert "Harga" in NumericNames && "CpuScore" in NumericNames && "GpuScore" in NumericNames;
    assert "RAM" in NumericNames && "Storage_GB" in NumericNames && "ScreenScore" in NumericNames;
  }

  /** The value in row `i` of numeric column `n` of a loaded table. */
  function NumAt(df: Frame, n: string, i: nat): (v: real)
    requires HasNumbers(df, n) && i < df.rows
    ensures Some(v) == df.columns[IndexOf(df.columns, n).value].nums[i]
  {
    df.columns[IndexOf(df.columns, n).value].nums[i].value
  }

  /** A name that the loader takes as the price column. */
  predicate PriceName(n: string) {
    n == "Harga_USD" || n == "Harga" || n == "Price"
  }

  /** The alias table sends exactly `Harga_USD` and `Harga` to `Harga`, and only `Price` to `Price`. */
  lemma AliasOfPrice(x: string)
    ensures ((if x in ColumnMap then ColumnMap[x] else x) == "Harga") <==> x == "Harga_USD" || x == "Harga"
    ensures ((if x in ColumnMap then ColumnMap[x] else x) == "Price") <==> x == "Price"
  {
  }

  /** The load gives up exactly when no column of the CSV is called `Harga_USD`, `Harga` or `Price`. */
  lemma PrepareFailsIff(cols: seq<Column>)
    ensures Prepare(cols).None? <==> forall k :: 0 <= k < |cols| ==> !PriceName(cols[k].name)
  {
    var r := RenameKnown(cols);
    var d := DropDuplicates(r);
    forall k | 0 <= k < |cols| {
      AliasOfPrice(cols[k].name);
    }
    if Prepare(cols).None? {
      forall k | 0 <= k < |cols| ensures !PriceName(cols[k].name) {
        assert NamesOf(r)[k] == r[k].name;
      }
    } else {
      var n := if "Harga" in NamesOf(d) then "Harga" else "Price";
      assert n in NamesOf(r);
      var k :| 0 <= k < |r| && NamesOf(r)[k] == n;
      assert r[k].name == n;
      AliasOfPrice(cols[k].name);
      assert PriceName(cols[k].name);
    }
  }

  /** Renaming, de-duplication and the price fallback keep every column as tall as the table. */
  lemma PrepareValid(raw: Frame)
    requires raw.Valid() && Prepare(raw.columns).Some?
    ensures Frame(Prepare(raw.columns).value, raw.rows).Valid()
  {
    var r := RenameKnown(raw.columns);
    var d := DropDuplicates(r);
    assert Frame(d, raw.rows).Valid();
  }

  /** The first column of a name in a concatenation lies in the first part when that part carries the name. */
  lemma {:induction false} IndexOfConcat(a: seq<Column>, b: seq<Column>, n: string)
    ensures IndexOf(a + b, n) == if n in NamesOf(a) then IndexOf(a, n)
      else if n in NamesOf(b) then Some(|a| + IndexOf(b, n).value) else None
    decreases |a|
  {
    if a == [] {
      assert a + b == b;
    } else {
      assert (a + b)[1..] == a[1..] + b;
      assert NamesOf(a) == [a[0].name] + NamesOf(a[1..]);
      IndexOfConcat(a[1..], b, n);
    }
  }

  /** Lookup by name sees only the names. */
  lemma {:induction false} IndexOfNames(a: seq<Column>, b: seq<Column>, n: string)
    requires NamesOf(a) == NamesOf(b)
    ensures IndexOf(a, n) == IndexOf(b, n)
    decreases |a|
  {
    if a != [] {
      var ta := a[1..];
      var tb := b[1..];
      assert a[0].name == NamesOf(a)[0] == NamesOf(b)[0] == b[0].name;
      forall k | 0 <= k < |ta| ensures NamesOf(ta)[k] == NamesOf(tb)[k] {
        assert NamesOf(a)[k + 1] == NamesOf(b)[k + 1];
      }
      assert NamesOf(ta) == NamesOf(tb);
      IndexOfNames(ta, tb, n);
    }
  }

  /**
   * After loading, the column called `n` comes from the CSV column of that
   * name, its values coerced; when the CSV has none, it is all zeros.
   */
  lemma LoadedColumn(p: seq<Column>, rows: nat, n: string)
    requires n in NumericNames
    ensures IndexOf(CleanedFrame(p, rows).columns, n).Some?
    ensures var c := CleanedFrame(p, rows).columns[IndexOf(CleanedFrame(p, rows).columns, n).value];
      && c.Numeric?
      && (n in NamesOf(p) ==> c.nums == Present(Coerce(p[IndexOf(p, n).value])))
      && (n !in NamesOf(p) ==> |c.nums| == rows && forall i :: 0 <= i < rows ==> c.nums[i] == Some(0.0))
  {
    var missing := Missing(p, NumericNames);
    var front := seq(|p|, k requires 0 <= k < |p| => CleanedColumn(p[k]));
    var back := seq(|missing|, i requires 0 <= i < |missing| => ZeroColumn(missing[i], rows));
    assert CleanedFrame(p, rows).columns == front + back;
    assert NamesOf(front) == NamesOf(p);
    IndexOfNames(front, p, n);
    IndexOfConcat(front, back, n);
    if n !in NamesOf(p) {
      assert n in missing;
      var j :| 0 <= j < |missing| && missing[j] == n;
      assert NamesOf(back)[j] == n;
    }
  }

  /** The other prepared columns pass through loading untouched. */
  lemma LoadKeepsOthers(p: seq<Column>, rows: nat, k: nat)
    requires k < |p| && p[k].name !in NumericNames
    ensures k < |CleanedFrame(p, rows).columns| && CleanedFrame(p, rows).columns[k] == p[k]
  {
  }

  /** The cleaned table is rectangular and holds the six numeric columns, all numbers. */
  lemma CleanedFrameLoaded(p: seq<Column>, rows: nat)
    requires Frame(p, rows).Valid()
    ensures Loaded(CleanedFrame(p, rows))
  {
    var df := CleanedFrame(p, rows);
    forall n | n in NumericNames ensures HasNumbers(df, n) {
      LoadedColumn(p, rows, n);
      if n in NamesOf(p) {
        var k := IndexOf(p, n).value;
        assert p[k].Height() == rows;
      }
    }
  }

  /** The decimal digits of `n`, most significant first. */
  function NatText(n: nat): (t: string)
    ensures |t| >= 1 && AllDigits(t)
  {
    var d := ['0' + (n % 10) as char];
    if n < 10 then d else NatText(n / 10) + d
  }

  /** Reading the digits of `n` gives back `n`. */
  lemma {:induction false} DigitsValueNatText(n: nat)
    ensures DigitsValue(NatText(n)) == n
  {
    var t := NatText(n);
    if n >= 10 {
      DigitsValueNatText(n / 10);
      assert t[..|t| - 1] == NatText(n / 10);
    }
  }

  /** A cell holding the digits of a whole number is coerced to that number. */
  lemma CoerceNatText(n: nat)
    ensures CoerceText(Some(NatText(n))) == n as real
  {
    var t := NatText(n);
    KeepDigitsDotsFixes(t);
    assert DotAt(t).None?;
    DigitsValueNatText(n);
  }

  /** A missing text cell reads as "nan", which has no digit, and so becomes 0. */
  lemma CoerceNan()
    ensures CoerceText(None) == 0.0
  {
    assert KeepDigitsDots("an") == [];
    assert KeepDigitsDots("nan") == [];
  }

  /** A cell without any digit is unparseable and becomes 0. */
  lemma {:induction false} CoerceNoDigit(cell: string)
    requires forall i :: 0 <= i < |cell| ==> !IsDigit(cell[i])
    ensures CoerceText(Some(cell)) == 0.0
  {
    NoDigitKept(cell);
  }

  lemma {:induction false} NoDigitKept(s: string)
    requires forall i :: 0 <= i < |s| ==> !IsDigit(s[i])
    ensures forall i :: 0 <= i < |KeepDigitsDots(s)| ==> KeepDigitsDots(s)[i] == '.'
  {
    if s != [] {
      NoDigitKept(s[1..]);
    }
  }

  /** Text with two or more dots left after the reduction is unparseable and becomes 0, whatever follows the second dot. */
  lemma TwoDotsUnparseable(a: string, b: string, c: string)
    requires AllDigits(a) && AllDigits(b)
    ensures ParseDecimal(a + "." + b + "." + c) == 0.0
  {
    var t := a + "." + b + "." + c;
    assert t[|a|] == '.';
    var d := DotAt(t).value;
    assert d == |a|;
    assert t[d + 1..][|b|] == '.';
  }

  /** A price written with a currency sign and a thousands separator is read as its number. */
  lemma CoercePriceText()
    ensures CoerceText(Some("$1,299")) == 1299.0
  {
    assert KeepDigitsDots("299") == "299";
    assert KeepDigitsDots(",299") == "299";
    assert KeepDigitsDots("1,299") == "1299";
    assert KeepDigitsDots("$1,299") == "1299";
    assert NatText(1299) == "1299";
    CoerceNatText(1299);
  }
}
