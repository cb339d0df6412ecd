/**
 * The CPU benchmark extractor: scan the first `<tbody>…</tbody>` (or the
 * whole document when there is none), take every `<tr…>…</tr>` row and its
 * `<td…>…</td>` cells, and keep the first five cells, tag-stripped and
 * trimmed, of every row that has at least five.
 */
module CpuScrape {
  import opened Wrappers
  import opened Lists
  import opened Text

  const BodyOpen: string := "<tbody>"
  const BodyClose: string := "</tbody>"

  /** One output record, keyed CPU Name, CPU Mark, Rank, CPU Value, Price. */
  datatype CpuRecord = CpuRecord(cpuName: string, cpuMark: string, rank: string, cpuValue: string, price: string)

  /** `re.search(r'<tbody>(.*?)</tbody>', html, re.DOTALL)`: its group, or the whole document when it does not match. */
  function TbodyContent(html: string): (r: string)
    ensures |r| <= |html|
  {
    match Find(html, BodyOpen, 0, false)
    case None => html
    case Some(i) =>
      match Find(html, BodyClose, i + |BodyOpen|, false)
      case None => html
      case Some(j) => html[i + |BodyOpen|..j]
  }

  /** An opening `<tbody>` at `i` followed, at or after its end, by a `</tbody>` at `j`: a place the pattern can match. */
  predicate BodyMatch(html: string, i: int, j: int) {
    MatchesAt(html, BodyOpen, i, false) && MatchesAt(html, BodyClose, j, false) && i + |BodyOpen| <= j
  }

  /**
   * The search finds the leftmost match: with no `<tbody>…</tbody>` pair the
   * whole text is scanned; otherwise the group of the pair that starts at
   * the first `<tbody>` and ends at the first `</tbody>` after it, which
   * therefore holds no `</tbody>` of its own.
   */
  lemma TbodyContentIsLeftmostMatch(html: string)
    ensures (forall i, j :: !BodyMatch(html, i, j)) ==> TbodyContent(html) == html
    ensures (exists i, j :: BodyMatch(html, i, j)) ==>
      exists i, j :: BodyMatch(html, i, j) && TbodyContent(html) == html[i + |BodyOpen|..j]
        && (forall k :: 0 <= k < i ==> !MatchesAt(html, BodyOpen, k, false))
        && !Contains(TbodyContent(html), BodyClose, false)
  {
    TbodyContentWithoutMatch(html);
    TbodyContentWithMatch(html);
  }

  /** Without a `<tbody>…</tbody>` pair the whole text is scanned. */
  lemma TbodyContentWithoutMatch(html: string)
    ensures (forall i, j :: !BodyMatch(html, i, j)) ==> TbodyContent(html) == html
  {
    if Find(html, BodyOpen, 0, false).Some? {
      var i := Find(html, BodyOpen, 0, false).value;
      if Find(html, BodyClose, i + |BodyOpen|, false).Some? {
        var j := Find(html, BodyClose, i + |BodyOpen|, false).value;
        assert MatchesAt(html, BodyOpen, i, false) by { FindSpec(html, BodyOpen, 0, false); }
        assert MatchesAt(html, BodyClose, j, false) by { FindSpec(html, BodyClose, i + |BodyOpen|, false); }
        assert BodyMatch(html, i, j);
      }
    }
  }

  /** With a pair, the group of the pair that starts at the first `<tbody>` and ends at the first `</tbody>` after it. */
  lemma TbodyContentWithMatch(html: string)
    ensures (exists i, j :: BodyMatch(html, i, j)) ==>
      exists i, j :: BodyMatch(html, i, j) && TbodyContent(html) == html[i + |BodyOpen|..j]
        && (forall k :: 0 <= k < i ==> !MatchesAt(html, BodyOpen, k, false))
        && !Contains(TbodyContent(html), BodyClose, false)
  {
    if exists i, j :: BodyMatch(html, i, j) {
      var i0, j0 :| BodyMatch(html, i0, j0);
      assert Find(html, BodyOpen, 0, false).Some? by { FindSpec(html, BodyOpen, 0, false); }
      var i := Find(html, BodyOpen, 0, false).value;
      assert MatchesAt(html, BodyOpen, i, false) && i <= i0 && forall k :: 0 <= k < i ==> !MatchesAt(html, BodyOpen, k, false) by {
        FindSpec(html, BodyOpen, 0, false);
      }
      var from := i + |BodyOpen|;
      assert Find(html, BodyClose, from, false).Some? by { FindSpec(html, BodyClose, from, false); }
      var j := Find(html, BodyClose, from, false).value;
      assert MatchesAt(html, BodyClose, j, false) && from <= j && forall k :: from <= k < j ==> !MatchesAt(html, BodyClose, k, false) by {
        FindSpec(html, BodyClose, from, false);
      }
      var group := html[from..j];
      assert TbodyContent(html) == group;
      assert BodyMatch(html, i, j);
      assert !Contains(group, BodyClose, false) by {
        ContainsIff(group, BodyClose, false);
        forall k | MatchesAt(group, BodyClose, k, false) ensures false {
          MatchesInSlice(html, from, j, BodyClose, k, false);
        }
      }
    }
  }

  /** A field: tags removed, then trimmed; entities are left as they are. */
  function CpuField(raw: string): (r: string)
    ensures |r| <= |raw|
  {
    Strip(StripTags(raw))
  }

  /** What one row contributes: a record when it has at least five `<td>` cells. */
  function CpuRow(row: string): Option<CpuRecord> {
    var cols := FindElements(row, "td", false, 0);
    if |cols| >= 5 then Some(CpuRecord(CpuField(cols[0]), CpuField(cols[1]), CpuField(cols[2]), CpuField(cols[3]), CpuField(cols[4])))
    else None
  }

  /** The loop body for one row: its cells, and a record when there are at least five. */
  method RowRecord(row: string) returns (r: Option<CpuRecord>)
    ensures r == CpuRow(row)
  {
    var cols := FindElements(row, "td", false, 0);
    if |cols| >= 5 {
      r := Some(CpuRecord(CpuField(cols[0]), CpuField(cols[1]), CpuField(cols[2]), CpuField(cols[3]), CpuField(cols[4])));
    } else {
      r := None;
    }
  }

  /** The script's top level, from the document's text to the records written to CSV. */
  method ExtractCpuRecords(htmlContent: string) returns (data: seq<CpuRecord>)
    ensures data == FilterMap(FindElements(TbodyContent(htmlContent), "tr", false, 0), CpuRow)
  {
    var tbodyContent := TbodyContent(htmlContent);
    var rows := FindElements(tbodyContent, "tr", false, 0);
    data := [];
    for i := 0 to |rows|
      invariant data == FilterMap(rows[..i], CpuRow)
    {
      FilterMapPrefix(rows, i, CpuRow);
      var rec := RowRecord(rows[i]);
      if rec.Some? {
        data := data + [rec.value];
      }
    }
    assert rows[..|rows|] == rows;
  }

  /** Records come out in document order: those of two consecutive stretches of rows, one after the other. */
  lemma CpuRecordsInRowOrder(rows1: seq<string>, rows2: seq<string>)
    ensures FilterMap(rows1 + rows2, CpuRow) == FilterMap(rows1, CpuRow) + FilterMap(rows2, CpuRow)
  {
    FilterMapAppend(rows1, rows2, CpuRow);
  }

  /**
   * A row made of `<td>` cells whose texts have no `<` and no surrounding
   * whitespace gives a record exactly when it has at least five cells; the
   * record holds the first five texts as they are, entities included, and
   * cells past the fifth are ignored.
   */
  lemma CpuRowOfCells(xs: seq<string>)
    requires forall k :: 0 <= k < |xs| ==> NoOpen(xs[k])
    requires forall k :: 0 <= k < |xs| ==> xs[k] == [] || (!IsSpace(xs[k][0]) && !IsSpace(xs[k][|xs[k]| - 1]))
    ensures CpuRow(Elements("td", xs))
      == if |xs| >= 5 then Some(CpuRecord(xs[0], xs[1], xs[2], xs[3], xs[4])) else None
  {
    ElementsFound("td", false, xs);
    if |xs| >= 5 {
      forall k | 0 <= k < 5 ensures CpuField(xs[k]) == xs[k] {
        CpuFieldKeepsEntities(xs[k]);
      }
    }
  }

  /** A character-level infix of tag-free text is tag-free. */
  lemma {:induction false} NoTagInfix(s: string, lo: int, hi: int)
    requires 0 <= lo <= hi <= |s| && NoTag(s)
    ensures NoTag(s[lo..hi])
  {
    var t := s[lo..hi];
    forall i | 0 <= i < |t| && t[i] == '<' ensures TagEnd(t[i + 1..]).None? {
      assert s[lo + i] == '<';
      var u := s[lo + i + 1..];
      assert TagEnd(u).None?;
      if TagEnd(t[i + 1..]).Some? {
        var g := TagEnd(t[i + 1..]).value;
        assert t[i + 1..][g] == u[g];
        forall k | 0 <= k < g ensures u[k] != '\n' {
          assert t[i + 1..][k] == u[k];
        }
        assert false;
      }
    }
  }

  /** A field carries no tag and no surrounding whitespace. */
  lemma CpuFieldIsClean(raw: string)
    ensures NoTag(CpuField(raw))
    ensures CpuField(raw) == [] || (!IsSpace(CpuField(raw)[0]) && !IsSpace(CpuField(raw)[|CpuField(raw)| - 1]))
  {
    var t := StripTags(raw);
    StripTagsLeavesNoTag(raw);
    var a := LeadingSpaces(t);
    NoTagInfix(t, a, a + |Strip(t)|);
    assert Strip(t) == t[a..a + |Strip(t)|];
  }

  /** Text with no `<` and no surrounding whitespace is kept as it is, entities included. */
  lemma CpuFieldKeepsEntities(s: string)
    requires forall i :: 0 <= i < |s| ==> s[i] != '<'
    requires s == [] || (!IsSpace(s[0]) && !IsSpace(s[|s| - 1]))
    ensures CpuField(s) == s
  {
    StripTagsFixes(s);
    StripTrimmed(s);
  }
}
