/**
 * The extraction step of the GPU benchmark scraper: locate the table body
 * after the `id="cputable"` anchor, split it into rows on `<tr`, take the
 * `<td>` cells of each row and keep the first five cleaned cells of every
 * row that has at least five.
 */
module GpuScrape {
  import opened Wrappers
  import opened Lists
  import opened Text

  const Anchor: string := "id=\"cputable\""
  const TbodyOpen: string := "<tbody"
  const TbodyClose: string := "</tbody>"

  /** One output line: Videocard Name, Passmark G3D Mark, Rank, Videocard Value, Price (USD). */
  datatype GpuRecord = GpuRecord(name: string, mark: string, rank: string, value: string, price: string)

  /** The three early returns of the scraper, one per failed search. */
  datatype GpuError = AnchorMissing | TbodyMissing | TbodyEndMissing

  /** `clean_cell`: strip tags, trim, then decode `&nbsp;` and, after it, `&amp;`. */
  function CleanCell(raw: string): (r: string)
    ensures |r| <= |raw|
  {
    var t := Strip(StripTags(raw));
    ReplaceShorter(t, "&nbsp;", " ");
    ReplaceShorter(Replace(t, "&nbsp;", " "), "&amp;", "&");
    Replace(Replace(t, "&nbsp;", " "), "&amp;", "&")
  }

  /**
   * The chained searches: the anchor, the first `<tbody` at or after it, the
   * first `</tbody>` at or after that; the result is the slice from the
   * `<tbody` through the end of the closing tag.
   */
  function TableBody(content: string): (r: Result<string, GpuError>)
    ensures r == Err(AnchorMissing) <==> !Contains(content, Anchor, false)
    ensures r.Ok? ==> MatchesAt(r.value, TbodyOpen, 0, false)
    ensures r.Ok? ==> MatchesAt(r.value, TbodyClose, |r.value| - |TbodyClose|, false)
    ensures r.Ok? ==> forall j :: 0 <= j < |r.value| - |TbodyClose| ==> !MatchesAt(r.value, TbodyClose, j, false)
  {
    match Find(content, Anchor, 0, false)
    case None => Err(AnchorMissing)
    case Some(a) =>
      match Find(content, TbodyOpen, a, false)
      case None => Err(TbodyMissing)
      case Some(ts) =>
        match Find(content, TbodyClose, ts, false)
        case None => Err(TbodyEndMissing)
        case Some(te) =>
          FindSpec(content, TbodyOpen, a, false);
          FindSpec(content, TbodyClose, ts, false);
          BodySlice(content, ts, te);
          Ok(content[ts..te + |TbodyClose|])
  }

  /** The slice from a `<tbody` through the first `</tbody>` after it opens and closes the table and closes it only once. */
  lemma BodySlice(content: string, ts: nat, te: nat)
    requires MatchesAt(content, TbodyOpen, ts, false) && MatchesAt(content, TbodyClose, te, false) && ts <= te
    requires forall j :: ts <= j < te ==> !MatchesAt(content, TbodyClose, j, false)
    ensures var body := content[ts..te + |TbodyClose|];
      && MatchesAt(body, TbodyOpen, 0, false)
      && MatchesAt(body, TbodyClose, |body| - |TbodyClose|, false)
      && forall j :: 0 <= j < |body| - |TbodyClose| ==> !MatchesAt(body, TbodyClose, j, false)
  {
    var body := content[ts..te + |TbodyClose|];
    assert |body| - |TbodyClose| == te - ts;
    MatchesIntoSlice(content, ts, te + |TbodyClose|, TbodyOpen, ts, false);
    MatchesIntoSlice(content, ts, te + |TbodyClose|, TbodyClose, te, false);
    forall j | 0 <= j < |body| - |TbodyClose| ensures !MatchesAt(body, TbodyClose, j, false) {
      MatchesInSlice(content, ts, te + |TbodyClose|, TbodyClose, j, false);
    }
  }

  /** A chain of anchor, then `<tbody`, then `</tbody>`, each at or after the previous one. */
  predicate HasChain(content: string, a: int, ts: int, te: int) {
    && MatchesAt(content, Anchor, a, false)
    && MatchesAt(content, TbodyOpen, ts, false)
    && MatchesAt(content, TbodyClose, te, false)
    && a <= ts <= te
  }

  /** The scraper stops with an error exactly when the content holds no such chain. */
  lemma TableBodyFailsIffNoChain(content: string)
    ensures TableBody(content).Err? <==> forall a, ts, te :: !HasChain(content, a, ts, te)
  {
    var fa := Find(content, Anchor, 0, false);
    FindSpec(content, Anchor, 0, false);
    if fa.Some? {
      var ft := Find(content, TbodyOpen, fa.value, false);
      FindSpec(content, TbodyOpen, fa.value, false);
      if ft.Some? {
        var fe := Find(content, TbodyClose, ft.value, false);
        FindSpec(content, TbodyClose, ft.value, false);
        if fe.Some? {
          assert HasChain(content, fa.value, ft.value, fe.value);
        } else {
          forall a, ts, te | HasChain(content, a, ts, te) ensures false {
          }
        }
      } else {
        forall a, ts, te | HasChain(content, a, ts, te) ensures false {
        }
      }
    }
  }

  /**
   * `a` is the first anchor, `ts` the first `<tbody` at or after it, and
   * `te` the first `</tbody>` at or after that.
   */
  predicate FirstChain(content: string, a: nat, ts: nat, te: nat) {
    && MatchesAt(content, Anchor, a, false) && (forall j :: 0 <= j < a ==> !MatchesAt(content, Anchor, j, false))
    && a <= ts && MatchesAt(content, TbodyOpen, ts, false)
    && (forall j :: a <= j < ts ==> !MatchesAt(content, TbodyOpen, j, false))
    && ts <= te && MatchesAt(content, TbodyClose, te, false)
    && (forall j :: ts <= j < te ==> !MatchesAt(content, TbodyClose, j, false))
  }

  /** The body is the slice from the `<tbody` of the first chain through the end of its `</tbody>`. */
  lemma TableBodyIsFirstChain(content: string, a: nat, ts: nat, te: nat)
    requires FirstChain(content, a, ts, te)
    ensures TableBody(content) == Ok(content[ts..te + |TbodyClose|])
  {
    FindExactly(content, Anchor, 0, a, false);
    FindExactly(content, TbodyOpen, a, ts, false);
    FindExactly(content, TbodyClose, ts, te, false);
  }

  /** Conversely, every body found is the slice of a first chain. */
  lemma TableBodyHasFirstChain(content: string)
    ensures TableBody(content).Ok? ==>
      exists a: nat, ts: nat, te: nat :: FirstChain(content, a, ts, te) && te + |TbodyClose| <= |content|
        && TableBody(content).value == content[ts..te + |TbodyClose|]
  {
    if TableBody(content).Ok? {
      var a := Find(content, Anchor, 0, false).value;
      var ts := Find(content, TbodyOpen, a, false).value;
      var te := Find(content, TbodyClose, ts, false).value;
      FindSpec(content, Anchor, 0, false);
      FindSpec(content, TbodyOpen, a, false);
      FindSpec(content, TbodyClose, ts, false);
      assert FirstChain(content, a, ts, te);
    }
  }

  /** What one `<tr` fragment contributes: a record when it has `<td` and at least five cells. */
  function GpuRow(rowHtml: string): Option<GpuRecord> {
    if !Contains(rowHtml, "<td", false) then None
    else
      var cols := FindElements(rowHtml, "td", true, 0);
      if |cols| >= 5 then Some(GpuRecord(CleanCell(cols[0]), CleanCell(cols[1]), CleanCell(cols[2]), CleanCell(cols[3]), CleanCell(cols[4])))
      else None
  }

  /** `scrape_gpu_benchmark_robust` on the file's text, up to the list written to CSV. */
  method ScrapeGpuBenchmarkRobust(content: string) returns (r: Result<seq<GpuRecord>, GpuError>)
    ensures TableBody(content).Err? ==> r == Err(TableBody(content).error)
    ensures TableBody(content).Ok? ==> r == Ok(FilterMap(Split(TableBody(content).value, "<tr"), GpuRow))
  {
    var startIdx := Find(content, Anchor, 0, false);
    if startIdx.None? {
      assert TableBody(content) == Err(AnchorMissing);
      return Err(AnchorMissing);
    }
    var tbodyStart := Find(content, TbodyOpen, startIdx.value, false);
    if tbodyStart.None? {
      assert TableBody(content) == Err(TbodyMissing);
      return Err(TbodyMissing);
    }
    var tbodyEnd := Find(content, TbodyClose, tbodyStart.value, false);
    if tbodyEnd.None? {
      assert TableBody(content) == Err(TbodyEndMissing);
      return Err(TbodyEndMissing);
    }
    var tbodyContent := content[tbodyStart.value..tbodyEnd.value + 8];
    assert TableBody(content) == Ok(tbodyContent);
    var rowsRaw := Split(tbodyContent, "<tr");
    var data: seq<GpuRecord> := [];
    for i := 0 to |rowsRaw|
      invariant data == FilterMap(rowsRaw[..i], GpuRow)
    {
      FilterMapPrefix(rowsRaw, i, GpuRow);
      var rec := RowRecord(rowsRaw[i]);
      if rec.Some? {
        data := data + [rec.value];
      }
    }
    assert rowsRaw[..|rowsRaw|] == rowsRaw;
    return Ok(data);
  }

  /** The loop body for one fragment: skipped without `<td`, otherwise its cells, and a record when there are at least five. */
  method RowRecord(rowHtml: string) returns (r: Option<GpuRecord>)
    ensures r == GpuRow(rowHtml)
  {
    if !Contains(rowHtml, "<td", false) {
      return None;
    }
    var cols := FindElements(rowHtml, "td", true, 0);
    if |cols| >= 5 {
      var name := CleanCell(cols[0]);
      var mark := CleanCell(cols[1]);
      var rank := CleanCell(cols[2]);
      var value := CleanCell(cols[3]);
      var price := CleanCell(cols[4]);
      r := Some(GpuRecord(name, mark, rank, value, price));
    } else {
      r := None;
    }
  }

  /** Records come out in table order: the records of two consecutive stretches of rows, one after the other. */
  lemma GpuRecordsInRowOrder(rows1: seq<string>, rows2: seq<string>)
    ensures FilterMap(rows1 + rows2, GpuRow) == FilterMap(rows1, GpuRow) + FilterMap(rows2, GpuRow)
  {
    FilterMapAppend(rows1, rows2, GpuRow);
  }

  /** Cell text that `clean_cell` leaves alone: no `<`, no `&`, no whitespace at either end. */
  predicate PlainCell(x: string) {
    NoOpen(x) && (forall k :: 0 <= k < |x| ==> x[k] != '&')
    && (x == [] || (!IsSpace(x[0]) && !IsSpace(x[|x| - 1])))
  }

  /**
   * A row made of `<td>` cells with plain texts gives a record exactly when
   * it has at least five cells, and the record holds the first five texts;
   * cells past the fifth are ignored.
   */
  lemma GpuRowOfCells(xs: seq<string>)
    requires forall k :: 0 <= k < |xs| ==> PlainCell(xs[k])
    ensures GpuRow(Elements("td", xs))
      == if |xs| >= 5 then Some(GpuRecord(xs[0], xs[1], xs[2], xs[3], xs[4])) else None
  {
    if xs == [] {
      assert !Contains(Elements("td", xs), "<td", false);
    } else {
      RowOpensCell(xs);
      assert forall k :: 0 <= k < |xs| ==> NoOpen(xs[k]);
      ElementsFound("td", true, xs);
      if |xs| >= 5 {
        forall k | 0 <= k < 5 ensures CleanCell(xs[k]) == xs[k] {
          PlainCellClean(xs[k]);
        }
      }
    }
  }

  /** A row that starts with a `<td>` cell contains `<td`. */
  lemma RowOpensCell(xs: seq<string>)
    requires xs != []
    ensures Contains(Elements("td", xs), "<td", false)
  {
    var s := Elements("td", xs);
    assert s[..|Element("td", xs[0])|] == Element("td", xs[0]);
    assert MatchesAt(s, "<td", 0, false) by {
      forall i | 0 <= i < 3 ensures CharMatches(s[0 + i], "<td"[i], false) {
        assert s[..|Element("td", xs[0])|][i] == s[i];
        assert Element("td", xs[0])[i] == "<td"[i];
      }
    }
    FindSpec(s, "<td", 0, false);
  }

  /** A plain cell passes `clean_cell` unchanged. */
  lemma PlainCellClean(x: string)
    requires PlainCell(x)
    ensures CleanCell(x) == x
  {
    NoAmpNoEntity(x, "&nbsp;");
    NoAmpNoEntity(x, "&amp;");
    CleanCellPlain(x);
  }

  /** Text without `&` holds no entity. */
  lemma NoAmpNoEntity(x: string, entity: string)
    requires |entity| > 0 && entity[0] == '&'
    requires forall k :: 0 <= k < |x| ==> x[k] != '&'
    ensures !Contains(x, entity, false)
  {
    ContainsIff(x, entity, false);
  }

  /** Text that is already clean (no `<`, no surrounding whitespace, no entity) passes through unchanged. */
  lemma CleanCellPlain(s: string)
    requires forall i :: 0 <= i < |s| ==> s[i] != '<'
    requires s == [] || (!IsSpace(s[0]) && !IsSpace(s[|s| - 1]))
    requires !Contains(s, "&nbsp;", false) && !Contains(s, "&amp;", false)
    ensures CleanCell(s) == s
  {
    StripTagsFixes(s);
    StripTrimmed(s);
  }

  /** `clean_cell` in its three steps: tag removal and trimming, then the two decodings. */
  lemma CleanCellSteps(raw: string, t: string, u: string, v: string)
    requires Strip(StripTags(raw)) == t
    requires Replace(t, "&nbsp;", " ") == u && Replace(u, "&amp;", "&") == v
    ensures CleanCell(raw) == v
  {
  }

  /** The two entities hold no `<`, are not padded with whitespace, and start with their only `&`. */
  lemma EntityShapes()
    ensures Avoids("&amp;", '<') && Avoids("&nbsp;", '<') && Avoids(" ", '&') && Avoids(" ", '<')
    ensures Avoids("&amp;"[1..], '&') && Avoids("&nbsp;"[1..], '&')
    ensures !IsSpace('&') && !IsSpace(';')
  {
    assert "&amp;"[1..] == "amp;" && "&nbsp;"[1..] == "nbsp;";
  }

  /** Plain cells avoid both `<` and `&`. */
  lemma PlainPieces(xs: seq<string>)
    requires forall k :: 0 <= k < |xs| ==> PlainCell(xs[k])
    ensures forall k :: 0 <= k < |xs| ==> Avoids(xs[k], '<') && Avoids(xs[k], '&')
  {
  }

  /** Plain texts joined by an entity lose no character to tag removal or trimming. */
  lemma JoinedCellKept(xs: seq<string>, entity: string)
    requires forall k :: 0 <= k < |xs| ==> PlainCell(xs[k])
    requires entity == "&amp;" || entity == "&nbsp;"
    ensures Strip(StripTags(Join(xs, entity))) == Join(xs, entity)
  {
    EntityShapes();
    PlainPieces(xs);
    JoinAvoids(xs, entity, '<');
    JoinTrimmed(xs, entity);
    CleanCellPlainPrefix(Join(xs, entity));
  }

  /** Plain texts joined by `&amp;` hold no `&nbsp;`, so its decoding leaves them alone. */
  lemma NoNbspAmongAmps(xs: seq<string>)
    requires forall k :: 0 <= k < |xs| ==> PlainCell(xs[k])
    ensures !Contains(Join(xs, "&amp;"), "&nbsp;", false)
    ensures Replace(Join(xs, "&amp;"), "&nbsp;", " ") == Join(xs, "&amp;")
  {
    var s := Join(xs, "&amp;");
    EntityShapes();
    PlainPieces(xs);
    JoinSepFollowed(xs, "&amp;");
    forall j | 0 <= j < |s| ensures !MatchesAt(s, "&nbsp;", j, false) {
      if s[j] == '&' {
        assert !CharMatches(s[j + 1], "&nbsp;"[1], false);
      } else {
        assert !CharMatches(s[j + 0], "&nbsp;"[0], false);
      }
    }
    ContainsIff(s, "&nbsp;", false);
  }

  /** Decoding `&amp;` in plain texts joined by it joins them by `&`. */
  lemma AmpsDecoded(xs: seq<string>)
    requires forall k :: 0 <= k < |xs| ==> PlainCell(xs[k])
    ensures Replace(Join(xs, "&amp;"), "&amp;", "&") == Join(xs, "&")
  {
    EntityShapes();
    PlainPieces(xs);
    ReplaceJoin(xs, "&amp;", "&");
  }

  /** The three steps of `clean_cell` on plain texts joined by `&amp;`: only the second decoding changes them. */
  lemma AmpJoinedSteps(xs: seq<string>)
    requires forall k :: 0 <= k < |xs| ==> PlainCell(xs[k])
    ensures var s := Join(xs, "&amp;");
      Strip(StripTags(s)) == s && Replace(s, "&nbsp;", " ") == s && Replace(s, "&amp;", "&") == Join(xs, "&")
  {
    JoinedCellKept(xs, "&amp;");
    NoNbspAmongAmps(xs);
    AmpsDecoded(xs);
  }

  /** The three steps of `clean_cell` on plain texts joined by `&nbsp;`: only the first decoding changes them. */
  lemma NbspJoinedSteps(xs: seq<string>)
    requires forall k :: 0 <= k < |xs| ==> PlainCell(xs[k])
    ensures var s, u := Join(xs, "&nbsp;"), Join(xs, " ");
      Strip(StripTags(s)) == s && Replace(s, "&nbsp;", " ") == u && Replace(u, "&amp;", "&") == u
  {
    JoinedCellKept(xs, "&nbsp;");
    EntityShapes();
    PlainPieces(xs);
    ReplaceJoin(xs, "&nbsp;", " ");
    JoinAvoids(xs, " ", '&');
    NoAmpNoEntity(Join(xs, " "), "&amp;");
  }

  /** Plain texts joined by `&amp;` come out joined by `&`: every escaped ampersand is decoded, not only the first. */
  lemma CleanCellDecodesAmp(xs: seq<string>)
    requires forall k :: 0 <= k < |xs| ==> PlainCell(xs[k])
    ensures CleanCell(Join(xs, "&amp;")) == Join(xs, "&")
  {
    var s := Join(xs, "&amp;");
    AmpJoinedSteps(xs);
    CleanCellSteps(s, s, s, Join(xs, "&"));
  }

  /** Plain texts joined by `&nbsp;` come out joined by spaces, every one of them decoded. */
  lemma CleanCellDecodesNbsp(xs: seq<string>)
    requires forall k :: 0 <= k < |xs| ==> PlainCell(xs[k])
    ensures CleanCell(Join(xs, "&nbsp;")) == Join(xs, " ")
  {
    var s, u := Join(xs, "&nbsp;"), Join(xs, " ");
    NbspJoinedSteps(xs);
    CleanCellSteps(s, s, u, u);
  }

  /** Both escaped ampersands of `A&amp;B&amp;C` are decoded. */
  lemma CleanCellDecodesEveryAmp()
    ensures CleanCell("A&amp;B&amp;C") == "A&B&C"
  {
    var xs := ["A", "B", "C"];
    assert Join(xs[2..], "&amp;") == "C" && Join(xs[2..], "&") == "C";
    assert Join(xs[1..], "&amp;") == "B&amp;C" && Join(xs[1..], "&") == "B&C";
    assert Join(xs, "&amp;") == "A&amp;B&amp;C" && Join(xs, "&") == "A&B&C";
    CleanCellDecodesAmp(xs);
  }

  /** A cell wrapped in one element, as a link `<a href="…">GeForce</a>` is, comes out as its plain text. */
  lemma CleanCellUnwraps(a: string, x: string, b: string)
    requires Avoids(a, '>') && Avoids(a, '\n') && Avoids(b, '>') && Avoids(b, '\n')
    requires PlainCell(x)
    ensures CleanCell("<" + a + ">" + x + "</" + b + ">") == x
  {
    var raw := "<" + a + ">" + x + "</" + b + ">";
    assert StripTags(raw) == x by {
      PlainPieces([x]);
      StripTagsUnwraps(a, x, b);
    }
    assert Strip(x) == x by { StripTrimmed(x); }
    assert Replace(x, "&nbsp;", " ") == x && Replace(x, "&amp;", "&") == x by {
      NoAmpNoEntity(x, "&nbsp;");
      NoAmpNoEntity(x, "&amp;");
    }
    CleanCellSteps(raw, x, x, x);
  }

  /** A linked name loses its link, not its text, as a greedy `<.*>` would make it do. */
  lemma CleanCellLinkedName()
    ensures CleanCell("<a href=\"x\">GeForce</a>") == "GeForce"
  {
    assert "<a href=\"x\">GeForce</a>" == "<" + "a href=\"x\"" + ">" + "GeForce" + "</" + "a" + ">";
    CleanCellUnwraps("a href=\"x\"", "GeForce", "a");
  }

  /** `&amp;` is decoded after `&nbsp;`, so an escaped `&amp;nbsp;` comes out as the text `&nbsp;`. */
  lemma CleanCellDecodesAmpLast()
    ensures CleanCell("&amp;nbsp;") == "&nbsp;"
  {
    CleanCellPlainPrefix("&amp;nbsp;");
    NbspAbsentFromEscaped();
    AmpDecodedInEscaped();
  }

  /** The first decoding finds no `&nbsp;` in `&amp;nbsp;`. */
  lemma NbspAbsentFromEscaped()
    ensures Replace("&amp;nbsp;", "&nbsp;", " ") == "&amp;nbsp;"
  {
    var xs := ["", "nbsp;"];
    assert Join(xs, "&amp;") == "&amp;nbsp;";
    NoNbspAmongAmps(xs);
  }

  /** The second decoding turns the leading `&amp;` of `&amp;nbsp;` into `&`. */
  lemma AmpDecodedInEscaped()
    ensures Replace("&amp;nbsp;", "&amp;", "&") == "&nbsp;"
  {
    var xs := ["", "nbsp;"];
    assert Join(xs, "&amp;") == "&amp;nbsp;" && Join(xs, "&") == "&nbsp;";
    AmpsDecoded(xs);
  }

  /** Stripping tags and whitespace leaves text with no `<` and no surrounding whitespace as it is. */
  lemma CleanCellPlainPrefix(s: string)
    requires forall i :: 0 <= i < |s| ==> s[i] != '<'
    requires s == [] || (!IsSpace(s[0]) && !IsSpace(s[|s| - 1]))
    ensures Strip(StripTags(s)) == s
  {
    StripTagsFixes(s);
    StripTrimmed(s);
  }
}
