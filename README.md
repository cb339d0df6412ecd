# Laptop expert system: a Dafny model

This project models the core of a rule-based laptop recommender. It is the
`SistemPakarLaptop` class of `expertsystem.py`:

- a rule table of four usage categories;
- a catalog loader that renames, de-duplicates and coerces the columns of a
  CSV table;
- an advisory budget check;
- an explanation builder;
- `rekomendasi`, which filters the catalog by a converted budget and by the
  category's minimums, scores the remaining laptops by simple additive
  weighting (SAW), sorts them and returns the first twenty.

It also models the two HTML extractors under `progress/`. They pull the
PassMark GPU and CPU benchmark tables out of saved web pages.

The project is laid out by module:

- `wrappers.dfy`: `Wrappers` (Option, Result) and `Lists` (an order-keeping
  partial map, used for the extractors' append loops).
- `text.dfy`: `Text`. It holds `str.find`, `str.split`, `str.replace`,
  `str.strip`, the tag remover `re.sub(r'<.*?>', '', …)` and the element
  scanner for `<tag[^>]*>(.*?)</tag>`, all written as scanners.
- `gpu_scrap.dfy`: `GpuScrape`, for `scrape_gpu_benchmark_robust` and
  `clean_cell`.
- `cpu_scrap.dfy`: `CpuScrape`, for the top-level extraction loop of
  `cpu_scarp.py`.
- `rules.dfy`: `RuleBase`, with the rule table, the category descriptions,
  the budget floors and `_reality_check`.
- `catalog.dfy`: `Catalog`, for the DataFrame as columns, the alias table,
  de-duplication, the price fallback and the coercion loop of
  `_load_and_clean_data`.
- `explain.dfy`: `Explain`, for `_generate_explanation` with the explanation
  as tagged parts.
- `ranking.dfy`: `Ranking`, for `sort_values` and `head`.
- `engine.dfy`: `Engine`, for the `rekomendasi` pipeline as a function, with
  its scoring and sorting stage as a loop.
- `engine_facts.dfy`: `EngineFacts`, for what `rekomendasi` promises.
- `expert.dfy`: `Expert`, for the `SistemPakarLaptop` object: the
  constructor and the `rekomendasi` method that reads its fields.

Prices, the 166.9 conversion factor and scores are `real`s. A pandas
DataFrame is a list of named columns, each numeric (`Option<real>` cells) or
text (`Option<string>` cells). `None` stands for NaN. The `object` dtype
check of the loader is the text case. Reading the CSV is a parameter: `None`
when `pd.read_csv` raised, otherwise the table it produced. Each HTML
extractor takes the file's text as a string.

A few points of the code are easy to misread:

- The score has CPU, GPU and RAM terms only. `w_storage` is defined in every
  rule and never used by the score.
- `sort_values` is called with its default algorithm, which is not stable.
  The order of laptops with equal keys is therefore not fixed.
- The explanation always lists the screen score, whatever the profile's
  weights.
- `expertsystem.py` has no search, brand filter, refresh rate, sort mode or
  pagination.
- A CSV that already has a `Harga` column counts as having a price
  (`Catalog.PrepareFailsIff`).

## Model

| member | source | states |
|---|---|---|
| RuleBase.Rules | expertsystem.py:14-35 | exactly the four categories; all minimums and weights are non-negative; the four weights of every rule sum to 1.0 |
| RuleBase.Description | expertsystem.py:15-33 | every category has a non-empty description, and no other name has one |
| RuleBase.GpuDemandingRules | expertsystem.py:14-35 | a rule has a GPU minimum exactly for `DESAIN_VIDEO` and `GAMING_BERAT` |
| RuleBase.BudgetFloor | expertsystem.py:93-99 | the floor is 0 for an unknown category and at least 2,000,000 for a known one |
| RuleBase.RealityCheck | expertsystem.py:92-102 | the verdict is "too low" exactly when the budget is under the category's floor; it then carries the budget, the category and the floor |
| RuleBase.RealityCheckMonotone | expertsystem.py:99-102 | raising a budget never turns a valid verdict into "too low" |
| RuleBase.UnknownCategoryNeverLow | expertsystem.py:99 | for an unknown category, no budget that is not negative is too low |
| Catalog.Column.Renamed | expertsystem.py:59 | a renamed column has the new name, the same kind, the same values and so the same height |
| Catalog.IndexOf | expertsystem.py:73 | the first column with the name, and none exactly when no column has it |
| Catalog.RenameKnown | expertsystem.py:43-59 | every column named in the alias table takes its canonical name; the others keep theirs; values are unchanged |
| Catalog.DropDuplicates | expertsystem.py:61 | the kept names are distinct; they are exactly the names of the input; each kept column is the first input column with its name |
| Catalog.DropDuplicatesOrder | expertsystem.py:61 | the kept columns stay in the order in which their names first occur in the input |
| Catalog.OrderAfterSeen | expertsystem.py:61 | appending a column does not reorder the kept columns |
| Catalog.OrderAfterNew | expertsystem.py:61 | a column with a new name, kept at the end, comes after every kept column in first-occurrence order |
| Catalog.DropSeen | expertsystem.py:61 | a column whose name already occurred is dropped without moving what was kept |
| Catalog.DropNew | expertsystem.py:61 | a column with a new name is kept, at the end |
| Catalog.IndexOfPrefix | expertsystem.py:61 | appending a column does not change where a name already present is first found |
| Catalog.RenameColumn | expertsystem.py:65 | the `Price` column is renamed `Harga` in place; other columns are untouched |
| Catalog.Prepare | expertsystem.py:58-68 | when loading goes on, the prepared columns have distinct names and include `Harga` |
| Catalog.PriceRenamed | expertsystem.py:63-65 | renaming `Price` to `Harga` in columns with distinct names and no `Harga` gives distinct names that include `Harga` |
| Catalog.AliasOfPrice | expertsystem.py:44 | the alias table sends exactly `Harga_USD` and `Harga` to `Harga`, and only `Price` to `Price` |
| Catalog.PrepareFailsIff | expertsystem.py:63-68 | loading gives up exactly when no CSV column is called `Harga_USD`, `Harga` or `Price` |
| Catalog.PrepareValid | expertsystem.py:58-65 | renaming, de-duplication and the fallback keep every column as tall as the table |
| Catalog.KeepDigitsDots | expertsystem.py:81 | the result holds only digits and dots and is no longer than the text |
| Catalog.KeepDigitsDotsAppend | expertsystem.py:81 | the filter works character by character: it distributes over concatenation, and keeps a single character exactly when it is a digit or a dot |
| Catalog.KeepDigitsDotsFixes | expertsystem.py:81 | text made only of digits and dots is kept whole |
| Catalog.NoDigitKept | expertsystem.py:81 | text without digits is reduced to dots only |
| Catalog.ParseDecimal | expertsystem.py:83 | the parsed value is never negative (unparseable text gives 0) |
| Catalog.DigitsValueAppend | expertsystem.py:83 | the value of two digit strings written one after the other is the first scaled by ten to the length of the second, plus the second |
| Catalog.ParseDecimalWhole | expertsystem.py:83 | a non-empty run of digits parses as the whole number it spells |
| Catalog.ParseDecimalFraction | expertsystem.py:83 | `w.f` with digit strings `w` and `f`, not both empty, parses as the value of `wf` divided by ten to the length of `f` |
| Catalog.CoerceText | expertsystem.py:80-83 | a text cell's number is never negative |
| Catalog.CoerceTextValue | expertsystem.py:80-83 | a cell whose digits and dots are a run of digits becomes that whole number, and one whose digits and dots are `w.f` becomes the value of `wf` divided by ten to the length of `f` |
| Catalog.Coerce | expertsystem.py:77-83 | a numeric column keeps its values with NaN as 0; a text column has each cell reduced and parsed; the height is kept |
| Catalog.CoerceNatText | expertsystem.py:81-83 | a cell holding the decimal digits of a whole number becomes that number |
| Catalog.CoerceNan | expertsystem.py:81-83 | a NaN text cell (the string `nan`) becomes 0 |
| Catalog.CoerceNoDigit | expertsystem.py:81-83 | a cell with no digit becomes 0 |
| Catalog.TwoDotsUnparseable | expertsystem.py:83 | two digit runs each followed by a dot, then any text, are unparseable and become 0; so every text with two or more dots, such as `1.2.3.4`, becomes 0 |
| Catalog.CoercePriceText | expertsystem.py:81-83 | `$1,299` becomes 1299 |
| Catalog.ZeroColumn | expertsystem.py:74 | a missing numeric column becomes a numeric column of zeros, as tall as the table |
| Catalog.CleanedColumn | expertsystem.py:70-83 | coercion keeps each column's name and height |
| Catalog.Missing | expertsystem.py:73 | the numeric names that no column carries |
| Catalog.LoadAndCleanData | expertsystem.py:37-90 | a read failure or a table without a price column gives the empty table; otherwise the prepared columns, coerced one numeric name at a time, followed by zero columns for the missing names; the result always satisfies `Loaded` |
| Catalog.CleanedFrame | expertsystem.py:70-86 | the cleaned table has the rows of the read and the prepared column names followed by the names of the zero columns added for missing numeric names |
| Catalog.CoerceColumn | expertsystem.py:72-83 | one loop turn: the named column is coerced in place, or a zero column is appended when there is none |
| Catalog.CoerceStep | expertsystem.py:72-83 | each loop turn keeps the loop invariant `Coerced` for one more name |
| Catalog.CoerceAbsent | expertsystem.py:73-75 | a turn for an absent name appends its zero column and keeps the invariant |
| Catalog.FoundIsPrepared | expertsystem.py:72-78 | the column a turn finds is a prepared column not touched yet |
| Catalog.CoercePresent | expertsystem.py:77-83 | a turn for a present name rewrites that column and keeps the invariant |
| Catalog.RewritePrepared | expertsystem.py:83 | rewriting one prepared column in place keeps the other columns and the zero columns |
| Catalog.LoadFinished | expertsystem.py:72-86 | after all six names the columns are those of the cleaned table |
| Catalog.NumericNamesDistinct | expertsystem.py:70 | the six numeric names are distinct |
| Catalog.LoadedColumn | expertsystem.py:70-83 | after loading, each numeric column is numeric: the coerced CSV column of that name, or all zeros when the CSV has none |
| Catalog.LoadKeepsOthers | expertsystem.py:72-83 | columns with other names pass through loading untouched |
| Catalog.CleanedFrameLoaded | expertsystem.py:70-86 | the cleaned table is rectangular and all six numeric columns are present, numeric and without NaN |
| Catalog.LoadedNumbers | expertsystem.py:70-83 | a loaded table that is not the empty one has each of the six numeric columns |
| Catalog.NumAt | expertsystem.py:83 | the value read from a loaded numeric column is the stored number |
| Explain.Trunc | expertsystem.py:112-130 | Python's `int()` on a float: the integer part, rounded toward zero |
| Explain.GenerateExplanation | expertsystem.py:104-133 | the reasons appended one by one equal the explanation function `Explained` |
| Explain.ExplanationParts | expertsystem.py:108-130 | CPU with its minimum comes first, then screen, then RAM last; a GPU part comes between them exactly when the rule has a GPU minimum (then shown with it) or the truncated GPU score is positive |
| Explain.WeakGpuNotMentioned | expertsystem.py:117-123 | a GPU score under 1 is not mentioned by a rule without a GPU minimum |
| Explain.GpuMinimumShown | expertsystem.py:118-121 | the two GPU-demanding categories always show the GPU minimum |
| Ranking.Insert | expertsystem.py:179-181 | insertion into a sorted list keeps it sorted and adds exactly the new candidate |
| Ranking.SortBy | expertsystem.py:179-181 | `sort_values`: the result is ordered by the key and is a permutation of the input |
| Ranking.Head | expertsystem.py:183 | `head(n)`: the first n elements, or all of them when there are fewer |
| Ranking.HeadIsBest | expertsystem.py:183 | in a sorted list, nothing left out of the head sorts before anything kept |
| Ranking.HeadSorted | expertsystem.py:183 | the head of a sorted list is sorted |
| Ranking.LeftOutNoBetter | expertsystem.py:179-183 | a candidate not in the head sorts no earlier than any candidate in it |
| Engine.LaptopAt | expertsystem.py:144 | row i of the catalog keeps index label i |
| Engine.Catalogue | expertsystem.py:144 | every catalog row, in index order |
| Engine.WithinBudget | expertsystem.py:144 | the laptops priced at most the limit are exactly the members of the result, which is no longer than the input |
| Engine.WithinBudgetCount | expertsystem.py:144 | the boolean mask keeps each affordable laptop as often as it occurs and drops every other one |
| Engine.WithinBudgetAppend | expertsystem.py:144 | filtering two stretches of rows gives the two filtered stretches one after the other |
| Engine.WithinBudgetOrder | expertsystem.py:144 | rows in index order stay in index order |
| Engine.MeetingRule | expertsystem.py:151-155 | the laptops meeting all three minimums (inclusive) are exactly the members of the result, which is no longer than the input |
| Engine.MeetingRuleCount | expertsystem.py:151-155 | the mask keeps each laptop that meets the rule as often as it occurs and drops every other one |
| Engine.MeetingRuleAppend | expertsystem.py:151-155 | filtering two stretches of rows gives the two filtered stretches one after the other |
| Engine.MeetingRuleOrder | expertsystem.py:151-155 | rows in index order stay in index order |
| Engine.BudgetLimit | expertsystem.py:142 | the dollar limit times the conversion factor is the rupiah budget plus 10% |
| Engine.Pool | expertsystem.py:142-155 | the pool is in index order, and a laptop is in it exactly when it is the catalog row its index names, is priced within the limit and meets the rule |
| Engine.MaxOfIsMaximum | expertsystem.py:161-163 | `Engine.MaxOf`, the column maximum, bounds every value of the pool and is one of them |
| Engine.Divisor | expertsystem.py:161-163 | `maximum or 1` is never zero and is the maximum when that is not zero |
| Engine.ScoreRow | expertsystem.py:165-176 | one row's computed score, explanation and rupiah estimate are those of `Scored` |
| Engine.ScoreAndSort | expertsystem.py:160-181 | filling the three columns row by row and sorting gives `Ranked` |
| Engine.Candidates | expertsystem.py:165-176 | every pool laptop with its score, explanation and estimate, in pool order |
| Engine.Ranked | expertsystem.py:178-181 | ordered by score descending, or by estimate ascending for `ADMIN_PELAJAR`, and a permutation of the scored pool |
| Engine.CandidatesPrefix | expertsystem.py:165-176 | the scored prefix grows by the next laptop's candidate |
| Engine.PoolFromCatalogue | expertsystem.py:144-155 | a pool laptop is the catalog row its index names, within budget and meeting the rule |
| Engine.RankedGenuine | expertsystem.py:165-181 | a ranked candidate is a pool laptop with the score, explanation and estimate computed for it |
| Engine.HeadWithin | expertsystem.py:183 | the elements of a head belong to the list |
| Engine.RankedFromCatalogue | expertsystem.py:144-183 | every candidate that can reach the table names a catalog row |
| Engine.Select | expertsystem.py:183 | an output row keeps the candidate's index, estimate, explanation, RAM and storage |
| Engine.Rows | expertsystem.py:183 | one selected row per candidate of the head, in order |
| Expert.SistemPakarLaptop.constructor | expertsystem.py:5-35 | the catalog is what the loader produces from the read and the rules are the rule table |
| Expert.SistemPakarLaptop.Rekomendasi | expertsystem.py:135-183 | the outcome equals the pipeline function `Recommend`, whatever the advisory check says; the advisory notice appears exactly when the catalog is non-empty, the category is known and the budget is under its floor, and it is that check's verdict |
| EngineFacts.WithinBudgetEmptyIff | expertsystem.py:142-147 | the budget filter finds nothing exactly when no row is affordable |
| EngineFacts.PoolEmptyIff | expertsystem.py:150-158 | the pool is empty exactly when no row is both affordable and meets the rule |
| EngineFacts.RecommendFailures | expertsystem.py:135-158 | `Engine.Recommend`: each of the five outcomes that are not a table holds exactly under its own condition: empty catalog, unknown category, nothing affordable, nothing meeting the rule, a missing output column |
| EngineFacts.TopGenuine | expertsystem.py:178-183 | the kept head is in the category's order, and each candidate is the scored catalog row it names, taken from the pool |
| EngineFacts.RecommendTable | expertsystem.py:135-183 | a table comes only past every check, and it shows the head of the ranked pool |
| EngineFacts.RecommendRows | expertsystem.py:142-183 | every returned row names a catalog row within the converted budget that meets the three minimums, and shows that row's estimate, explanation, RAM and storage |
| EngineFacts.RecommendSize | expertsystem.py:183 | the table has twenty rows, or the whole pool when it is smaller |
| EngineFacts.PoolCount | expertsystem.py:144-155 | the pool has exactly as many laptops as there are catalog rows that are affordable and meet the rule |
| EngineFacts.PrefixPoolCount | expertsystem.py:144-155 | filtering the first n catalog rows keeps as many as qualify among them |
| EngineFacts.RecommendIndices | expertsystem.py:183 | row k of the table names the catalog row of the k-th candidate of the head and carries its estimate; that catalog row's score is the candidate's score |
| EngineFacts.TopOrdered | expertsystem.py:178-181 | the head is by estimate ascending for `ADMIN_PELAJAR` and by score descending otherwise |
| EngineFacts.RecommendOrdered | expertsystem.py:178-183 | the table is ordered by rupiah estimate ascending for `ADMIN_PELAJAR` and by score descending otherwise |
| EngineFacts.RecommendKeepsBest | expertsystem.py:178-183 | a qualifying laptop missing from the table is no cheaper (`ADMIN_PELAJAR`) or scores no higher (otherwise) than every row shown |
| EngineFacts.NotInTop | expertsystem.py:183 | a laptop with no row in the table is named by no candidate of the head |
| EngineFacts.RankedKeepsBest | expertsystem.py:178-183 | for any pool, the candidate of a laptop left out of the head sorts no earlier than anything in it |
| EngineFacts.PoolCandidateRanked | expertsystem.py:165-181 | every pool laptop's candidate is among the ranked ones |
| EngineFacts.RatioTerm | expertsystem.py:161-169 | a term `(value / maximum) * weight` with 0 ≤ value ≤ maximum lies between 0 and the weight |
| EngineFacts.ScoreBounded | expertsystem.py:150-169 | `Engine.Score`, the SAW sum: in a pool meeting a rule with non-negative minimums and weights, a score lies between 0 and `w_cpu + w_gpu + w_ram` |
| EngineFacts.PoolScoreBounded | expertsystem.py:150-169 | every laptop of a category's pool scores between 0 and the sum of the rule's CPU, GPU and RAM weights |
| EngineFacts.ScoreIgnoresStorage | expertsystem.py:165-169 | the score does not depend on `w_storage` |
| Text.Find | progress/gpu_scrap.py:21-35 | a position found lies at or after the start, with room for the pattern before the end of the text |
| Text.FindSpec | progress/gpu_scrap.py:21-35 | `str.find`: the first occurrence at or after the start, and none exactly when there is none |
| Text.ContainsIff | progress/gpu_scrap.py:57 | `in` holds exactly when the pattern occurs somewhere |
| Text.FindExactly | progress/gpu_scrap.py:21-35 | a search stops at the first occurrence at or after its start, whichever that is |
| Text.Split | progress/gpu_scrap.py:47 | `str.split`: at least one piece, and no piece contains the separator |
| Text.JoinSplit | progress/gpu_scrap.py:47 | joining the pieces with the separator gives back the text |
| Text.Replace | progress/gpu_scrap.py:71 | `str.replace`: a pattern that does not occur, or replacing a pattern by itself, leaves the text unchanged |
| Text.ReplaceFirst | progress/gpu_scrap.py:71 | `str.replace` unfolds at the first occurrence: the text before it, the replacement, then the rest of the text replaced in the same way |
| Text.ReplaceJoin | progress/gpu_scrap.py:71 | every occurrence is replaced, not only the first: pieces joined by the pattern come out joined by the replacement, when no piece holds the pattern's first character and the pattern holds it only in front |
| Text.JoinAvoids | progress/gpu_scrap.py:71 | pieces and a separator without a character join to a text without it |
| Text.JoinTrimmed | progress/gpu_scrap.py:69-71 | pieces without surrounding whitespace, joined by a separator without it, give a text without it |
| Text.JoinSepFollowed | progress/gpu_scrap.py:71 | in such a joined text every occurrence of the separator's first character starts a separator |
| Text.ReplaceShorter | progress/gpu_scrap.py:71 | replacing by something no longer than the pattern never lengthens the text |
| Text.LeadingSpaces | progress/gpu_scrap.py:69 | the whitespace run at the start, ended by a non-space |
| Text.TrailingSpaces | progress/gpu_scrap.py:69 | the whitespace run at the end, started after a non-space |
| Text.Strip | progress/gpu_scrap.py:69 | `str.strip`: the result neither starts nor ends with whitespace, and the text is the result padded with whitespace only |
| Text.StripTrimmed | progress/gpu_scrap.py:69 | text without whitespace at either end is its own strip |
| Text.TagEnd | progress/gpu_scrap.py:51 | the first `>` closing a tag, provided no newline comes before it |
| Text.StripTags | progress/gpu_scrap.py:51 | `re.sub(r'<.*?>', '', s)` is no longer than the text |
| Text.StripTagsDeletes | progress/gpu_scrap.py:51 | tag removal only deletes characters: no character occurs more often in the result than in the text |
| Text.StripTagsKeepsOpenLine | progress/gpu_scrap.py:51 | text with no `>` before its first newline keeps that shape after tag removal |
| Text.StripTagsLeavesNoTag | progress/gpu_scrap.py:51 | removing `<.*?>` leaves no match of the pattern |
| Text.StripTagsFixes | progress/gpu_scrap.py:51 | text without a tag is left unchanged |
| Text.StripTagsIdempotent | progress/gpu_scrap.py:51 | removing tags twice is removing them once |
| Text.StripTagsDropsTag | progress/gpu_scrap.py:51 | a tag with no `>` and no newline inside is removed up to its own first `>`, the lazy match, and the rest is scanned on |
| Text.StripTagsPlainPrefix | progress/gpu_scrap.py:51 | text with no `<` passes tag removal unchanged in front of whatever follows it |
| Text.StripTagsDropsClose | progress/gpu_scrap.py:51 | a closing tag with no `>` and no newline inside is removed whole |
| Text.StripTagsUnwraps | progress/gpu_scrap.py:51 | removing the tags of one element `<a…>x</b…>` around text with no `<` leaves the text |
| Text.ElementAt | progress/gpu_scrap.py:61 | a match of `<tag[^>]*>(.*?)</tag>` at a position has its group after that position and its closing tag inside the text |
| Text.ElementAtMatches | progress/gpu_scrap.py:61 | a match starts with `<tag`, its group follows a `>` and is followed by the closing tag, and the group holds no closing tag |
| Text.ElementAtLeftmost | progress/gpu_scrap.py:61 | the opening tag ends at the first `>` after `<tag`, the group ends at the first closing tag after it, and the pattern matches exactly when `<tag` stands there and some `>` after it is followed by a closing tag |
| Text.OpenTagEnd | progress/gpu_scrap.py:61 | `[^>]*` stops at the first `>` after `<tag` |
| Text.GroupEnd | progress/gpu_scrap.py:61 | the lazy group `(.*?)` ends at the first closing tag after the opening tag |
| Text.ElementAtIff | progress/gpu_scrap.py:61 | the pattern matches at a position exactly when `<tag` stands there and some `>` after it is followed by a closing tag |
| Text.ElementAtFromWitness | progress/gpu_scrap.py:61 | any `>` after `<tag` that is followed by a closing tag makes the pattern match |
| Text.FindElementsNoClose | progress/gpu_scrap.py:61 | `Text.FindElements`: no group found by `re.findall` holds the closing tag |
| Text.FindElementsNoCloseFound | progress/gpu_scrap.py:61 | a group found at a match holds no closing tag, so prepending it keeps the property |
| Text.FindElementsNone | progress/gpu_scrap.py:61 | `Text.FindElements`, the model of `re.findall`, finds nothing exactly when the pattern matches at no position from the start on |
| Text.FindElementsLeftmost | progress/gpu_scrap.py:61 | `Text.FindElements`: the groups are those of the successive leftmost matches: the first is the group of the leftmost match, the rest are found from the end of that match |
| Text.FindElementsSkip | progress/gpu_scrap.py:61 | `Text.FindElements`: positions where the pattern does not match are passed over |
| Text.FindElementsFound | progress/gpu_scrap.py:61 | `Text.FindElements`: where the pattern matches, its group is found first and the search goes on after the closing tag |
| Text.Element | progress/gpu_scrap.py:61 | an element is its text with the two tags, five characters and twice the tag name longer |
| Text.ElementAtElement | progress/gpu_scrap.py:61 | at an element whose text has no `<`, the pattern matches with exactly that text as its group |
| Text.OpenTagAt | progress/gpu_scrap.py:61 | an element begins with `<tag`, and its first `>` comes right after the name |
| Text.CloseTagAfter | progress/gpu_scrap.py:61 | after the `>` of an element whose text has no `<`, the first closing tag is the element's own |
| Text.ElementAtFound | progress/gpu_scrap.py:61 | the match at a position is given by the two searches it makes |
| Text.FindElementsOfElements | progress/gpu_scrap.py:61 | `Text.FindElements`: scanning a run of elements whose texts have no `<` finds exactly those texts, in order |
| Text.FirstElement | progress/gpu_scrap.py:61 | the first element of such a run is matched with its own text as group, and the rest of the run follows its closing tag |
| Text.ElementsFound | progress/gpu_scrap.py:61 | `Text.FindElements`, the model of `re.findall`, over a text made of such a run returns the texts of the run |
| GpuScrape.TableBody | progress/gpu_scrap.py:19-43 | the anchor is missing exactly when `id="cputable"` does not occur; a body starts with `<tbody`, ends with `</tbody>`, and holds no earlier `</tbody>` |
| GpuScrape.BodySlice | progress/gpu_scrap.py:43 | the slice `content[tbody_start:tbody_end+8]` starts with `<tbody`, ends with the closing tag and contains no earlier one |
| GpuScrape.TableBodyFailsIffNoChain | progress/gpu_scrap.py:19-39 | the scraper stops with an error exactly when there is no anchor, then `<tbody`, then `</tbody>`, each at or after the one before |
| GpuScrape.TableBodyIsFirstChain | progress/gpu_scrap.py:21-43 | the body is `content[ts:te+8]` for the first anchor `a`, the first `<tbody` `ts` at or after it and the first `</tbody>` `te` at or after that |
| GpuScrape.TableBodyHasFirstChain | progress/gpu_scrap.py:21-43 | every body found is the slice of such a first chain |
| GpuScrape.ScrapeGpuBenchmarkRobust | progress/gpu_scrap.py:19-84 | each failed search gives its own error; otherwise the records are the row function applied to the `<tr` pieces of the body, skipping those without a record, in order |
| GpuScrape.RowRecord | progress/gpu_scrap.py:55-84 | `GpuScrape.GpuRow`, one loop turn: no record without `<td` or with fewer than five cells, otherwise the first five cells cleaned |
| GpuScrape.GpuRecordsInRowOrder | progress/gpu_scrap.py:55-84 | records come out in table order |
| GpuScrape.GpuRowOfCells | progress/gpu_scrap.py:57-78 | `GpuScrape.GpuRow`, one row of the loop: a row of `<td>` cells with plain texts gives a record exactly when it has at least five cells, and the record holds the first five texts; later cells are ignored |
| GpuScrape.RowOpensCell | progress/gpu_scrap.py:57 | a row that starts with a `<td>` cell passes the `'<td' in row_html` test |
| GpuScrape.CleanCell | progress/gpu_scrap.py:67-72 | `clean_cell` never lengthens the text |
| GpuScrape.CleanCellDecodesAmp | progress/gpu_scrap.py:71 | plain texts joined by `&amp;` come out joined by `&`; every `&amp;` is decoded |
| GpuScrape.CleanCellDecodesNbsp | progress/gpu_scrap.py:71 | plain texts joined by `&nbsp;` come out joined by single spaces; every `&nbsp;` is decoded |
| GpuScrape.AmpJoinedSteps | progress/gpu_scrap.py:69-71 | on texts joined by `&amp;`, only the `&amp;` decoding changes anything |
| GpuScrape.NbspJoinedSteps | progress/gpu_scrap.py:69-71 | on texts joined by `&nbsp;`, only the `&nbsp;` decoding changes anything |
| GpuScrape.JoinedCellKept | progress/gpu_scrap.py:69 | plain texts joined by an entity lose nothing to tag removal and trimming |
| GpuScrape.NoNbspAmongAmps | progress/gpu_scrap.py:71 | plain texts joined by `&amp;` hold no `&nbsp;`, so its decoding leaves them alone |
| GpuScrape.AmpsDecoded | progress/gpu_scrap.py:71 | decoding `&amp;` in plain texts joined by it joins them by `&` |
| GpuScrape.CleanCellDecodesEveryAmp | progress/gpu_scrap.py:71 | `A&amp;B&amp;C` comes out as `A&B&C` |
| GpuScrape.CleanCellUnwraps | progress/gpu_scrap.py:67-72 | a plain text wrapped in one element, such as a link, comes out as the text |
| GpuScrape.CleanCellLinkedName | progress/gpu_scrap.py:51-72 | `<a href="x">GeForce</a>` comes out as `GeForce`, which a greedy `<.*>` would have removed whole |
| GpuScrape.PlainCellClean | progress/gpu_scrap.py:67-72 | text with no `<`, no `&` and no surrounding whitespace passes `clean_cell` unchanged |
| GpuScrape.NoAmpNoEntity | progress/gpu_scrap.py:71 | text without `&` holds no entity |
| GpuScrape.CleanCellPlain | progress/gpu_scrap.py:67-72 | already clean text passes `clean_cell` unchanged |
| GpuScrape.CleanCellPlainPrefix | progress/gpu_scrap.py:69 | tag removal and trimming leave text with no `<` and no surrounding whitespace as it is |
| GpuScrape.NbspAbsentFromEscaped | progress/gpu_scrap.py:71 | the `&nbsp;` decoding finds nothing in `&amp;nbsp;` |
| GpuScrape.AmpDecodedInEscaped | progress/gpu_scrap.py:71 | the `&amp;` decoding turns `&amp;nbsp;` into `&nbsp;` |
| GpuScrape.CleanCellDecodesAmpLast | progress/gpu_scrap.py:71 | because `&amp;` is decoded after `&nbsp;`, `&amp;nbsp;` comes out as the text `&nbsp;` |
| CpuScrape.TbodyContentIsLeftmostMatch | progress/cpu_scarp.py:9-13 | without a `<tbody>…</tbody>` pair the whole document is scanned; otherwise the inner text of the pair that starts at the first `<tbody>` and ends at the first `</tbody>` after it |
| CpuScrape.TbodyContentWithoutMatch | progress/cpu_scarp.py:11-13 | with no `<tbody>…</tbody>` pair the whole document is scanned |
| CpuScrape.TbodyContentWithMatch | progress/cpu_scarp.py:11-13 | with a pair, the scanned text is the group of the pair that starts at the first `<tbody>` and ends at the first `</tbody>` after it, and it holds no `</tbody>` |
| CpuScrape.ExtractCpuRecords | progress/cpu_scarp.py:9-33 | the records are the row function applied to the `<tr…>…</tr>` rows of the scanned text, skipping rows without a record, in order |
| CpuScrape.RowRecord | progress/cpu_scarp.py:24-33 | `CpuScrape.CpuRow`, one loop turn: a record of the first five cells' fields when the row has at least five cells |
| CpuScrape.CpuRecordsInRowOrder | progress/cpu_scarp.py:22-33 | records come out in document order |
| CpuScrape.CpuRowOfCells | progress/cpu_scarp.py:24-33 | `CpuScrape.CpuRow`, one row of the loop: a row of `<td>` cells whose texts have no `<` and no surrounding whitespace gives a record exactly when it has at least five cells, holding the first five texts as they are; later cells are ignored |
| CpuScrape.CpuField | progress/cpu_scarp.py:28-32 | a field is never longer than its cell |
| CpuScrape.TbodyContent | progress/cpu_scarp.py:9-13 | the scanned text is never longer than the document |
| CpuScrape.NoTagInfix | progress/cpu_scarp.py:28-32 | a piece of tag-free text is tag-free |
| CpuScrape.CpuFieldIsClean | progress/cpu_scarp.py:28-32 | a field carries no tag and no surrounding whitespace |
| CpuScrape.CpuFieldKeepsEntities | progress/cpu_scarp.py:28-32 | entities are not decoded; clean text is kept as it is |

## Left out

- File and CSV input and output (`pd.read_csv`, `open`, `to_csv`) and `print`. The CSV read is a parameter. The HTML text is a parameter. The scrapers return the records they would write.
- The `__main__` demo blocks and `app.py`.
- Exact message strings, f-string formatting and thousands separators. An outcome is a message tag, and an explanation is a list of tagged reasons.
- IEEE floating point: prices, the conversion factor and scores are exact `real`s.
- Ranking.SortBy: claims only that the result is ordered by the key and is a permutation of the input. pandas' default sort is not stable, so the order of equal keys is not claimed.
- KeepDigitsDots: its own contract states only the alphabet and the length of the result. That it keeps exactly the digits and dots, in order, is stated by `Catalog.KeepDigitsDotsAppend`, so that the very widely used filter carries only cheap facts.
- CoerceText: its own contract states only that the number is not negative. Its value for a cell whose digits and dots form a whole number or a decimal is stated by `Catalog.CoerceTextValue`.
- WithinBudget: its own contract states membership and length only. Multiplicity and order are stated by `Engine.WithinBudgetCount` and `Engine.WithinBudgetOrder`, as quantified statements on this widely used function are expensive for the verifier.
- MeetingRule: its own contract states membership and length only. Multiplicity and order are stated by `Engine.MeetingRuleCount` and `Engine.MeetingRuleOrder`, for the same reason.
- Catalog.IsDigit: `\d` is taken as the ASCII digits `0`-`9`. Python's `\d` on a `str` pattern also keeps other Unicode decimal digits, such as the full-width `５`, which the model drops. So a cell `"5５"` reads 5 here, where pandas rejects the kept `"5５"` and gives 0.
- Catalog.ParseDecimal: a simplified `pd.to_numeric`. It reads digits with at most one dot and at least one digit, and everything else is 0. pandas' full grammar (signs, exponents, `inf`) is not modelled.
- pandas dtype inference: each column is given as numeric or text by the read.
- The `isinstance(df[col], pd.DataFrame)` branch (expertsystem.py:77-78) cannot be taken after de-duplication, so it is not modelled.
- Exceptions inside `_load_and_clean_data` other than a failed read; none of the modelled steps raise.
- `row.get('ScreenScore', 0)`: its default is not modelled, because the column always exists after loading.
- The unused `kategori` argument of `_generate_explanation`.
- Index labels: rows keep their position as their index label, as `read_csv` gives them.
- Text.ElementAt: `re.IGNORECASE` folds ASCII letters only. Python also folds non-ASCII letters.
- Text.ElementAt: its own contract states only where the group and the closing tag lie. Which `>` and which closing tag it picks, and when it matches at all, are stated by `Text.ElementAtMatches`, `Text.ElementAtLeftmost` and the lemmas it combines.
- Text.Find: its own contract states only where a found position lies. That it is the first occurrence, and that nothing is found exactly when the pattern does not occur, is stated by `Text.FindSpec`, so that these quantified facts enter only the proofs that need them.
- Text.StripTags: its own contract states the length only. That removal only deletes characters is stated by `Text.StripTagsDeletes`; that a tag is removed up to its own first `>` and the text around it kept is stated by `Text.StripTagsDropsTag`, `Text.StripTagsPlainPrefix` and `Text.StripTagsUnwraps`.
- Text.Replace: its own contract states only the two cases that leave the text unchanged. That every occurrence is replaced, left to right, is stated by `Text.ReplaceFirst` and `Text.ReplaceJoin`.
- GpuScrape.CleanCell: its own contract states the length only. The decoding of `&nbsp;` and `&amp;` is stated by `GpuScrape.CleanCellDecodesAmp` and `GpuScrape.CleanCellDecodesNbsp` for any number of entities between plain texts; entities next to other `&` text are covered only by `GpuScrape.CleanCellDecodesAmpLast`.
- Text.IsSpace: follows `str.isspace` for the Unicode whitespace code points; other Unicode properties are not modelled.
- The UTF-8 decoding of the HTML file (`errors='ignore'`): the text is given already decoded.
- The KeyError of the final column selection is an outcome of `rekomendasi`, not an exception.
