# HS Tracker: verified models of the release and catalogue pipeline

This project models, in Dafny, the algorithms and protocols that the HS Tracker pipeline rests on, and
proves what they promise. Each module follows one component of the program.

| module | component |
|---|---|
| `OpportunityEvidence`, `EvidenceMeaning`, `OpportunityIndex`, `OpportunityReconcile` | the Opportunity Index build: one shared graph of market-year objects, overwritten for each exporter and reset from a remembered list before the next |
| `Momentum`, `MarketMonths`, `GridKeys`, `SourceMonths`, `Reconciliation`, `MomentumRows`, `MomentumHistories` | monthly trade: staging of source rows, keyed buckets, the grid of market months and its keys, what they say of the source rows, the reconciliation of totals, the look-up of histories |
| `VintageDiff`, `Revision`, `RevisionReport`, `RevisionMeaning` | the revision report between two vintages of source rows: the difference of keyed vintages, the keys of rows, the loops of the report, and what the report says of the rows |
| `Parentheses`, `ChemicalFormula`, `SourceTerms`, `TermExtraction`, `TranslationText` | technical terms of a product description: how they are found, kept without duplicates, and repaired in a translation |
| `Numerals`, `NumericTokens` | numbers of a description that its translation must repeat: how they are written and compared, and which are missing |
| `CatalogCoverage` | the one-to-one coverage of products by translations |
| `PinnedDownload` | the resumable download of the pinned source archive |
| `CoverageGate` | the year-by-year coverage approval and the partitions staged after it |
| `Publication`, `PublishPair` | publish-once directories, and the pair of translation outputs |
| `AnalysisTables`, `FixedPoint`, `GroupTotals` | the aggregate tables, their reconciliation, and totals with three decimals |
| `LaunchEvidence`, `ReportTrees` | exactly-once launch evidence from browser and contract-test reports |
| `MarketRequests` | superseded Market Analysis requests in the workspace |

Code that changes things step by step is modelled by classes and loops that are proved against functions;
the properties are then proved about those functions. Files, database statements and the network appear
only by their effect: file maps, folds over rows, answers that are parameters. Which steps fail, what a
server answers and in which order answers arrive are parameters too, and every theorem is for all of them.
For each main operation the last theorems state what it leaves behind straight from its inputs (rows of the
tables, rows of the source, bytes of the content, steps of the run), without the functions it is built from.

Six results say when the code does *not* do what its surroundings suggest. Each gives the exact condition,
and an input that fails:

- **White space.** The translation builder repairs missing terms first and collapses white space
  afterwards, but the catalogue compares the terms of the uncollapsed source. The builder's output passes
  the check exactly when every extracted term is single spaced (`TranslationText.BuilderPassesCheckIff`).
  With patterns that find the name in "species Aa  bb", no translation of it passes
  (`TranslationText.DoubleBlankFails`).
- **Absolute delta.** `absoluteValueDeltaEur` adds inserted and deleted rows with their sign. It is the
  distance of the two vintages exactly when no such row is negative (`VintageDiff.DeltaIsDistanceIff`);
  the report on one deleted row of negative value shows a negative delta (`Revision.NegativeRowFoolsReport`).
- **Existing outputs.** `ensureAbsent` takes every failing access for absence. Files that exist are safe
  from `publishPair` exactly when the probe overlooks neither output (`PublishPair.ExistingFilesKeptIff`);
  when it overlooks the first one and the second rename fails, the roll-back removes the file that was there
  (`PublishPair.OverlookedOutputIsLost`).
- **Reconciled values.** `valueReconciled` is no identity: it holds exactly when the aggregated rows
  outside the grid add up to 0 (`Reconciliation.SourceIsGridAndOutside`); it fails for one row of July and a
  grid that ends in June (`Reconciliation.JulyIsNotReconciled`).
- **A failing staging or artifact build may still publish.** Only the catalogue build takes its directory
  back when the report cannot be put in place; the other two leave a complete publication behind
  (`Publication.BuildIsSafe`, `Publication.FailingBuildPublishes`).
- **Normalising a number twice.** The normal form of a number takes only its first comma for a decimal mark.
  Normalising is idempotent exactly on grouped numerals and on texts without a second comma
  (`Numerals.NormalizesOnceIff`); it is not on "1,2,3" (`Numerals.TwiceIsNotOnce`).

Check the whole project with `dafny verify dfyconfig.toml` in this directory.
Lemmas on which Dafny would otherwise do induction on its own carry `{:induction false}`: every hypothesis of
a proof by induction is written down as a call.

## Model

| member | source | states |
|---|---|---|
| `OpportunityIndex.SharedInputs.constructor` | scripts/release/opportunity-index.ts:270-392 | the load links products, markets and cells so that list and look-up maps hold the same objects once each, and no cell or total is set |
| `OpportunityIndex.SharedInputs.LoadProducts` | scripts/release/opportunity-index.ts:322-354 | products with known identity, in order of first appearance, with their world totals and no exporter totals |
| `OpportunityIndex.SharedInputs.LoadMarkets` | scripts/release/opportunity-index.ts:356-392 | markets in order of first appearance with their years; all cells are new and empty |
| `OpportunityIndex.SharedInputs.AddMarketYear` | scripts/release/opportunity-index.ts:363-391 | one row adds a cell to its market, opens the market, or is skipped for an unknown product or economy |
| `OpportunityIndex.SharedInputs.FindMarketYear` | scripts/release/opportunity-index.ts:681-692 | the inner loop finds the first cell of the year, or there is none of that year |
| `OpportunityIndex.SharedInputs.FirstIsUnique` | scripts/release/opportunity-index.ts:686-692 | no two cells can both be the target of a flow, so aliasing cannot redirect a write |
| `OpportunityIndex.SharedInputs.WriteFlow` | scripts/release/opportunity-index.ts:678-693 | one flow changes the one cell it concerns and no other |
| `OpportunityIndex.SharedInputs.ApplyFlows` | scripts/release/opportunity-index.ts:674-694 | all cells show exactly the exporter's flows, and every written cell is remembered |
| `OpportunityIndex.SharedInputs.ApplyTotals` | scripts/release/opportunity-index.ts:719-725 | known products show exactly the exporter's totals, and each product set is remembered |
| `OpportunityIndex.SharedInputs.ApplyExporterOverlay` | scripts/release/opportunity-index.ts:664-728 | flows and totals together, on a graph that shows none: it shows exactly this exporter's, and all that was written is remembered |
| `OpportunityIndex.SharedInputs.ResetOverlay` | scripts/release/opportunity-index.ts:535-543 | from the remembered lists alone, every cell and total of the whole graph is empty again |
| `OpportunityIndex.SharedInputs.SnapshotIsOverlay` | scripts/release/opportunity-index.ts:556-564 | read as a value, the shared graph is the fresh load overlaid with exactly the flows and totals it shows |
| `OpportunityIndex.SharedInputs.HandOver` | scripts/release/opportunity-index.ts:533-564 | whatever the previous exporter left behind, the evidence handed to the cohort computation is that of a fresh load overlaid with this exporter's rows, and says of products, years, totals and cells exactly what the tables say |
| `EvidenceMeaning.ListHoldsItsRows` | scripts/release/opportunity-index.ts:322-342 | the year list of a product holds exactly the rows of that product, in order, one entry for each |
| `EvidenceMeaning.FreshProductsAre` | scripts/release/opportunity-index.ts:322-354 | a fresh load has the known products with rows in the window, each with exactly its product_year rows of the window |
| `EvidenceMeaning.ExporterTotalsAre` | scripts/release/opportunity-index.ts:696-726 | one total for each window year in which the exporter has a flow of the product, and no other: the sum of exactly those flows |
| `EvidenceMeaning.FreshMarketsAre` | scripts/release/opportunity-index.ts:356-392 | a fresh load has the markets of known names with rows in the window, each with exactly its market_year rows of the window |
| `EvidenceMeaning.LastValueIsLast` | scripts/release/opportunity-index.ts:674-694 | a cell shows the last flow of the exporter to the market in the year, and none without one |
| `EvidenceMeaning.EvidenceMeans` | scripts/release/opportunity-index.ts:533-564 | all of it together, with products and markets in the order of their first rows: the evidence of an exporter read off the three tables alone |
| `OpportunityEvidence.LastValueIff` | scripts/release/opportunity-index.ts:675-694 | a cell has a value exactly when this exporter has a flow for its market and year in the window, and then one of those values |
| `OpportunityEvidence.OtherExportersDoNotMatter` | scripts/release/opportunity-index.ts:664-728 | no leak: another exporter's flow, anywhere in the table, changes nothing in the evidence |
| `OpportunityEvidence.TotalsAreSums` | scripts/release/opportunity-index.ts:696-718 | each product and year with flows has one total, no other has, and it is the exact sum of these flows |
| `OpportunityEvidence.MarketUniverseDistinct` | scripts/release/opportunity-index.ts:357-392 | one market for each product and importer |
| `OpportunityIndex.AppendRow` | scripts/release/opportunity-index.ts:583-588 | flushed or not, the row is in the index, and fewer rows wait than the flush bound |
| `OpportunityIndex.AppendCohort` | scripts/release/opportunity-index.ts:568-610 | the cohort's rows follow the earlier ones in order, with the counters of exactly these candidates |
| `OpportunityIndex.TallyCounts` | scripts/release/opportunity-index.ts:589-603 | each row has one opportunity type; tie groups are the runs of equal priority |
| `OpportunityIndex.TallyTypes` | scripts/release/opportunity-index.ts:589-598 | each counter counts the rows of its own type |
| `OpportunityIndex.StatsMean` | scripts/release/opportunity-index.ts:614-624 | the statistics are those of this exporter: its rows, those of each type, its tie groups, and bounds that hold for every priority and occur in a cohort that has rows; without rows both are 0 |
| `OpportunityIndex.BuildExporters` | scripts/release/opportunity-index.ts:533-643 | over the loop: fresh evidence for each exporter, rows, row counts and statistics of the cohorts computed from it |
| `OpportunityIndex.IndexMeans` | scripts/release/opportunity-index.ts:568-588 | row by row: behind the rows of the exporters before it stand the candidates of each exporter's cohort, in order and with its number, and nothing else |
| `OpportunityIndex.PopulateIndex` | scripts/release/opportunity-index.ts:458-662 | for any list and order of exporters the incremental build equals a fresh load for each: evidence, index, counts, total and statistics; each evidence says what the tables say, and the index holds the cohorts computed from it, row by row |
| `OpportunityReconcile.ReconcileIndex` | scripts/release/opportunity-index.ts:838-896 | accepts exactly when keys are unique and eligible, persisted and reported counts agree for every exporter; each error names its reason |
| `OpportunityReconcile.IndexCounts` | scripts/release/opportunity-index.ts:866-888 | the persisted count of an exporter is the size of its cohort |
| `OpportunityReconcile.IndexUnique` | scripts/release/opportunity-index.ts:856-865 | index keys are unique exactly when each cohort's keys are |
| `OpportunityReconcile.BuiltIndexPassesIff` | scripts/release/opportunity-index.ts:838-896 | a built index passes exactly when each cohort has distinct keys and as many rows as eligible pairs; persisted and reported counts cannot disagree |
| `OpportunityReconcile.EligibleIffInEvidence` | scripts/release/opportunity-index.ts:866-878 | the independent count is that of the evidence: a market is eligible exactly when it is not the exporter's own and the evidence has a year of it in the score window |
| `Momentum.MarketKeyIsInjective` | scripts/release/recent-trade-momentum-package.ts:992-994 | joined keys identify month, reporter and product when reporter and product hold no bar |
| `Momentum.BucketsGrow` | scripts/release/recent-trade-momentum-package.ts:456-474 | one more row turns the buckets of the rows before into the buckets of all rows, given without a fold |
| `Momentum.BucketsIgnoreOrder` | scripts/release/recent-trade-momentum-package.ts:455-474 | any permutation of the rows gives the same buckets: keys, sums, partners, codes, update states and chains |
| `MarketMonths.FoldRows` | scripts/release/recent-trade-momentum-package.ts:451-480 | the loop over the rows gives the buckets and the three totals as sums over the rows that belong to each |
| `MarketMonths.EveryRowIsAccountedFor` | scripts/release/recent-trade-momentum-package.ts:455-480 | the value of all rows is identified, world total, special or dropped value, each row counted once |
| `MarketMonths.AggregateMarketMonths` | scripts/release/recent-trade-momentum-package.ts:431-533 | rows, then the nested loops over the grid: every place in grid order with what its bucket says, and the totals |
| `MarketMonths.MonthSaysWhatRowsSay` | scripts/release/recent-trade-momentum-package.ts:484-517 | a market month has a value exactly when an aggregated row falls on it, then their sum; PRELIMINARY and MULTI_STEP exactly when one of those rows has it |
| `MarketMonths.MonthCountsAndState` | scripts/release/recent-trade-momentum-package.ts:484-517 | the two counts are the numbers of different partners and CN codes of the rows that fall on the place; the state says whether the product is supported, whether such a row exists, and whether their sum is positive |
| `MarketMonths.MonthByCoordinates` | scripts/release/recent-trade-momentum-package.ts:482-520 | without bars in the codes, value, flags, counts and state of a market month are those of the aggregated rows with exactly its month, reporter and product |
| `MarketMonths.StagingIgnoresOrder` | scripts/release/recent-trade-momentum-package.ts:388-429 | the vintage's own rows, staged in any order, give the same outcome |
| `MarketMonths.ExcludedAsCoded` | scripts/release/recent-trade-momentum-package.ts:475-480 | on staged rows the excluded totals are the sums over the rows the source itself codes as world total, confidential or special |
| `MarketMonths.OutcomeIgnoresOrder` | scripts/release/recent-trade-momentum-package.ts:431-533 | any permutation of the source rows gives the same market months and totals |
| `SourceMonths.StageIs` | scripts/release/recent-trade-momentum-package.ts:404-426 | exactly those source rows are aggregated that come from a known reporter, with an individual partner, without special code, and exactly mapped without rejection to one reviewed product; their place and chain are those of the reference |
| `SourceMonths.IdentifiedIsAdmissible` | scripts/release/recent-trade-momentum-package.ts:455-474 | the identified total is the value of exactly those rows |
| `SourceMonths.MonthOfSource` | scripts/release/recent-trade-momentum-package.ts:482-518 | value, flags, counts and state of a market month read off the source rows of its month, reporter and product; MULTI_STEP exactly when the mapping of one of them is |
| `SourceMonths.OutcomeOfSource` | scripts/release/recent-trade-momentum-package.ts:388-533 | the whole outcome: a month for each reporter, product and month in grid order, with what its source rows say, and the three totals |
| `SourceMonths.AggregateVintage` | scripts/release/recent-trade-momentum-package.ts:388-533 | staging and aggregation together deliver that outcome |
| `SourceMonths.OneRowMore` | scripts/release/recent-trade-momentum-package.ts:411-474 | one more row that is not admissible leaves every market month and the identified total alone; an admissible one adds its value to the total and to its own month, and changes no other |
| `GridKeys.UniqueIffListsAreDistinct` | scripts/release/recent-trade-momentum-package.ts:985-990 | the uniqueness check passes exactly when the grid is empty or no reporter, product or month is listed twice |
| `GridKeys.InGridPlaces` | scripts/release/recent-trade-momentum-package.ts:482-520 | the nested loops visit a place exactly when its reporter, product and month are listed |
| `Reconciliation.SourceIsGridAndOutside` | scripts/release/recent-trade-momentum-package.ts:244 | after the uniqueness check: identified value = aggregate value + value of aggregated rows outside the grid; `valueReconciled` exactly when that residue is 0 |
| `Reconciliation.ReconciledIffOnGrid` | scripts/release/recent-trade-momentum-package.ts:922-934 | on non-negative values the totals reconcile exactly when every aggregated row of value is of one of the grid's reporters, one of its products and one of its months |
| `Reconciliation.JulyIsNotReconciled` | scripts/release/recent-trade-momentum-package.ts:922-934 | a source of one row in a month off the grid: the months are unique, the totals do not reconcile |
| `MomentumRows.LookUpFindsPlace` | scripts/release/recent-trade-momentum-package.ts:544-560 | every place of the grid is found under its key, as the market month of that very place |
| `MomentumRows.BuildMomentumRows` | scripts/release/recent-trade-momentum-package.ts:535-602 | "aggregation is incomplete" is never raised; one row for each reporter and product, computed from its own months in order |
| `MomentumHistories.MomentumRowsMean` | scripts/release/recent-trade-momentum-package.ts:535-602 | in grid order the row of each reporter and product is computed from a history that says of every month what its source rows say |
| `Revision.SpecialIsPartOfKey` | scripts/release/recent-trade-momentum-package.ts:1000-1010 | two rows share a key exactly when they share the identity in front of the special code and the code itself |
| `Revision.RevisionKeyIsInjective` | scripts/release/recent-trade-momentum-package.ts:1000-1010 | rows with the same key differ at most in value and update state, when codes hold no bar |
| `RevisionMeaning.KeyIff` | scripts/release/recent-trade-momentum-package.ts:1000-1010 | rows have the same key exactly when they agree in month, reporter, partner, edition, code and special code |
| `Revision.SpecialNeverChanges` | scripts/release/recent-trade-momentum-package.ts:784-788 | the special-code part of the state test can never fire |
| `Revision.DeletedIff` | scripts/release/recent-trade-momentum-package.ts:793-798 | a row counts as deleted exactly when the other vintage has no row of its identity with its special code |
| `RevisionReport.IndexByKey` | scripts/release/recent-trade-momentum-package.ts:757-758 | a key is mapped to the last row that has it, and the keys are listed once each, in whatever order they are visited |
| `RevisionReport.BuildRevisionReport` | scripts/release/recent-trade-momentum-package.ts:738-854 | the loops together give the counts as sizes of key sets, the events, the delta over the keys of either vintage, the momentum counts, and the affected months, reporters and products; a first build counts all rows as unchanged and affects nothing |
| `RevisionMeaning.CountsMean` | scripts/release/recent-trade-momentum-package.ts:768-799 | each count is the number of rows to which that happened: new, gone, other value, other state, untouched |
| `RevisionMeaning.DeltaMeans` | scripts/release/recent-trade-momentum-package.ts:768-799 | the delta adds up the values of new rows, the movements of kept ones, and the values of rows that are gone |
| `RevisionMeaning.ReportMeans` | scripts/release/recent-trade-momentum-package.ts:768-828 | counts, delta and events of the report, read off the rows of both vintages |
| `RevisionMeaning.AffectedIff` | scripts/release/recent-trade-momentum-package.ts:845-853 | affected are exactly the months, known reporters and known products of rows that are new, moved or gone |
| `RevisionReport.NothingAffectedIff` | scripts/release/recent-trade-momentum-package.ts:768-799 | no month is affected exactly when both vintages agree on keys, values and update states |
| `RevisionReport.CompareMomentumRows` | scripts/release/recent-trade-momentum-package.ts:801-823 | the loop counts the current momentum rows whose signal differs from the previous one, in values or in state |
| `RevisionReport.FieldsCount` | scripts/release/recent-trade-momentum-package.ts:807-822 | each of the three values counts as a change of value, each of the two states as a change of state |
| `RevisionReport.MomentumKeyIff` | scripts/release/recent-trade-momentum-package.ts:996-998 | momentum rows share a key exactly when they are of the same reporter and product |
| `RevisionReport.CountsKeys` | scripts/release/recent-trade-momentum-package.ts:801-823 | with one row for each reporter and product these are the sizes of the sets of keys that differ |
| `RevisionReport.SwappedMomentum` | scripts/release/recent-trade-momentum-package.ts:801-823 | comparing the momentum rows the other way round gives the same counts |
| `Revision.TotalIsRowSum` | scripts/release/recent-trade-momentum-package.ts:978-983 | after the uniqueness check a vintage's total over its keys is the sum over its rows |
| `Revision.SpecialChangeIsDeleteAndInsert` | scripts/release/recent-trade-momentum-package.ts:768-799 | whatever else differs: a row whose special code changes has its old key among the deleted and its new key among the inserted ones, neither among the changed or unchanged ones, and both events are reported |
| `Revision.OnlySpecialChanges` | scripts/release/recent-trade-momentum-package.ts:768-799 | when nothing else changes the counts are exactly one inserted and one deleted row, and no changed state |
| `Revision.NegativeRowFoolsReport` | scripts/release/recent-trade-momentum-package.ts:793-798 | the report on two vintages of which one has a single row of negative value shows a negative delta, while the distance is positive |
| `VintageDiff.L1IsSymmetric` | scripts/release/recent-trade-momentum-package.ts:768-799 | the distance of two vintages, missing rows as 0, is symmetric |
| `VintageDiff.L1Triangle` | scripts/release/recent-trade-momentum-package.ts:768-799 | the distance satisfies the triangle inequality over three vintages |
| `VintageDiff.L1IsZeroIff` | scripts/release/recent-trade-momentum-package.ts:768-799 | the distance is 0 exactly when both vintages have the same value under every key |
| `VintageDiff.L1BoundsTotalChange` | scripts/release/recent-trade-momentum-package.ts:768-799 | the change of the total is at most the distance |
| `VintageDiff.DeltaIsDistanceIff` | scripts/release/recent-trade-momentum-package.ts:771-798 | the reported delta never exceeds the distance, and equals it exactly when no inserted or deleted row is negative |
| `VintageDiff.NegativeRowFoolsDelta` | scripts/release/recent-trade-momentum-package.ts:793-798 | a single deleted row of negative value makes the delta negative while the distance is positive |
| `VintageDiff.SwappedReport` | scripts/release/recent-trade-momentum-package.ts:757-799 | swapping the vintages swaps inserted and deleted (and their events) and keeps every other count, the update event and the delta |
| `VintageDiff.CountsAddUp` | scripts/release/recent-trade-momentum-package.ts:768-799 | inserted and kept rows make up the current vintage, deleted and kept ones the previous; kept rows are changed or untouched |
| `VintageDiff.NothingReportedIff` | scripts/release/recent-trade-momentum-package.ts:824-828 | no event and no changed state exactly when both vintages agree on keys, values and update states |
| `Parentheses.ParentheticalSegments` | scripts/catalog/product-translation-structure.ts:204-219 | exactly the pairs with a balanced text between them, each once, by increasing closing position, with the text inside and its place |
| `Parentheses.SegmentIff` | scripts/catalog/product-translation-structure.ts:204-219 | a text at a place is reported exactly when it is balanced and stands between two brackets there |
| `Parentheses.NestedOrDisjoint` | scripts/catalog/product-translation-structure.ts:204-219 | any two reported pairs are nested or disjoint |
| `Parentheses.MatchIsUnique` | scripts/catalog/product-translation-structure.ts:204-219 | a bracket has at most one partner |
| `Parentheses.ClosesSegmentIff` | scripts/catalog/product-translation-structure.ts:209-216 | a ")" closes a segment exactly when the text was earlier no higher than right after it; unmatched ones yield nothing |
| `Parentheses.OpensSegmentIff` | scripts/catalog/product-translation-structure.ts:206-216 | a "(" opens a segment exactly when the text later comes back down to where it was |
| `ChemicalFormula.ReadSymbol` | scripts/catalog/product-translation-structure.ts:122-140 | the symbol consumed at an index: pair, single capital, or lower case right after a digit, if in the table |
| `ChemicalFormula.SkipDigits` | scripts/catalog/product-translation-structure.ts:118-148 | the inner loop skips all digits and nothing else |
| `ChemicalFormula.ParseIffDerives` | scripts/catalog/product-translation-structure.ts:118-148 | the greedy parse returns a list of units exactly when it derives the text; the derivation is unique |
| `ChemicalFormula.ParseMeans` | scripts/catalog/product-translation-structure.ts:118-148 | greedy parsing succeeds exactly on the derivable texts |
| `ChemicalFormula.ParseChemicalFormulaSymbols` | scripts/catalog/product-translation-structure.ts:118-148 | the loop returns a symbol list exactly when the text is derivable, and then the symbols of its only derivation |
| `ChemicalFormula.IsChemicalFormula` | scripts/catalog/product-translation-structure.ts:109-116 | a word is a formula exactly when it has a derivation of two or more units and a digit, or a lower-case letter without a plural ending |
| `ChemicalFormula.FormulaIff` | scripts/catalog/product-translation-structure.ts:109-116 | by its units: two or more, and one with digits, or one with a lower-case letter while the last does not end in an s |
| `ChemicalFormula.CapitalsAreNoFormula` | scripts/catalog/product-translation-structure.ts:109-116 | a word of capitals alone is no formula, whatever the symbols are |
| `ChemicalFormula.SymbolsAreInTable` | scripts/catalog/product-translation-structure.ts:122-140 | the symbols of a derivation are in the table |
| `ChemicalFormula.LoneLowerCase` | scripts/catalog/product-translation-structure.ts:132-137 | a lower-case letter stands alone only right after a digit |
| `SourceTerms.CollectMatches` | scripts/catalog/product-translation-structure.ts:221-240 | appends the groups of the matches that took part, located by their first occurrence in the match |
| `SourceTerms.CollectedFound` | scripts/catalog/product-translation-structure.ts:221-240 | every collected term is found in the source at the place recorded for it |
| `TermExtraction.LatinNameTerms` | scripts/catalog/product-translation-structure.ts:150-202 | the patterns of the text, and the other patterns of every balanced segment, in order |
| `TermExtraction.ExtractedFound` | scripts/catalog/product-translation-structure.ts:72-107 | whatever the patterns match, every extracted term stands in the source where it is recorded, also those found inside segments |
| `TermExtraction.ExtractedIff` | scripts/catalog/product-translation-structure.ts:72-84 | extracted are exactly the words that are formulas, and the names found by patterns of the text, or by patterns of segments in a segment, at their first place in the match |
| `TermExtraction.FoundIsExtracted` | scripts/catalog/product-translation-structure.ts:150-202 | the group of every match that a pattern of the text reports is among the extracted names |
| `TermExtraction.FindSourceTechnicalTerms` | scripts/catalog/product-translation-structure.ts:72-107 | from text to kept list: distinct values at increasing places where they stand in the source, and each extracted term is a prefix of a kept one |
| `SourceTerms.RetainTerms` | scripts/catalog/product-translation-structure.ts:85-106 | the loop with the seen set and the retained list computes the filter |
| `SourceTerms.KeptTerms` | scripts/catalog/product-translation-structure.ts:85-106 | kept terms are distinct, at strictly increasing indices, and each extracted term is a prefix of a kept one |
| `SourceTerms.KeptIff` | scripts/catalog/product-translation-structure.ts:85-106 | which terms are kept: those whose value is not kept at an earlier place, unless a longer one is kept at their place |
| `SourceTerms.KeptTermsSuffice` | scripts/catalog/product-translation-structure.ts:72-107 | a text includes all kept terms exactly when it includes all extracted ones |
| `SourceTerms.NothingMissingIff` | scripts/catalog/product-translation-structure.ts:57-70 | the checker reports nothing exactly when the text includes every kept term |
| `SourceTerms.PreserveRepairs` | scripts/catalog/product-translation-structure.ts:24-42 | after the repair nothing is missing, a second repair changes nothing, and the translation is still the beginning |
| `SourceTerms.RepairIs` | scripts/catalog/product-translation-structure.ts:24-42 | the repair appends exactly the kept terms that are not included, in order, and nothing when there are none |
| `TranslationText.NormalizedIsSingleSpaced` | scripts/catalog/product-translation-catalog.ts:596-597 | normalised text has single blanks only, and a visible character at both ends unless it is empty |
| `TranslationText.OnlyBlanksRemain` | scripts/catalog/product-translation-catalog.ts:596-597 | no other white space is left in normalised text |
| `TranslationText.SurvivesIffSingleSpaced` | scripts/catalog/product-translation-catalog.ts:596-597 | of the terms a text includes, the whitespace step keeps exactly the single-spaced ones |
| `TranslationText.BuilderPassesCheckIff` | scripts/catalog/product-translation-catalog.ts:328-342 | repaired, qualified and normalised, a description passes the formula and Latin-name check exactly when every extracted term is single spaced, which is so exactly when every kept one is |
| `TranslationText.QualifierIsThere` | scripts/catalog/product-translation-structure.ts:44-55 | a description whose source asks for the scope qualifier has it; another is the repaired text and no more |
| `TranslationText.SpacedTermFailsCheck` | scripts/catalog/product-catalog-artifact.ts:675-688 | whatever else is extracted, one extracted term with other white space fails the check for every translation |
| `TranslationText.SpacedMatchFails` | scripts/catalog/product-translation-catalog.ts:328-342 | from the source on: a name with other white space that a pattern of the text finds makes every translation fail, whatever the patterns find besides |
| `TranslationText.DoubleBlankFails` | scripts/catalog/product-translation-catalog.ts:596-597 | "species Aa  bb" is such a source, for all patterns that find its name; `PatternsFindIt` gives some |
| `NumericTokens.NumericTokensWithOffsets` | scripts/catalog/product-catalog-artifact.ts:1419-1426 | exactly the maximal numbers of the text, each once, ascending and disjoint |
| `NumericTokens.TokensAreUnique` | scripts/catalog/product-catalog-artifact.ts:1419-1426 | there is one such list of tokens, so the answer of the check is determined by the two texts |
| `NumericTokens.EveryDigitIsCovered` | scripts/catalog/product-catalog-artifact.ts:1419-1426 | every digit lies in a token |
| `NumericTokens.MarksJoin` | scripts/catalog/product-catalog-artifact.ts:1419-1426 | each of the three marks joins the digits around it to one number |
| `Numerals.GroupedIff` | scripts/catalog/product-catalog-artifact.ts:1505-1507 | the pattern of grouped numerals matches exactly one to three digits, groups of three behind commas, and perhaps a fraction |
| `Numerals.NormalFormIsReading` | scripts/catalog/product-catalog-artifact.ts:1505-1510 | the normal form of a numeral is what it says, digits before and after the mark, written with a point and without groups |
| `Numerals.SameNormalFormIff` | scripts/catalog/product-catalog-artifact.ts:1505-1510 | two numerals have the same normal form exactly when they say the same |
| `Numerals.FormsAgree` | scripts/catalog/product-catalog-artifact.ts:1505-1510 | grouped and ungrouped, and with any of the three marks where nothing is grouped, a numeral has one normal form |
| `Numerals.NormalFormKeepsReading` | scripts/catalog/product-catalog-artifact.ts:1505-1510 | normalising keeps what a numeral says, and is idempotent on numerals |
| `Numerals.NormalFormAt` | scripts/catalog/product-catalog-artifact.ts:1505-1510 | of any other text every ‧ and the first comma become a point, and no other character changes |
| `Numerals.NormalizesOnceIff` | scripts/catalog/product-catalog-artifact.ts:1505-1510 | on any text, normalising is idempotent exactly when it is grouped or has no second comma |
| `Numerals.TwiceIsNotOnce` | scripts/catalog/product-catalog-artifact.ts:1505-1510 | it is not on "1,2,3" |
| `NumericTokens.MaterialAt` | scripts/catalog/product-catalog-artifact.ts:1137-1147 | required are exactly the numbers that no filter sets aside, in order |
| `NumericTokens.OneMarkIsRead` | scripts/catalog/product-catalog-artifact.ts:1419-1426 | a number with at most one mark is a numeral |
| `NumericTokens.LeftOverNumbers` | scripts/catalog/product-catalog-artifact.ts:1135-1159 | the splicing loop leaves, in source order, exactly the multiset difference of normalised numbers, empty exactly when the translation contains all required ones |
| `NumericTokens.SurplusIsDifference` | scripts/catalog/product-catalog-artifact.ts:1131-1160 | of each number max(0, required − available) entries are left |
| `NumericTokens.SurplusIsBeyondAvailable` | scripts/catalog/product-catalog-artifact.ts:1131-1160 | left over are the occurrences beyond the available ones, counted from the front |
| `NumericTokens.NothingMissingIff` | scripts/catalog/product-catalog-artifact.ts:1131-1160 | nothing is missing exactly when the translation's multiset contains the required one |
| `NumericTokens.IncludedIffReadings` | scripts/catalog/product-catalog-artifact.ts:1135-1159 | of numerals, normal forms are included exactly when what they say is |
| `NumericTokens.LeftOverReadings` | scripts/catalog/product-catalog-artifact.ts:1135-1159 | what is left over says what the required numbers say beyond the available ones |
| `NumericTokens.MissingMaterialNumericTokens` | scripts/catalog/product-catalog-artifact.ts:1131-1160 | tokenizers and matcher together: maximal numbers of both texts, their multiset difference; of numerals, nothing is missing exactly when the translation says every required number often enough |
| `CatalogCoverage.ValidateCoverage` | scripts/catalog/product-catalog-artifact.ts:641-674 | accepts exactly when products and translations are in bijection by code, as many as declared, and each translation passes its text checks |
| `CatalogCoverage.LookupIsSafe` | scripts/catalog/product-catalog-artifact.ts:425-441 | after the checks the look-up of every product succeeds, and every translation is used by a product |
| `CatalogCoverage.SubsetOfSameSize` | scripts/catalog/product-catalog-artifact.ts:641-661 | the pigeonhole step: known codes, as many as there are products, are all codes |
| `Common.SetSizeIff` | scripts/catalog/product-catalog-artifact.ts:1700-1704 | uniqueness, as it is checked: the set is as large as the list exactly when no value repeats |
| `PinnedDownload.Workspace.DownloadPinnedArchive` | scripts/release/baci-source-staging.ts:404-534 | one run, step by step with offset and append, is the run function on the file map |
| `PinnedDownload.RunIsSafe` | scripts/release/baci-source-staging.ts:404-553 | for any server and any failing step, only pinned bytes arrive at the archive path, and a pinned archive is never touched |
| `PinnedDownload.RunsAreSafe` | scripts/release/baci-source-staging.ts:404-553 | the same over every sequence of interrupted runs |
| `PinnedDownload.RunKeepsPrefix` | scripts/release/baci-source-staging.ts:431-573 | with a server whose trusted answers send the range they name, a partial that is a prefix of the pinned bytes stays one, cut or not, and no mismatch is raised; nothing is assumed of other answers |
| `PinnedDownload.RunsKeepPrefix` | scripts/release/baci-source-staging.ts:431-573 | over every sequence of runs with honest servers the partial stays a prefix, and no run ends in a mismatch |
| `PinnedDownload.CutKeepsWhatArrived` | scripts/release/baci-source-staging.ts:490-500 | an interrupted transfer leaves exactly the content up to the cut when it resumed, and exactly what it received when it started over |
| `PinnedDownload.NothingIsLost` | scripts/release/baci-source-staging.ts:404-553 | with an honest server and whatever fails, a prefix in the partial file never shrinks unless the server starts over or the archive is accepted |
| `PinnedDownload.SteadyRunProgresses` | scripts/release/baci-source-staging.ts:404-534 | when every honest answer delivers at least a byte, a run makes the partial file longer or accepts it |
| `PinnedDownload.SteadyRunsFinish` | scripts/release/baci-source-staging.ts:404-534 | so one run more than there are bytes left ends with the pinned archive; the last accepts what a cut transfer completed |
| `PinnedDownload.ArrivedIsJudged` | scripts/release/baci-source-staging.ts:517-553 | an answer that arrives to its end is kept when too short, removed when too long, and otherwise accepted exactly when it is the pinned content |
| `PinnedDownload.OversizedIsRemoved` | scripts/release/baci-source-staging.ts:431-438 | a partial file that is too large is removed before anything is requested |
| `PinnedDownload.UncutRunFinishesIff` | scripts/release/baci-source-staging.ts:404-553 | an uncut run finishes exactly when the files it finds are not spoiled; otherwise it clears them away |
| `PinnedDownload.TwoUncutRunsSuffice` | scripts/release/baci-source-staging.ts:404-553 | from any files at all, two uncut runs end with the pinned content |
| `CoverageGate.CompareCoverage` | scripts/release/baci-source-staging.ts:1268-1315 | the nested loops list the differences of both sides by ascending year and field |
| `CoverageGate.CoverageAgreesIff` | scripts/release/baci-source-staging.ts:1268-1315 | no differences exactly when both sides are the same map keyed by year, in every field |
| `CoverageGate.DifferenceIff` | scripts/release/baci-source-staging.ts:1268-1315 | a difference is reported exactly when the last checks of both sides differ there or one side has none, and each column holds its own side's value |
| `CoverageGate.ValuesAreTheirs` | scripts/release/baci-source-staging.ts:1300-1310 | the value of a field is that field of the check and no other |
| `CoverageGate.DifferencesInOrder` | scripts/release/baci-source-staging.ts:1283-1310 | by ascending year, and within a year in the order of the fields, each once |
| `CoverageGate.SwapSwapsColumns` | scripts/release/baci-source-staging.ts:1268-1315 | swapping the sides only swaps the two value columns, in the same order |
| `CoverageGate.ValidateAndStage` | scripts/release/baci-source-staging.ts:799-856 | each year is checked in order, and staged exactly when its approved check agrees |
| `CoverageGate.NoDifferencesStagesEveryYear` | scripts/release/baci-source-staging.ts:805-856 | without differences there is one partition for each ingested year, ascending, with its row count |
| `CoverageGate.StagedIff` | scripts/release/baci-source-staging.ts:811-852 | a year has a partition exactly when it was ingested and its last approved check is the one that was read |
| `CoverageGate.ManifestPassesRecheck` | scripts/release/analysis-artifact.ts:1603-1617 | a manifest written by such a run passes the row-sum check of the next stage |
| `CoverageGate.RecheckNotices` | scripts/release/analysis-artifact.ts:1603-1617 | the re-check notices a changed row count of any partition, and a changed total |
| `Publication.Workspace.BuildAndPublish` | scripts/catalog/product-catalog-artifact.ts:570-606 | one build with its failing steps and clean-up is the build function on the store |
| `Publication.BuildIsSafe` | scripts/release/analysis-artifact.ts:463-498 | one build keeps all that was visible and adds at most its own directory, complete; a failing catalogue build adds nothing |
| `Publication.AcceptedIff` | scripts/release/analysis-artifact.ts:463-498 | a build is accepted exactly when its steps succeed and its path is free or what is there agrees: every file of a staging, data and manifest of the others |
| `Publication.RepeatedBuildIsAccepted` | scripts/release/baci-source-staging.ts:1370-1419 | repeating a build is accepted and changes nothing that is visible |
| `Publication.ReportIsNotCompared` | scripts/release/analysis-artifact.ts:1620-1646 | an artifact or a catalogue that differs from the one that is there in a file other than data and manifest, as the build report is, counts as the same publication: what is there is kept |
| `Publication.BuildsAreSafe` | scripts/release/baci-source-staging.ts:369-402 | over any sequence of failing and successful builds, whatever is visible is complete and is never altered |
| `Publication.FailingBuildPublishes` | scripts/release/analysis-artifact.ts:481-498 | a staging or artifact build in which only the report cannot be put in place fails, and its publication is visible |
| `PublishPair.Directory.PublishPair` | scripts/catalog/product-translation-catalog.ts:651-691 | the run with its probes, writes, renames and roll-back is the publish function on the file map |
| `PublishPair.BothOrNeither` | scripts/catalog/product-translation-catalog.ts:651-691 | a run leaves both outputs or neither and touches nothing else; two equal output paths always fail |
| `PublishPair.DoneIff` | scripts/catalog/product-translation-catalog.ts:651-691 | a run is done exactly when nothing fails, the probe sees neither output, and the outputs are two |
| `PublishPair.FailedWriteLeaves` | scripts/catalog/product-translation-catalog.ts:673-685 | a run that fails while writing leaves what was there and what is written late, and nothing else |
| `PublishPair.ExistingFilesKeptIff` | scripts/catalog/product-translation-catalog.ts:693-700 | existing files are safe from every run exactly when the probe overlooks no existing output |
| `PublishPair.OverlookedOutputIsLost` | scripts/catalog/product-translation-catalog.ts:672-685 | two outputs of which the probe misses the existing first one: the second rename fails, and the run leaves no file at all |
| `PublishPair.ExistingOutputRefused` | scripts/catalog/product-translation-catalog.ts:672-672 | where the probe sees what exists, an existing output fails the run and nothing changes |
| `AnalysisTables.JoinRowCount` | scripts/release/analysis-artifact.ts:586-588 | a trade row joins as often as its code occurs among the products |
| `AnalysisTables.UniqueAndKnown` | scripts/release/baci-source-staging.ts:952-966 | unique codes that cover the trade give every row one product |
| `AnalysisTables.JoinIsTotalAndUniqueIff` | scripts/release/analysis-artifact.ts:586-588 | every row joins once exactly when each traded code belongs to one product |
| `AnalysisTables.JoinIsOneToOne` | scripts/release/analysis-artifact.ts:572-594 | then the bilateral rows are the trade rows, one for one |
| `AnalysisTables.JoinKeepsKeysUnique` | scripts/release/baci-source-staging.ts:1131-1145 | trade keys that are unique, as staging checks, stay unique in the bilateral table |
| `AnalysisTables.MarketColumnIsGroupBy` | scripts/release/analysis-artifact.ts:595-625 | every column of the market table is a grouped sum of the bilateral rows (quantities that are null as 0; see `QuantityIsNullIff`) |
| `AnalysisTables.CellColumn` | scripts/release/analysis-artifact.ts:607-623 | a cell's column is the sum over exactly the rows of its year, product and importer |
| `AnalysisTables.SupplierCountIsExporters` | scripts/release/analysis-artifact.ts:612-612 | with unique keys a cell's supplier count is the number of different exporters that supply its market |
| `AnalysisTables.QuantityIsNullIff` | scripts/release/analysis-artifact.ts:618-619 | a cell's sum of quantities is null exactly when none of its rows has a quantity |
| `AnalysisTables.CellIsBounded` | scripts/release/analysis-artifact.ts:611-616 | square-sum ≤ total² ≤ supplier count × square-sum in every cell |
| `AnalysisTables.AnnualTotalsAgree` | scripts/release/analysis-artifact.ts:626-639 | per year the bilateral, market and product totals are equal, and so are the other market columns |
| `AnalysisTables.MarketTableMeans` | scripts/release/analysis-artifact.ts:595-625 | the market table straight from the bilateral rows: one cell for each year, product and importer traded, each column read off exactly the rows of all three |
| `AnalysisTables.ProductTableMeans` | scripts/release/analysis-artifact.ts:626-639 | the product table straight from the bilateral rows: one row for each year and product traded, with the value of exactly the rows of both |
| `AnalysisTables.ReconcileArtifact` | scripts/release/analysis-artifact.ts:762-798 | accepts exactly when all four lists have the same length and agree year by year |
| `AnalysisTables.SourceReportIsTrue` | scripts/release/baci-source-staging.ts:1183-1216 | under the product checks of staging, the annual checks that staging reads off the trade rows are the totals of the joined table |
| `AnalysisTables.OnlyStagingReconciles` | scripts/release/analysis-artifact.ts:715-798 | accepted staging reconciles: of tables built from the trade, the reconciliation accepts exactly the report that staging writes of that trade |
| `AnalysisTables.ArtifactTables.InsertTrade` | scripts/release/analysis-artifact.ts:572-625 | the two inserts that read the trade files |
| `AnalysisTables.ArtifactTables.PopulateArtifactTables` | scripts/release/analysis-artifact.ts:572-648 | after all statements the tables are join, roll-up and second roll-up; each holds, row by row, what the bilateral rows of its key say; and an economy has evidence exactly when it had or trades |
| `GroupTotals.GroupByIsExact` | scripts/release/analysis-artifact.ts:632-638 | grouping gives each key one group, and over any selection of keys loses nothing |
| `GroupTotals.GroupAmount` | scripts/release/opportunity-index.ts:703-706 | a group's amount is the sum over the rows of its key |
| `FixedPoint.ParsePrinted` | scripts/release/analysis-artifact.ts:2016-2022 | printing then parsing is the identity on naturals |
| `FixedPoint.PrintParsedIff` | scripts/release/analysis-artifact.ts:2016-2022 | parsing then printing is the identity exactly on numerals without redundant leading zeros |
| `FixedPoint.OneMoreDigit` | scripts/release/analysis-artifact.ts:2016-2022 | every digit counts in its place |
| `FixedPoint.ThousandthsCount` | scripts/release/analysis-artifact.ts:2016-2022 | the three digits behind the point are thousandths |
| `FixedPoint.PrintedFixed3` | scripts/release/analysis-artifact.ts:2021-2021 | a printed total has exactly three decimals and parses to the total |
| `FixedPoint.PrintMillsIff` | scripts/release/analysis-artifact.ts:2016-2022 | three-place strings survive the round trip exactly when the whole part has no redundant zero |
| `FixedPoint.SumFixed3IsExact` | scripts/release/analysis-artifact.ts:2016-2022 | the printed sum has three decimals and is the exact sum of the parsed inputs |
| `FixedPoint.SumOfSums` | scripts/release/analysis-artifact.ts:2016-2022 | however the values are grouped, adding the printed sums of the groups gives the printed sum of all |
| `FixedPoint.SumFixed3Permuted` | scripts/release/analysis-artifact.ts:2016-2022 | the result does not depend on the order |
| `LaunchEvidence.CollectPlaywrightSpecs` | scripts/promotion/measure-market-analysis-launch.ts:1041-1084 | whatever the nesting, the map that the walk hands on and changes ends as the fold over all specs of the tree |
| `ReportTrees.EverySpecOnce` | scripts/promotion/measure-market-analysis-launch.ts:1041-1084 | whatever the nesting, the specs visited are those at all places of the tree, each place exactly once |
| `LaunchEvidence.ObservedIff` | scripts/promotion/measure-market-analysis-launch.ts:1092-1098 | the fold marks an id exactly when it was recorded once, with an outcome that passed |
| `LaunchEvidence.SpecEventsMean` | scripts/promotion/measure-market-analysis-launch.ts:1058-1079 | a spec contributes its tags, passed exactly when it is ok, has tests, and every test was expected and passed in its last result; it is malformed exactly when one of its tests up to the first that is not good cannot be judged |
| `LaunchEvidence.TaggedOnceMeans` | scripts/promotion/measure-market-analysis-launch.ts:1021-1039 | an id has evidence exactly when one spec of the report is tagged with it, at one place, and that spec is good |
| `LaunchEvidence.VerifyPlaywrightReport` | scripts/promotion/measure-market-analysis-launch.ts:1021-1039 | accepts exactly when every required id is tagged at one place of the whole report, by a good spec; malformed reports are told apart |
| `LaunchEvidence.VerifyVitestReport` | scripts/promotion/measure-market-analysis-launch.ts:983-1019 | the same for the contract-test report, over all assertions of all test files: one place, and status passed or pass there |
| `ReportTrees.VerdictIgnoresOrder` | scripts/promotion/measure-market-analysis-launch.ts:1041-1098 | specs that contribute the same, visited in any other order, give the same evidence and are malformed together |
| `ReportTrees.ReportOrderDoesNotMatter` | scripts/promotion/measure-market-analysis-launch.ts:1041-1084 | reordering arrays of the report at any depth (suites, specs, files; the tests of one spec keep their order) leaves the verdict as it is: both reports are malformed or neither, and the same ids are tagged once by a passing spec |
| `MarketRequests.Workspace.LoadMarketAnalysisForCandidate` | src/app/discovery-workspace.tsx:383-397 | starting a request on the refs is the Load step |
| `MarketRequests.Workspace.Settle` | src/app/discovery-workspace.tsx:407-432 | what follows an answer, early or late, is the Deliver step |
| `MarketRequests.Workspace.ClearMarketAnalysisResult` | src/app/discovery-workspace.tsx:253-261 | clearing is the Clear step |
| `MarketRequests.Workspace.AbortCurrent` | src/app/discovery-workspace.tsx:640-643 | aborting without clearing is the Abort step |
| `MarketRequests.EveryStateIsSound` | src/app/discovery-workspace.tsx:383-435 | in every interleaving: status is success exactly when a payload is held, and only the newest request can be un-aborted |
| `MarketRequests.CommitsIff` | src/app/discovery-workspace.tsx:407-415 | a payload is committed exactly when it answers the newest request and that was not aborted; the sequence number never adds to the abort signal |
| `MarketRequests.ViewIsLastAnswer` | src/app/discovery-workspace.tsx:383-432 | read off the run: what is shown is the answer that arrived in time and that nothing has emptied since, the payload or the status of the error, with a delay only for a rate limit; without such an answer nothing is shown |
| `MarketRequests.AtMostOneLive` | src/app/discovery-workspace.tsx:389-393 | at most one outstanding request is un-aborted, even if aborting does not stop the transport |
| `MarketRequests.CommitsAtMostOnce` | src/app/discovery-workspace.tsx:407-415 | no request commits twice |

## Left out

- DuckDB, Parquet, zip archives, S3, fetch and the real file system: only their effects appear (folds over rows, maps of files, bodies that may be cut).
- SHA-256 is an abstract injective identity; a size and a digest identify a content.
- Regular-expression engines, Unicode normalisation and script classes: matches are arbitrary located substrings, NFC and NFKC are the identity, and the evidence-tag pattern is a parameter.
- The tariff, structural and restatement filters of the number check are one parameter; the floating-point comparison inside the restatement filter is not part of this model.
- The widths of DECIMAL(38,3), DECIMAL(38,6), USMALLINT and BIGINT columns: an overflow raises an error and no wrong total. Values are exact integers in thousandths or in euros; conversions between big integers and numbers are taken as exact.
- The order of rows a SQL `ORDER BY` produces is not modelled where it only affects physical layout; `GROUP BY` rows are taken in order of first appearance, and totals that are read without an order do not depend on it.
- The nested look-up map of markets is one map keyed by product and importer.
- Sorting by `localeCompare`: reporters, products and months of the grid are taken as lists that are already in order, and rows in any order (`OutcomeIgnoresOrder`).
- The CN-to-HS12 mapping is looked up in a map with one entry for each edition and code; how it is computed, and which editions a list of months needs, is not modelled.
- `computeOpportunityCohort`, `candidateToIndexRow` and `computeRecentTradeMomentumV1` are function parameters.
- A market month's reporter number and its constant `excludedSpecialValueEur` of 0; partner ISO codes and mapping statuses of staged rows, which the aggregation does not read.
- Selection of eligible exporters, size gates, benchmark selectors, dictionaries, timings, memory measurement and progress callbacks of the index build, and `publishIndex`, which replaces a directory.
- Validation of the shape of manifests, descriptors and reports; command lines.
- Checks of a translation's text other than formulas, Latin names and numbers (units, inequalities, scope qualifiers) are one parameter of the coverage check.
- Concurrent writers, and clean-up steps that themselves fail.
- Focus, rendering and messages of the workspace; other requests than Market Analysis.
- The reconciliation of launch evidence outside the two test reports.
- MomentumRows.BuildMomentumRows: assumes reporter and product codes without a bar, as ISO and HS codes are; with bars two places could share a joined key.
- GridKeys.UniqueIffListsAreDistinct: makes the same assumption on the codes.
- SourceMonths.MonthOfSource: makes the same assumption on the reference and the place, as do `OutcomeOfSource`, `OneRowMore` and `MomentumHistories.MomentumRowsMean`; `StageIs` and `IdentifiedIsAdmissible` need none.
- RevisionMeaning.ReportMeans: assumes unique rows and codes without a bar in both vintages, as do `CountsMean`, `DeltaMeans` and `AffectedIff`.
- MarketMonths.MonthByCoordinates: makes the same assumption on the codes of the place and of the rows; `MonthSaysWhatRowsSay` and `MonthCountsAndState` speak of the joined key and need none.
- Reconciliation.ReconciledIffOnGrid: makes the same assumption on the codes of the grid and of the rows; `SourceIsGridAndOutside` needs none.
- Revision.RevisionKeyIsInjective: makes the same assumption on reporter, partner and CN codes; that the special code is part of the key needs no assumption (`SpecialIsPartOfKey`).
- AnalysisTables.SourceReportIsTrue: of an annual check only the fields that the reconciliation compares, not the numbers of exporters, importers and products.
- PublishPair.Directory.PublishPair: assumes that the random temporary names are new, as a random UUID makes them.
- PinnedDownload.RunKeepsPrefix: speaks of servers whose trusted answers send bytes of the pinned content; safety (`RunsAreSafe`) is for all servers.
- Numerals.NormalFormIsReading: numbers with several marks that are not grouped are no numerals; of them `NormalFormAt` says what the normal form is.
