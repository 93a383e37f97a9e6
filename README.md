# sigpep core, modelled in Dafny

SigPep looks for signature peptides: peptides of a protein that tell it apart from a background of other peptides. It also looks for signature transitions, the product ions that identify a peptide in a mass spectrometer. This project models these pieces of that system and proves properties of them:

- **First-match signature search** (`FindFirstMapProductIonScanner`):
  - combination sizes are tried in ascending order, and the combinations of one size in the enumerator's order;
  - each combination is scored by the exclusion score calculator;
  - the first non-empty score map is the answer. A failing scoring task aborts the search.
- **Splice event analysis** (`SpliceEventAnalyser`):
  - the `--key=value` command-line parser;
  - the four proteome maps fetched from query rows (group into sets, or keep the last value);
  - the 1000-wide windowing of the peptide ID array;
  - the per-peptide classification that decides whether a report row is written and what it holds: the spanning test, the splice-event-specific and isoform-specific flags, the translation events, the genes and their counts, and the multi-gene override.
- **Mass matrix report** (`SignatureTransitionMassMatrix.write`): the row layout, that is, a `bc` row, the `tg` rows, then the `bg` rows. Each m/z cell is an opaque (ion, charge) value.
- **Peptide check form** (`PeptideCheckForm`):
  - joining a set of accessions into text (`getSetAsString`);
  - finding the requested peptide among the background peptides;
  - choosing the confirmation message.
- **Results table** (`ResultsTable.generateFileName`): the file name up to its first dot.

The modules:

- `JavaLang`: the Java behaviour the code relies on.
  - Exceptions are error values (`Result`), and null is `None`.
  - `String.indexOf`, `lastIndexOf`, `substring`, `split` (with its trailing-empty-field rule) and `replace`.
  - `Int32`, the range of a Java int.
- `ProductIonScanner`: the search. The combination enumerator and the score calculator are parameters.
- `Tables`: the two map-filling loops and what they build.
- `SpliceEventArguments`: the command-line parser.
- `SpliceEventWindows`: the windowing loop, as written and corrected (see Findings).
- `SpliceEventCoverage`: the per-peptide analysis. `ExpectedRow` is its reference definition, built from sets; the lemmas state what each column of a row means.
- `SpliceEventAnalysis`: the analyser object, with its four map fields and `mapsFetched`, and the report loop over windows and peptides, with the corrected windows and as written.
- `MassMatrix`: the mass matrix row layout.
- `PeptideCheck`: the peptide check form logic.
- `ResultsTable`: the file name helper.

Java HashSets are Dafny sets. A loop over a HashSet picks its elements in an unspecified order, and the proved results do not depend on that order. Lists and sets that are only read are given as sequences in their iteration order.

## Model

| member | source | states |
|---|---|---|
| ProductIonScanner.GetUniqueProductIonCombinations | trunk/sigpep-app/src/main/java/com/compomics/sigpep/analysis/impl/FindFirstMapProductIonScanner.java:52-91 | The result is the first-match outcome over the combinations of the matrix's key set for sizes min..max, in ascending size and enumeration order. min > max scores nothing and gives the empty map. The scored combinations are a prefix of that order (early exit), and all but the last were quiet. A non-empty map or a failure is the last scored combination's outcome. An empty result means every combination was scored and was quiet. |
| ProductIonScanner.ScanSize | trunk/sigpep-app/src/main/java/com/compomics/sigpep/analysis/impl/FindFirstMapProductIonScanner.java:66-87 | The combinations of one size are scored in order until one is not quiet. Its outcome (a non-empty map or an exception) is returned, and every combination before it was quiet. If none breaks off, the result is the empty map. The result is the first-match outcome of that size's combinations. |
| ProductIonScanner.HitIsFirstMatch | trunk/sigpep-app/src/main/java/com/compomics/sigpep/analysis/impl/FindFirstMapProductIonScanner.java:75-80 | A non-quiet outcome at position n of size k, after only quiet outcomes, is the first match of the whole search. The combinations up to it are a prefix of the search order. |
| ProductIonScanner.FirstMatchByPosition | trunk/sigpep-app/src/main/java/com/compomics/sigpep/analysis/impl/FindFirstMapProductIonScanner.java:73-86 | A result that is not quiet is exactly the outcome of some candidate whose predecessors were all quiet; a failure aborts the search with that failure. A quiet result is the empty map, and then every candidate was quiet. |
| ProductIonScanner.FirstMatchIsMinimal | trunk/sigpep-app/src/main/java/com/compomics/sigpep/analysis/impl/FindFirstMapProductIonScanner.java:63-80 | A non-empty result comes from some size k in [min, max] at some position i. Every combination of every smaller size scored quiet, and so did those before position i. |
| ProductIonScanner.AllQuietGivesEmpty | trunk/sigpep-app/src/main/java/com/compomics/sigpep/analysis/impl/FindFirstMapProductIonScanner.java:57-90 | When every combination of every size scores an empty map, the search returns the empty map. |
| ProductIonScanner.FirstMatchAppend | trunk/sigpep-app/src/main/java/com/compomics/sigpep/analysis/impl/FindFirstMapProductIonScanner.java:62-88 | Over a concatenation of candidates, the first part decides unless it is quiet throughout; then the second part decides. |
| ProductIonScanner.AppendSize | trunk/sigpep-app/src/main/java/com/compomics/sigpep/analysis/impl/FindFirstMapProductIonScanner.java:63-65 | Extending the sizes by k appends the enumeration of size k after those of the smaller sizes. |
| SpliceEventArguments.ParseArgumentMeaning | sigpep-app/src/main/java/com/compomics/sigpep/analysis/SpliceEventAnalyser.java:668-669 | An argument parses iff it has an "=" followed, somewhere later, by a character other than "="; otherwise it fails with an array index error. The key is the text before the first "=" with every "--" removed. The value is the text from the first "=" to the next "=" or the end. |
| SpliceEventArguments.SplitInTwo | sigpep-app/src/main/java/com/compomics/sigpep/analysis/SpliceEventAnalyser.java:668-669 | split("=") yields at least two pieces iff "=" occurs and some later character is not "=". The first two pieces are then the text before the first "=" and the text up to the next one. |
| SpliceEventArguments.NoDoubleDashRemains | sigpep-app/src/main/java/com/compomics/sigpep/analysis/SpliceEventAnalyser.java:668 | Removing "--" leaves no "--" in the key. |
| SpliceEventArguments.ParseCommandLineArguments | sigpep-app/src/main/java/com/compomics/sigpep/analysis/SpliceEventAnalyser.java:662-675 | The result is a map iff every argument parses, and otherwise an array index error. The map holds exactly the parsed keys, each with the value of the last argument that has that key. |
| Tables.PutAll | sigpep-app/src/main/java/com/compomics/sigpep/analysis/SpliceEventAnalyser.java:412-417 | The put loop maps exactly the keys of the rows, each to the value of the last row with that key. |
| Tables.PutKeepsLastValue | sigpep-app/src/main/java/com/compomics/sigpep/analysis/SpliceEventAnalyser.java:416 | One put keeps the map equal to the last-value map of the rows extended by that row. |
| Tables.GroupIntoSets | sigpep-app/src/main/java/com/compomics/sigpep/analysis/SpliceEventAnalyser.java:381-391 | The group-by loop maps exactly the keys of the rows, each to the set of all values paired with it in some row. |
| Tables.AddKeepsGroups | sigpep-app/src/main/java/com/compomics/sigpep/analysis/SpliceEventAnalyser.java:469-473 | Creating the key's set if it is missing and then adding the value keeps the map equal to the grouping of the rows extended by that row. |
| SpliceEventAnalysis.SpliceEventAnalyser.constructor | sigpep-app/src/main/java/com/compomics/sigpep/analysis/SpliceEventAnalyser.java:70-80 | A new analyser has not fetched its maps. |
| SpliceEventAnalysis.SpliceEventAnalyser.FetchMaps | sigpep-app/src/main/java/com/compomics/sigpep/analysis/SpliceEventAnalyser.java:187-200 | sequence→proteins and gene→sequences collect every value of their query rows. protein→gene and gene→protein count keep the last value per key. mapsFetched is left unchanged. |
| SpliceEventAnalysis.SpliceEventAnalyser.ReportSpliceEventCoverageForPeptides | sigpep-app/src/main/java/com/compomics/sigpep/analysis/SpliceEventAnalyser.java:124-182 | Without fetched maps, the maps are filled from the query rows; with them, the maps are unchanged. mapsFetched is unchanged. The report fails iff some analysed peptide's analysis throws, and the failure is that peptide's exception. Every written row is the expected row of an analysed peptide. Without a failure, the written rows are exactly the expected rows of the analysed IDs (with the corrected windows). |
| SpliceEventAnalysis.ReportWindows | sigpep-app/src/main/java/com/compomics/sigpep/analysis/SpliceEventAnalyser.java:154-181 | Window by window, each given batch of IDs is analysed as one session. The analysed IDs are the union of the batches, whichever windows cut them. No failure iff every analysed ID's analysis succeeds. A failure is the exception of an analysed ID. Every written row is the row of an analysed ID, and without a failure the rows written are exactly the rows of the analysed IDs. |
| SpliceEventAnalysis.ReportAsWrittenWindows | sigpep-app/src/main/java/com/compomics/sigpep/analysis/SpliceEventAnalyser.java:154-181 | The report loop with the windows as written: the same failure and row statements as ReportWindows, over exactly the IDs at positions below the last. |
| SpliceEventAnalysis.AsWrittenBatchesCover | sigpep-app/src/main/java/com/compomics/sigpep/analysis/SpliceEventAnalyser.java:156-168 | The as-written windows together hold exactly the IDs at positions 0 .. n-2. |
| SpliceEventAnalysis.AsWrittenSkipsLast | sigpep-app/src/main/java/com/compomics/sigpep/analysis/SpliceEventAnalyser.java:158-166 | The report as written analyses the last ID iff that ID also occurs earlier in the array. For a one-ID array it analyses nothing. |
| SpliceEventAnalysis.ReportBatch | sigpep-app/src/main/java/com/compomics/sigpep/analysis/SpliceEventAnalyser.java:165-173 | The IDs of one window are analysed in an unspecified set order. Without a failure, the rows written so far are exactly those of the earlier IDs and this batch. A failure is the exception of an ID of the batch, and the rows written before it still come from analysed IDs. |
| SpliceEventAnalysis.AnalysePeptide | sigpep-app/src/main/java/com/compomics/sigpep/analysis/SpliceEventAnalyser.java:172 | One peptide's analysis gives its expected row, no row, or its exception. |
| SpliceEventAnalysis.ReportOneMore | sigpep-app/src/main/java/com/compomics/sigpep/analysis/SpliceEventAnalyser.java:171-173 | Appending a peptide's row (if it has one) keeps the written rows equal to the rows of the analysed IDs. |
| SpliceEventAnalysis.BatchesCoverAnalysedIds | sigpep-app/src/main/java/com/compomics/sigpep/analysis/SpliceEventAnalyser.java:156-168 | The corrected windows together hold exactly the IDs of the array. |
| SpliceEventAnalysis.BatchUnionMeaning | sigpep-app/src/main/java/com/compomics/sigpep/analysis/SpliceEventAnalyser.java:156-168 | An ID is in the first n windows iff some window before n holds it. |
| SpliceEventWindows.PeptideIdBatches | sigpep-app/src/main/java/com/compomics/sigpep/analysis/SpliceEventAnalyser.java:156-168 | The windowing loop as written: one set per window, ceil(n/1000) sets. Set b holds the IDs at positions [1000b, min(1000b+1000, n-1)). |
| SpliceEventWindows.WindowIds | sigpep-app/src/main/java/com/compomics/sigpep/analysis/SpliceEventAnalyser.java:164-168 | The set holds exactly the IDs at positions [from, to). |
| SpliceEventWindows.WindowBounds | sigpep-app/src/main/java/com/compomics/sigpep/analysis/SpliceEventAnalyser.java:156-162 | Each window starts inside the array, ends before its last position, and spans at most 1000 positions. |
| SpliceEventWindows.WindowsAscend | sigpep-app/src/main/java/com/compomics/sigpep/analysis/SpliceEventAnalyser.java:156-162 | An earlier window ends at or before the start of a later one, so windows are ascending and disjoint. |
| SpliceEventWindows.WindowsCover | sigpep-app/src/main/java/com/compomics/sigpep/analysis/SpliceEventAnalyser.java:156-168 | A position lies in some window iff it is a position of the array other than the last. |
| SpliceEventWindows.BatchedIds | sigpep-app/src/main/java/com/compomics/sigpep/analysis/SpliceEventAnalyser.java:156-168 | An ID is in some batch iff it occurs before the last position of the array. |
| SpliceEventWindows.SinglePeptideSkipped | sigpep-app/src/main/java/com/compomics/sigpep/analysis/SpliceEventAnalyser.java:158-166 | A one-ID array gives one window, and that window is empty. |
| SpliceEventWindows.CorrectedPeptideIdBatches | sigpep-app/src/main/java/com/compomics/sigpep/analysis/SpliceEventAnalyser.java:156-168 | The windowing loop with windows that end at the end of the array: set b holds the IDs at positions [1000b, min(1000b+1000, n)). |
| SpliceEventWindows.CorrectedWindowBounds | sigpep-app/src/main/java/com/compomics/sigpep/analysis/SpliceEventAnalyser.java:156-162 | Each corrected window is a non-empty range of at most 1000 positions inside the array. |
| SpliceEventWindows.CorrectedWindowsCover | sigpep-app/src/main/java/com/compomics/sigpep/analysis/SpliceEventAnalyser.java:156-168 | A position lies in some corrected window iff it is a position of the array. |
| SpliceEventWindows.CorrectedBatchedIds | sigpep-app/src/main/java/com/compomics/sigpep/analysis/SpliceEventAnalyser.java:156-168 | With the corrected windows, an ID is in some batch iff it occurs in the array. |
| SpliceEventCoverage.CollectFeatureSets | sigpep-app/src/main/java/com/compomics/sigpep/analysis/SpliceEventAnalyser.java:217-234 | The feature loop collects exactly the peptide locations, the splice events and the splice event locations of the features. |
| SpliceEventCoverage.SelectedMeaning | sigpep-app/src/main/java/com/compomics/sigpep/analysis/SpliceEventAnalyser.java:226-233 | A value is among those collected from the splice event features iff some feature's splice event feature yields it. |
| SpliceEventCoverage.CollectSpanning | sigpep-app/src/main/java/com/compomics/sigpep/analysis/SpliceEventAnalyser.java:261-283 | The nested loop yields exactly the peptide locations that span some event location, and exactly the (sequence, event start) pairs of the event locations that some peptide location spans. |
| SpliceEventCoverage.AddSpanning | sigpep-app/src/main/java/com/compomics/sigpep/analysis/SpliceEventAnalyser.java:265-281 | The inner loop adds exactly the peptide locations that span the event location, and the event's pair if any of them does. |
| SpliceEventCoverage.AllSpanIffSameSize | sigpep-app/src/main/java/com/compomics/sigpep/analysis/SpliceEventAnalyser.java:288-292 | The spanning locations are a subset of the peptide locations, and equally many iff every peptide location spans some event location. |
| SpliceEventCoverage.ResolveGenes | sigpep-app/src/main/java/com/compomics/sigpep/analysis/SpliceEventAnalyser.java:304-327 | The gene loop throws a null dereference iff some lookup misses. Otherwise it yields exactly the (accession, start) translation events and the genes of the spanned pairs. The counts are -1 when no gene is found, and otherwise those of some found gene. |
| SpliceEventCoverage.AddProteins | sigpep-app/src/main/java/com/compomics/sigpep/analysis/SpliceEventAnalyser.java:315-325 | The protein loop of one pair throws iff some protein's gene lookup or count lookup misses. Otherwise it adds that pair's translation events and genes. |
| SpliceEventCoverage.AnalyseSpliceEventCoverage | sigpep-app/src/main/java/com/compomics/sigpep/analysis/SpliceEventAnalyser.java:211-365 | The loops with their flag variables compute exactly the reference row ExpectedRow. |
| SpliceEventCoverage.ExactlyOneEvent | sigpep-app/src/main/java/com/compomics/sigpep/analysis/SpliceEventAnalyser.java:236-251 | There is exactly one distinct splice event iff some splice event feature's event equals every other's. |
| SpliceEventCoverage.RowOnlyForOneEvent | sigpep-app/src/main/java/com/compomics/sigpep/analysis/SpliceEventAnalyser.java:251-364 | Without exactly one distinct splice event, no row and no exception. A row means exactly one event: it carries the peptide ID and splice event count 1, and its transcript event is "upstream:downstream" of a feature's event. |
| SpliceEventCoverage.SpecificIffEveryLocationSpans | sigpep-app/src/main/java/com/compomics/sigpep/analysis/SpliceEventAnalyser.java:285-292 | In a row, spliceEventSpecific is 0 or 1, and it is 1 iff every feature's location spans some splice event feature's location. |
| SpliceEventCoverage.IsoformSpecificIffOnePair | sigpep-app/src/main/java/com/compomics/sigpep/analysis/SpliceEventAnalyser.java:267-302 | In a row, isoformSpecificSpliceEvent is 0 or 1, and it is 1 iff exactly one (sequence, start) pair is spanned. The count equals the number of pairs. A pair is listed iff some event location at that sequence and start is spanned by some peptide location. |
| SpliceEventCoverage.GeneColumns | sigpep-app/src/main/java/com/compomics/sigpep/analysis/SpliceEventAnalyser.java:335-347 | In a row:<br>- the gene count is the number of genes;<br>- geneAltSplice is 1 iff at most one gene and a sequence count above 1;<br>- more than one gene forces both counts and geneAltSplice to -1;<br>- no gene gives geneAltSplice 0 and counts -1;<br>- one gene gives that gene's protein count and sequence count. |
| SpliceEventCoverage.SameFeaturesSameRow | sigpep-app/src/main/java/com/compomics/sigpep/analysis/SpliceEventAnalyser.java:216-234 | The row depends only on which features there are, not on their order or repetition. |
| MassMatrix.Write | trunk/sigpep-app/src/main/java/com/compomics/sigpep/report/SignatureTransitionMassMatrix.java:45-108 | The rows written are, in order:<br>- the barcode row;<br>- one tg row per target type;<br>- for each background peptide, one bg row per background type.<br>The transition is a value and cannot change. |
| MassMatrix.TypeRowsOf | trunk/sigpep-app/src/main/java/com/compomics/sigpep/report/SignatureTransitionMassMatrix.java:71-86 | One row per type, in type order. Each row is the tag, the type name, then the m/z cells of the peptide's ions of that type. |
| MassMatrix.MassOverChargeCells | trunk/sigpep-app/src/main/java/com/compomics/sigpep/report/SignatureTransitionMassMatrix.java:63-67 | The nested ion × charge loop yields the m/z cells, ions outer and charges inner. |
| MassMatrix.IonCellsLength | trunk/sigpep-app/src/main/java/com/compomics/sigpep/report/SignatureTransitionMassMatrix.java:63-67 | There is one m/z cell per (ion, charge state) pair. |
| MassMatrix.IonCellAt | trunk/sigpep-app/src/main/java/com/compomics/sigpep/report/SignatureTransitionMassMatrix.java:63-67 | Ion i at charge j is at position i·|charges| + j. |
| MassMatrix.BackgroundRowsLength | trunk/sigpep-app/src/main/java/com/compomics/sigpep/report/SignatureTransitionMassMatrix.java:89-107 | There is one bg row per (background peptide, background type) pair. |
| MassMatrix.BackgroundRowAt | trunk/sigpep-app/src/main/java/com/compomics/sigpep/report/SignatureTransitionMassMatrix.java:89-107 | The bg row of peptide p and type t is row p·|types| + t of the background block. It holds "bg", the type name and the peptide's m/z cells of that type. |
| MassMatrix.MatrixLayout | trunk/sigpep-app/src/main/java/com/compomics/sigpep/report/SignatureTransitionMassMatrix.java:56-107 | The report has 1 + \|target types\| + \|background peptides\|·\|background types\| rows. The first is "bc", "" and the barcode cells; row 1+t is the tg row of target type t; the background block follows. |
| MassMatrix.RowLength | trunk/sigpep-app/src/main/java/com/compomics/sigpep/report/SignatureTransitionMassMatrix.java:75-83 | A row has 2 + (its ions) × \|charge states\| cells. |
| PeptideCheck.JoinElements | trunk/sigpep-webapp-vaadin/src/main/java/com/compomics/sigpep/webapp/form/PeptideCheckForm.java:209-213 | The loop appends each element followed by ", ", in iteration order. |
| PeptideCheck.LastSeparator | trunk/sigpep-webapp-vaadin/src/main/java/com/compomics/sigpep/webapp/form/PeptideCheckForm.java:214 | lastIndexOf(", ") of the joined text is its length minus two, or -1 when there are no elements. |
| PeptideCheck.GetSetAsString | trunk/sigpep-webapp-vaadin/src/main/java/com/compomics/sigpep/webapp/form/PeptideCheckForm.java:208-217 | As written: it succeeds iff the joined text has at least three characters, and then returns the joined text without its last three. Otherwise substring throws. |
| PeptideCheck.SetAsStringDropsLastCharacter | trunk/sigpep-webapp-vaadin/src/main/java/com/compomics/sigpep/webapp/form/PeptideCheckForm.java:214 | The as-written text is every element but the last, each followed by ", ", then the last element without its final character. The empty set and a single empty element throw. |
| PeptideCheck.JoinedIsListed | trunk/sigpep-webapp-vaadin/src/main/java/com/compomics/sigpep/webapp/form/PeptideCheckForm.java:209-214 | The joined text is the elements separated by ", ", followed by ", ". |
| PeptideCheck.CorrectedGetSetAsString | trunk/sigpep-webapp-vaadin/src/main/java/com/compomics/sigpep/webapp/form/PeptideCheckForm.java:208-217 | Cut at lastIndexOf(", "): a non-empty set gives its elements separated by ", ". The empty set still throws. |
| PeptideCheck.ConfirmationMessage | trunk/sigpep-webapp-vaadin/src/main/java/com/compomics/sigpep/webapp/form/PeptideCheckForm.java:173-180 | More than one accession gives the "proteins" message listing them. Exactly one gives the "protein" message with that accession. None gives the unexpected-error text. |
| PeptideCheck.PeptideCheckForm.constructor | trunk/sigpep-webapp-vaadin/src/main/java/com/compomics/sigpep/webapp/form/PeptideCheckForm.java:37 | No peptide has been found yet. |
| PeptideCheck.PeptideCheckForm.FindPeptide | trunk/sigpep-webapp-vaadin/src/main/java/com/compomics/sigpep/webapp/form/PeptideCheckForm.java:143-163 | Found iff some background peptide has the requested sequence. Then the field holds the first such peptide, and the scan stopped right after it. Otherwise every peptide was compared and the field is unchanged. |
| ResultsTable.GenerateFileName | trunk/sigpep-webapp-vaadin/src/main/java/com/compomics/sigpep/webapp/component/ResultsTable.java:141-144 | The result is the name's prefix before the first ".". A name without "." throws. The result has no ".", and the name is the result, ".", then the rest. A name starting with "." gives "". |

## Left out

- Concurrency in the scanner. The executor, the futures and the synchronized map are left out; each task is awaited at once, so scoring is a plain call. InterruptedException and ExecutionException both become the calculator's error value.
- The combination enumerator and the exclusion score calculator are not part of this model. They are parameters, and nothing is claimed about them.
- Floating point. The m/z values, their rounding and the mass precision are left out; a cell is the pair (ion, charge).
- MassMatrix.ProductIonsOf: the precursor ion's product ion lookup is not part of this model. A type the peptide has no entry for is taken to have no ions.
- Databases, Hibernate sessions and queries. The fetched data are parameters:
  - the four query results are given as row sequences;
  - a peptide's features are given as a function of its ID;
  - readPeptideIds and fetchSpliceEventSpanningPeptides are left out because they only query.
- The table writer, the header row, file and output streams, logging (including the every-1000 progress message), System.exit and the main method. The report returns its rows instead.
- The R connection, the Vaadin UI, dialogs, notifications and threads.
- The text rendering of sets (`toString` with the brackets removed). A row keeps these columns as sets.
- A "seqId-start" sequence splice event string is the pair (seqId, start), and an "accession:start" translation event the pair (accession, start). The pairs do not model the string round trip. With a negative sequence ID or a negative start, the string has an extra "-", so sigpep-app/src/main/java/com/compomics/sigpep/analysis/SpliceEventAnalyser.java:310-311 parses an empty field and throws NumberFormatException. The model converts every pair and does not throw there.
- Entities (locations, splice events, peptides) are compared by value, as their equals methods are not part of this model.
- mapsFetched is never set to true by the source, so the maps are fetched again on every report. The model keeps that.
- SpliceEventAnalysis.SpliceEventAnalyser.ReportSpliceEventCoverageForPeptides: states the set of rows written, not their order or multiplicity (HashSet iteration order).
- SpliceEventAnalysis.SpliceEventAnalyser.ReportSpliceEventCoverageForPeptides: uses the corrected windows, so it promises that all IDs are analysed. The source's windows never analyse the last ID. The report with those windows is SpliceEventAnalysis.ReportAsWrittenWindows, which promises only the IDs below the last position (see Findings).
- SpliceEventAnalysis.ReportWindows: states its result over the union of the batches it is given. Only the corrected windows (SpliceEventAnalysis.BatchesCoverAnalysedIds) make that union all IDs. The as-written windows make it the IDs below the last position (SpliceEventAnalysis.AsWrittenBatchesCover).
- SpliceEventAnalysis.SpliceEventAnalyser.constructor: the model assumes construction succeeds. In the source (sigpep-app/src/main/java/com/compomics/sigpep/analysis/SpliceEventAnalyser.java:76-80), the assignment of the sigPepDatabase field is commented out (line 77), so line 79 calls getConnection on null and throws NullPointerException. main builds the analyser this way (line 622). The Hibernate session factory and the connection are not part of this model.
- ProductIonScanner.GetUniqueProductIonCombinations: sizes are unbounded integers. In the source, the size counter is a Java int. With maxCombinationSize equal to Integer.MAX_VALUE and every combination quiet, k++ wraps to Integer.MIN_VALUE and the loop never ends. The model stops after the largest size and returns the empty map.
- PeptideCheck.ConfirmationMessage: lists the accessions with the corrected getSetAsString. The as-written join is modelled and proved separately (see Findings).
- The "peptide not found" notification and the form reset. Only the found flag and the found peptide are modelled.

## Findings

| source | as written | input that shows it | evidently intended | confidence | as-written member | corrected member |
|---|---|---|---|---|---|---|
| sigpep-app/src/main/java/com/compomics/sigpep/analysis/SpliceEventAnalyser.java:158-166 | The last window ends at `peptideIds.length - 1`, and `copyOfRange` excludes that end, so the last peptide ID is never analysed. | A one-element array `[id]`: its only window is empty and no peptide is analysed. | The last window ends at `peptideIds.length`, so every ID is analysed. | high; not executed | SpliceEventWindows.PeptideIdBatches (with SpliceEventWindows.BatchedIds, SpliceEventWindows.SinglePeptideSkipped, and the report SpliceEventAnalysis.ReportAsWrittenWindows with SpliceEventAnalysis.AsWrittenSkipsLast) | SpliceEventWindows.CorrectedPeptideIdBatches (with SpliceEventWindows.CorrectedBatchedIds and SpliceEventAnalysis.BatchesCoverAnalysedIds; used by SpliceEventAnalysis.SpliceEventAnalyser.ReportSpliceEventCoverageForPeptides) |
| trunk/sigpep-webapp-vaadin/src/main/java/com/compomics/sigpep/webapp/form/PeptideCheckForm.java:214 | The joined text is cut at `lastIndexOf(", ") - 1`, which also drops the last character of the last element. | The set {"P1"} gives "P". The set {""} throws. | Cut at `lastIndexOf(", ")`, giving the elements separated by ", ". | high; not executed | PeptideCheck.GetSetAsString (with PeptideCheck.SetAsStringDropsLastCharacter) | PeptideCheck.CorrectedGetSetAsString (used by PeptideCheck.ConfirmationMessage) |
