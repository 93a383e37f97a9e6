/** The splice event analyser object: it holds the four proteome maps that
    its report fills from query rows, cuts the peptide IDs into windows and
    writes one coverage row per peptide that spans exactly one splice
    event. */
module SpliceEventAnalysis {
  import opened JavaLang
  import Tables
  import SpliceEventWindows
  import opened SpliceEventCoverage

  /** The IDs that the corrected window loop hands to the per-peptide
      analysis: all of them. */
  ghost function AnalysedIds(ids: seq<Int32>): set<Int32> {
    set j | 0 <= j < |ids| :: ids[j]
  }

  /** The union of the first n batches. */
  ghost function BatchUnion(batches: seq<set<Int32>>, n: nat): set<Int32>
    requires n <= |batches|
  {
    if n == 0 then {} else BatchUnion(batches, n - 1) + batches[n - 1]
  }

  /** An ID is in the union of the first n batches iff one of them holds it. */
  lemma {:induction false} BatchUnionMeaning(batches: seq<set<Int32>>, n: nat, id: Int32)
    requires n <= |batches|
    ensures id in BatchUnion(batches, n) <==> exists b :: 0 <= b < n && id in batches[b]
  {
    if n > 0 {
      BatchUnionMeaning(batches, n - 1, id);
    }
  }

  /** What the per-peptide analysis gives for each peptide ID. */
  type Analysis = int -> Result<Option<CoverageRow>>

  /** The per-peptide analysis with the peptides' features and the maps. */
  ghost function AnalysisOf(featuresOf: int -> seq<PeptideFeature>, maps: ProteomeMaps): Analysis {
    id => ExpectedRow(id, featuresOf(id), maps)
  }

  /** An analysis that agrees with ExpectedRow on every peptide. */
  ghost predicate Follows(outcome: Analysis, featuresOf: int -> seq<PeptideFeature>, maps: ProteomeMaps) {
    forall id {:trigger ExpectedRow(id, featuresOf(id), maps)} :: outcome(id) == ExpectedRow(id, featuresOf(id), maps)
  }

  /** AnalysisOf is ExpectedRow peptide by peptide. */
  lemma AnalysisOfFollows(featuresOf: int -> seq<PeptideFeature>, maps: ProteomeMaps)
    ensures Follows(AnalysisOf(featuresOf, maps), featuresOf, maps)
  {
  }

  /** analyseSpliceEventCoverage for one peptide of a batch. */
  method AnalysePeptide(peptideId: int, featuresOf: int -> seq<PeptideFeature>, maps: ProteomeMaps, ghost outcome: Analysis)
    returns (r: Result<Option<CoverageRow>>)
    requires Follows(outcome, featuresOf, maps)
    ensures r == outcome(peptideId)
  {
    r := AnalyseSpliceEventCoverage(peptideId, featuresOf(peptideId), maps);
  }

  /** Every analysed ID's analysis succeeded. */
  ghost predicate AllSucceed(done: set<Int32>, outcome: Analysis) {
    forall id :: id in done ==> outcome(id).Ok?
  }

  /** The rows of the IDs whose analysis writes one. */
  ghost function RowsOf(ids: set<Int32>, outcome: Analysis): set<CoverageRow> {
    set id | id in ids && outcome(id).Ok? && outcome(id).value.Some? :: outcome(id).value.value
  }

  /** The rows that occur in the written table. */
  ghost function Written(rows: seq<CoverageRow>): set<CoverageRow> {
    set row | row in rows
  }

  /** Every written row is the row of some analysed ID. */
  ghost predicate RowsFrom(rows: seq<CoverageRow>, done: set<Int32>, outcome: Analysis) {
    Written(rows) <= RowsOf(done, outcome)
  }

  /** The rows written so far are exactly the rows of the analysed IDs, all
      of whose analyses succeeded. */
  ghost predicate Reported(rows: seq<CoverageRow>, done: set<Int32>, outcome: Analysis) {
    AllSucceed(done, outcome) && Written(rows) == RowsOf(done, outcome)
  }

  /** Analysing one more ID that succeeds, and writing its row if it has
      one, keeps Reported. */
  lemma ReportOneMore(rows: seq<CoverageRow>, done: set<Int32>, id: Int32, outcome: Analysis)
    requires Reported(rows, done, outcome)
    requires outcome(id).Ok?
    ensures var out := outcome(id).value;
            Reported(rows + (if out.Some? then [out.value] else []), done + {id}, outcome)
  {
    var out := outcome(id).value;
    var rows' := rows + (if out.Some? then [out.value] else []);
    assert Written(rows') == Written(rows) + (if out.Some? then {out.value} else {});
    assert RowsOf(done + {id}, outcome) == RowsOf(done, outcome) + (if out.Some? then {out.value} else {});
  }

  class SpliceEventAnalyser {
    /** sequence ID -> accessions of the proteins with that sequence */
    var sequenceId2ProteinAccession: map<int, set<string>>
    /** protein accession -> gene accession */
    var proteinAccession2GeneAccession: map<string, string>
    /** gene accession -> number of the gene's proteins */
    var geneAccession2ProteinCount: map<string, int>
    /** gene accession -> IDs of the sequences of the gene's proteins */
    var geneAccession2SequenceId: map<string, set<int>>
    /** whether the maps have been fetched; nothing ever sets it */
    var mapsFetched: bool

    /** A new analyser has not fetched its maps. */
    constructor ()
      ensures !mapsFetched
    {
      mapsFetched := false;
    }

    /** The four maps as the per-peptide analysis reads them. */
    function Maps(): ProteomeMaps
      reads this
    {
      ProteomeMaps(sequenceId2ProteinAccession, proteinAccession2GeneAccession,
                   geneAccession2ProteinCount, geneAccession2SequenceId)
    }

    /** The maps were filled from these query rows: the two set-valued maps
        collect every value paired with a key, the other two keep the last
        value a key is paired with. */
    ghost predicate FetchedFrom(proteinRows: seq<(int, string)>, geneRows: seq<(string, string)>,
                                proteinCountRows: seq<(string, int)>, sequenceRows: seq<(string, int)>)
      reads this
    {
      && Tables.GroupsValues(proteinRows, sequenceId2ProteinAccession)
      && Tables.KeepsLastValue(geneRows, proteinAccession2GeneAccession)
      && Tables.KeepsLastValue(proteinCountRows, geneAccession2ProteinCount)
      && Tables.GroupsValues(sequenceRows, geneAccession2SequenceId)
    }

    /** fetchMaps: each map is built from the rows of its query.
        proteinRows are (sequence ID, protein accession), geneRows (protein
        accession, gene accession), proteinCountRows (gene accession,
        protein count) and sequenceRows (gene accession, sequence ID). */
    method FetchMaps(proteinRows: seq<(int, string)>, geneRows: seq<(string, string)>,
                     proteinCountRows: seq<(string, int)>, sequenceRows: seq<(string, int)>)
      modifies this
      ensures FetchedFrom(proteinRows, geneRows, proteinCountRows, sequenceRows)
      ensures mapsFetched == old(mapsFetched)
    {
      sequenceId2ProteinAccession := Tables.GroupIntoSets(proteinRows);
      proteinAccession2GeneAccession := Tables.PutAll(geneRows);
      geneAccession2ProteinCount := Tables.PutAll(proteinCountRows);
      geneAccession2SequenceId := Tables.GroupIntoSets(sequenceRows);
    }

    /** reportSpliceEventCoverageForPeptides: fetch the maps unless they are
        fetched, then analyse the IDs window by window, each window's IDs as
        a set in no particular order, and return the rows written. The
        first analysis that throws ends the report with that exception,
        after the rows written before it. featuresOf(id) is the peptide's
        features as the per-peptide query returns them. */
    method ReportSpliceEventCoverageForPeptides(peptideIds: seq<Int32>, featuresOf: int -> seq<PeptideFeature>,
                                                proteinRows: seq<(int, string)>, geneRows: seq<(string, string)>,
                                                proteinCountRows: seq<(string, int)>, sequenceRows: seq<(string, int)>)
      returns (rows: seq<CoverageRow>, failure: Option<Exception>)
      modifies this
      ensures mapsFetched == old(mapsFetched)
      ensures !old(mapsFetched) ==> FetchedFrom(proteinRows, geneRows, proteinCountRows, sequenceRows)
      ensures old(mapsFetched) ==> Maps() == old(Maps())
      ensures failure.None? <==> AllSucceed(AnalysedIds(peptideIds), AnalysisOf(featuresOf, Maps()))
      ensures failure.Some? ==> exists id :: id in AnalysedIds(peptideIds) && AnalysisOf(featuresOf, Maps())(id) == Err(failure.value)
      ensures RowsFrom(rows, AnalysedIds(peptideIds), AnalysisOf(featuresOf, Maps()))
      ensures failure.None? ==> Written(rows) == RowsOf(AnalysedIds(peptideIds), AnalysisOf(featuresOf, Maps()))
    {
      if !mapsFetched {
        FetchMaps(proteinRows, geneRows, proteinCountRows, sequenceRows);
      }
      AnalysisOfFollows(featuresOf, Maps());
      var batches := SpliceEventWindows.CorrectedPeptideIdBatches(peptideIds);
      BatchesCoverAnalysedIds(peptideIds, batches);
      rows, failure := ReportWindows(batches, featuresOf, Maps(), AnalysisOf(featuresOf, Maps()));
    }
  }

  /** The window loop of reportSpliceEventCoverageForPeptides with the maps
      fetched: each window's batch of IDs is analysed as one session, and
      the first analysis that throws ends the report. What is analysed is
      the union of the batches, whichever windows cut them. */
  method ReportWindows(batches: seq<set<Int32>>, featuresOf: int -> seq<PeptideFeature>, maps: ProteomeMaps, ghost outcome: Analysis)
    returns (rows: seq<CoverageRow>, failure: Option<Exception>)
    requires Follows(outcome, featuresOf, maps)
    ensures failure.None? <==> AllSucceed(BatchUnion(batches, |batches|), outcome)
    ensures failure.Some? ==> exists id :: id in BatchUnion(batches, |batches|) && outcome(id) == Err(failure.value)
    ensures RowsFrom(rows, BatchUnion(batches, |batches|), outcome)
    ensures failure.None? ==> Written(rows) == RowsOf(BatchUnion(batches, |batches|), outcome)
  {
    ghost var all := BatchUnion(batches, |batches|);
    rows, failure := [], None;
    var b := 0;
    while b < |batches|
      invariant 0 <= b <= |batches|
      invariant BatchUnion(batches, b) <= all
      invariant Reported(rows, BatchUnion(batches, b), outcome)
      invariant failure.None?
    {
      assert BatchUnion(batches, b + 1) == BatchUnion(batches, b) + batches[b];
      rows, failure := ReportBatch(batches[b], BatchUnion(batches, b), rows, featuresOf, maps, outcome);
      BatchInUnion(batches, b);
      if failure.Some? {
        RowsFromWider(rows, BatchUnion(batches, b + 1), all, outcome);
        ghost var bad :| bad in batches[b] && outcome(bad) == Err(failure.value);
        assert bad in all;
        return;
      }
      b := b + 1;
    }
  }

  /** The IDs that the window loop as written hands to the per-peptide
      analysis: those at every position but the last. */
  ghost function AsWrittenAnalysedIds(ids: seq<Int32>): set<Int32> {
    set j | 0 <= j < |ids| - 1 :: ids[j]
  }

  /** The window loop as written (every window end one short) with the
      maps fetched: it reports on exactly the IDs before the last
      position. */
  method ReportAsWrittenWindows(peptideIds: seq<Int32>, featuresOf: int -> seq<PeptideFeature>, maps: ProteomeMaps, ghost outcome: Analysis)
    returns (rows: seq<CoverageRow>, failure: Option<Exception>)
    requires Follows(outcome, featuresOf, maps)
    ensures failure.None? <==> AllSucceed(AsWrittenAnalysedIds(peptideIds), outcome)
    ensures failure.Some? ==> exists id :: id in AsWrittenAnalysedIds(peptideIds) && outcome(id) == Err(failure.value)
    ensures RowsFrom(rows, AsWrittenAnalysedIds(peptideIds), outcome)
    ensures failure.None? ==> Written(rows) == RowsOf(AsWrittenAnalysedIds(peptideIds), outcome)
  {
    var batches := SpliceEventWindows.PeptideIdBatches(peptideIds);
    AsWrittenBatchesCover(peptideIds, batches);
    rows, failure := ReportWindows(batches, featuresOf, maps, outcome);
  }

  /** The batches of the window loop as written hold exactly the IDs before
      the last position. */
  lemma AsWrittenBatchesCover(ids: seq<Int32>, batches: seq<set<Int32>>)
    requires |batches| == SpliceEventWindows.WindowCount(|ids|)
    requires forall b :: 0 <= b < |batches| ==>
               batches[b] == SpliceEventWindows.IdsBetween(ids, SpliceEventWindows.WindowStart(b),
                                                          SpliceEventWindows.WindowEnd(SpliceEventWindows.WindowStart(b), |ids|))
    ensures BatchUnion(batches, |batches|) == AsWrittenAnalysedIds(ids)
  {
    forall id ensures id in BatchUnion(batches, |batches|) <==> id in AsWrittenAnalysedIds(ids) {
      BatchUnionMeaning(batches, |batches|, id);
      SpliceEventWindows.BatchedIds(ids, batches, id);
    }
  }

  /** The report as written leaves the last peptide out unless its ID also
      occurs earlier; a request for one peptide reports on nothing. */
  lemma AsWrittenSkipsLast(ids: seq<Int32>)
    requires |ids| > 0
    ensures ids[|ids| - 1] in AsWrittenAnalysedIds(ids) <==> ids[|ids| - 1] in ids[..|ids| - 1]
    ensures |ids| == 1 ==> AsWrittenAnalysedIds(ids) == {}
  {
  }

  /** Each batch is part of the union of all batches. */
  lemma BatchInUnion(batches: seq<set<Int32>>, b: nat)
    requires b < |batches|
    ensures batches[b] <= BatchUnion(batches, |batches|)
    ensures BatchUnion(batches, b + 1) <= BatchUnion(batches, |batches|)
  {
    forall id | id in BatchUnion(batches, b + 1) ensures id in BatchUnion(batches, |batches|) {
      BatchUnionMeaning(batches, b + 1, id);
      BatchUnionMeaning(batches, |batches|, id);
    }
    forall id | id in batches[b] ensures id in BatchUnion(batches, |batches|) {
      BatchUnionMeaning(batches, |batches|, id);
    }
  }

  /** The batches of the window loop together hold exactly the analysed IDs. */
  lemma BatchesCoverAnalysedIds(ids: seq<Int32>, batches: seq<set<Int32>>)
    requires |batches| == SpliceEventWindows.WindowCount(|ids|)
    requires forall b :: 0 <= b < |batches| ==>
               batches[b] == SpliceEventWindows.IdsBetween(ids, SpliceEventWindows.WindowStart(b),
                                                          SpliceEventWindows.CorrectedWindowEnd(SpliceEventWindows.WindowStart(b), |ids|))
    ensures BatchUnion(batches, |batches|) == AnalysedIds(ids)
  {
    forall id ensures id in BatchUnion(batches, |batches|) <==> id in AnalysedIds(ids) {
      BatchUnionMeaning(batches, |batches|, id);
      SpliceEventWindows.CorrectedBatchedIds(ids, batches, id);
    }
  }

  /** The session loop of one window: analyse each ID of the batch, in no
      particular order, appending the rows; stop at the first analysis that
      throws. */
  method ReportBatch(batch: set<Int32>, ghost done: set<Int32>, rows: seq<CoverageRow>,
                     featuresOf: int -> seq<PeptideFeature>, maps: ProteomeMaps, ghost outcome: Analysis)
    returns (rows': seq<CoverageRow>, failure: Option<Exception>)
    requires Follows(outcome, featuresOf, maps)
    requires Reported(rows, done, outcome)
    ensures failure.None? ==> Reported(rows', done + batch, outcome)
    ensures failure.Some? ==> exists id :: id in batch && outcome(id) == Err(failure.value)
    ensures failure.Some? ==> RowsFrom(rows', done + batch, outcome)
  {
    rows', failure := rows, None;
    var pending := batch;
    ghost var seen: set<Int32> := {};
    while pending != {}
      invariant pending <= batch && seen == batch - pending
      invariant Reported(rows', done + seen, outcome)
      decreases |pending|
    {
      var peptideId :| peptideId in pending;
      var result := AnalysePeptide(peptideId, featuresOf, maps, outcome);
      if result.Err? {
        failure := Some(result.error);
        RowsFromWider(rows', done + seen, done + batch, outcome);
        return;
      }
      ReportOneMore(rows', done + seen, peptideId, outcome);
      if result.value.Some? {
        rows' := rows' + [result.value.value];
      }
      assert batch - (pending - {peptideId}) == seen + {peptideId};
      seen := seen + {peptideId};
      pending := pending - {peptideId};
    }
    assert seen == batch;
  }

  /** Rows that come from a set of IDs come from any wider set. */
  lemma RowsFromWider(rows: seq<CoverageRow>, done: set<Int32>, all: set<Int32>, outcome: Analysis)
    requires RowsFrom(rows, done, outcome) && done <= all
    ensures RowsFrom(rows, all, outcome)
  {
    assert RowsOf(done, outcome) <= RowsOf(all, outcome);
  }
}
