/** The per-peptide classification of analyseSpliceEventCoverage. A
    peptide's features give its proteome locations and the splice events
    (with their locations) it overlaps. A row is reported only when exactly
    one splice event is involved; the row records whether every peptide
    location spans an event location, whether the spanning happens on a
    single (sequence, position) pair, and which proteins and genes those
    pairs lead to through the proteome maps. Entities are compared by value
    and HashSets are sets, iterated in an arbitrary order. */
module SpliceEventCoverage {
  import opened JavaLang

  /** A stretch [start, end] of the protein sequence with the given ID. */
  datatype SequenceLocation = SequenceLocation(sequenceId: int, start: int, end: int)

  /** A transcript splice event between two exons, by the exons' primary
      accessions. */
  datatype SpliceEvent = SpliceEvent(id: int, upstreamExonAccession: string, downstreamExonAccession: string)

  /** A splice event at one proteome location. */
  datatype SpliceEventFeature = SpliceEventFeature(event: SpliceEvent, location: SequenceLocation)

  /** A peptide at one proteome location, with the splice event features it
      overlaps there. */
  datatype PeptideFeature = PeptideFeature(location: SequenceLocation, spliceEventFeatures: seq<SpliceEventFeature>)

  /** The four maps fetched before the analysis. */
  datatype ProteomeMaps = ProteomeMaps(
    sequenceToProteins: map<int, set<string>>,
    proteinToGene: map<string, string>,
    geneToProteinCount: map<string, int>,
    geneToSequences: map<string, set<int>>)

  /** One report row. The event, translation event and gene lists are kept
      as sets; a sequence splice event "seqId-start" is the pair
      (seqId, start) and a translation splice event "accession:start" the
      pair (accession, start). */
  datatype CoverageRow = CoverageRow(
    peptideId: int,
    spliceEventCount: int,
    spliceEventSpecific: int,
    isoformSpecificSpliceEvent: int,
    transcriptSpliceEvent: string,
    translationSpliceEvents: set<(string, int)>,
    translationSpliceEventCount: int,
    sequenceSpliceEvents: set<(int, int)>,
    sequenceSpliceEventCount: int,
    genes: set<string>,
    geneCount: int,
    geneAltSplice: int,
    geneTranslationCount: int,
    geneSequenceCount: int)

  /** The peptide location spans the event location: same sequence, the
      peptide starting strictly before and ending strictly after it. */
  predicate Spans(peptide: SequenceLocation, event: SequenceLocation) {
    peptide.sequenceId == event.sequenceId && peptide.start < event.start && peptide.end > event.end
  }

  // ---------------------------------------------------------------------
  // The sets collected from the features

  function EventOf(f: SpliceEventFeature): SpliceEvent { f.event }
  function LocationOf(f: SpliceEventFeature): SequenceLocation { f.location }

  /** The peptide locations of the features. */
  ghost function PeptideLocations(features: seq<PeptideFeature>): set<SequenceLocation> {
    set i | 0 <= i < |features| :: features[i].location
  }

  /** `select` of every splice event feature of the first n features. */
  ghost function Selected<T>(features: seq<PeptideFeature>, select: SpliceEventFeature -> T): set<T> {
    if features == [] then {}
    else Selected(features[..|features| - 1], select) + SelectedOf(features[|features| - 1], select)
  }

  /** `select` of every splice event feature of one peptide feature. */
  ghost function SelectedOf<T>(feature: PeptideFeature, select: SpliceEventFeature -> T): set<T> {
    set j | 0 <= j < |feature.spliceEventFeatures| :: select(feature.spliceEventFeatures[j])
  }

  /** Selected collects exactly what `select` gives for some splice event
      feature of some peptide feature. */
  lemma {:induction false} SelectedMeaning<T>(features: seq<PeptideFeature>, select: SpliceEventFeature -> T, x: T)
    ensures x in Selected(features, select) <==>
              exists i, j :: 0 <= i < |features| && 0 <= j < |features[i].spliceEventFeatures|
                             && select(features[i].spliceEventFeatures[j]) == x
  {
    if features != [] {
      var n := |features|;
      var front := features[..n - 1];
      SelectedMeaning(front, select, x);
      if x in Selected(features, select) {
        if x in SelectedOf(features[n - 1], select) {
          var j :| 0 <= j < |features[n - 1].spliceEventFeatures| && select(features[n - 1].spliceEventFeatures[j]) == x;
        } else {
          var i, j :| 0 <= i < |front| && 0 <= j < |front[i].spliceEventFeatures|
                      && select(front[i].spliceEventFeatures[j]) == x;
          assert front[i] == features[i];
        }
      }
      if exists i, j :: 0 <= i < n && 0 <= j < |features[i].spliceEventFeatures|
                       && select(features[i].spliceEventFeatures[j]) == x {
        var i, j :| 0 <= i < n && 0 <= j < |features[i].spliceEventFeatures|
                    && select(features[i].spliceEventFeatures[j]) == x;
        if i < n - 1 {
          assert front[i] == features[i];
        } else {
          assert x in SelectedOf(features[n - 1], select);
        }
      }
    }
  }

  /** The feature loop: every peptide location, every splice event and
      every splice event location of the features, collected into sets. */
  method CollectFeatureSets(features: seq<PeptideFeature>)
    returns (peptideLocations: set<SequenceLocation>, spliceEvents: set<SpliceEvent>,
             spliceEventLocations: set<SequenceLocation>)
    ensures peptideLocations == PeptideLocations(features)
    ensures spliceEvents == Selected(features, EventOf)
    ensures spliceEventLocations == Selected(features, LocationOf)
  {
    peptideLocations, spliceEvents, spliceEventLocations := {}, {}, {};
    var i := 0;
    while i < |features|
      invariant 0 <= i <= |features|
      invariant peptideLocations == PeptideLocations(features[..i])
      invariant spliceEvents == Selected(features[..i], EventOf)
      invariant spliceEventLocations == Selected(features[..i], LocationOf)
    {
      var feature := features[i];
      assert PeptideLocations(features[..i + 1]) == PeptideLocations(features[..i]) + {feature.location} by {
        assert forall k :: 0 <= k < i ==> features[..i + 1][k] == features[..i][k];
        assert features[..i + 1][i] == feature;
      }
      peptideLocations := peptideLocations + {feature.location};
      var spliceEventFeatures := feature.spliceEventFeatures;
      var j := 0;
      while j < |spliceEventFeatures|
        invariant 0 <= j <= |spliceEventFeatures|
        invariant spliceEvents == Selected(features[..i], EventOf) + SelectedOf(PeptideFeature(feature.location, spliceEventFeatures[..j]), EventOf)
        invariant spliceEventLocations == Selected(features[..i], LocationOf) + SelectedOf(PeptideFeature(feature.location, spliceEventFeatures[..j]), LocationOf)
      {
        SelectedOfExtend(feature.location, spliceEventFeatures, j, EventOf);
        SelectedOfExtend(feature.location, spliceEventFeatures, j, LocationOf);
        spliceEvents := spliceEvents + {spliceEventFeatures[j].event};
        spliceEventLocations := spliceEventLocations + {spliceEventFeatures[j].location};
        j := j + 1;
      }
      assert spliceEventFeatures[..j] == spliceEventFeatures;
      assert features[..i + 1][..i] == features[..i];
      i := i + 1;
    }
    assert features[..i] == features;
  }

  /** One more splice event feature adds its selected value. */
  lemma SelectedOfExtend<T>(location: SequenceLocation, fs: seq<SpliceEventFeature>, j: nat, select: SpliceEventFeature -> T)
    requires j < |fs|
    ensures SelectedOf(PeptideFeature(location, fs[..j + 1]), select)
            == SelectedOf(PeptideFeature(location, fs[..j]), select) + {select(fs[j])}
  {
    var before := SelectedOf(PeptideFeature(location, fs[..j]), select);
    var after := SelectedOf(PeptideFeature(location, fs[..j + 1]), select);
    forall x | x in after ensures x in before + {select(fs[j])} {
      var k :| 0 <= k < j + 1 && select(fs[..j + 1][k]) == x;
      if k < j { assert fs[..j][k] == fs[..j + 1][k]; }
    }
    forall x | x in before ensures x in after {
      var k :| 0 <= k < j && select(fs[..j][k]) == x;
      assert fs[..j + 1][k] == fs[..j][k];
    }
    assert fs[..j + 1][j] == fs[j];
  }

  /** Moving x from the pending part to the seen part of a set keeps the
      two parts disjoint and their union unchanged. */
  lemma MoveOne<T>(seen: set<T>, pending: set<T>, x: T)
    requires x in pending && seen !! pending
    ensures (seen + {x}) + (pending - {x}) == seen + pending
    ensures (seen + {x}) !! (pending - {x})
    ensures |pending - {x}| < |pending|
  {
  }

  // ---------------------------------------------------------------------
  // Spanning

  /** The peptide locations that span some event location. */
  ghost function SpanningLocations(peptideLocations: set<SequenceLocation>, eventLocations: set<SequenceLocation>): set<SequenceLocation> {
    set p | p in peptideLocations && exists e :: e in eventLocations && Spans(p, e)
  }

  /** The (sequence ID, event start) of every event location that some
      peptide location spans. */
  ghost function SequenceSpliceEvents(peptideLocations: set<SequenceLocation>, eventLocations: set<SequenceLocation>): set<(int, int)> {
    set e | e in eventLocations && (exists p :: p in peptideLocations && Spans(p, e)) :: (e.sequenceId, e.start)
  }

  /** The nested loop over event locations and peptide locations (each in
      HashSet order) that records the spanning peptide locations and the
      spanned (sequence, start) pairs. */
  method CollectSpanning(spliceEventLocations: set<SequenceLocation>, peptideLocations: set<SequenceLocation>)
    returns (specificLocations: set<SequenceLocation>, sequenceSpliceEvents: set<(int, int)>)
    ensures specificLocations == SpanningLocations(peptideLocations, spliceEventLocations)
    ensures sequenceSpliceEvents == SequenceSpliceEvents(peptideLocations, spliceEventLocations)
  {
    specificLocations, sequenceSpliceEvents := {}, {};
    var remaining := spliceEventLocations;
    ghost var done: set<SequenceLocation> := {};
    while remaining != {}
      invariant done + remaining == spliceEventLocations && done !! remaining
      invariant specificLocations == SpanningLocations(peptideLocations, done)
      invariant sequenceSpliceEvents == SequenceSpliceEvents(peptideLocations, done)
      decreases |remaining|
    {
      var eventLocation :| eventLocation in remaining;
      specificLocations, sequenceSpliceEvents :=
        AddSpanning(eventLocation, peptideLocations, specificLocations, sequenceSpliceEvents);
      SpanningUnion(peptideLocations, done, eventLocation);
      MoveOne(done, remaining, eventLocation);
      remaining := remaining - {eventLocation};
      done := done + {eventLocation};
    }
  }

  /** The peptide locations that span event location e. */
  ghost function SpanningOne(peptideLocations: set<SequenceLocation>, e: SequenceLocation): set<SequenceLocation> {
    set p | p in peptideLocations && Spans(p, e)
  }

  /** e's (sequence ID, start) pair if some peptide location spans it. */
  ghost function SpannedPair(peptideLocations: set<SequenceLocation>, e: SequenceLocation): set<(int, int)> {
    if exists p :: p in peptideLocations && Spans(p, e) then {(e.sequenceId, e.start)} else {}
  }

  /** The inner loop of CollectSpanning: compare one event location with
      every peptide location and record the spanning ones. */
  method AddSpanning(eventLocation: SequenceLocation, peptideLocations: set<SequenceLocation>,
                     specific: set<SequenceLocation>, sequenceEvents: set<(int, int)>)
    returns (specific': set<SequenceLocation>, sequenceEvents': set<(int, int)>)
    ensures specific' == specific + SpanningOne(peptideLocations, eventLocation)
    ensures sequenceEvents' == sequenceEvents + SpannedPair(peptideLocations, eventLocation)
  {
    specific', sequenceEvents' := specific, sequenceEvents;
    var pending := peptideLocations;
    ghost var seen: set<SequenceLocation> := {};
    while pending != {}
      invariant seen + pending == peptideLocations && seen !! pending
      invariant specific' == specific + SpanningOne(seen, eventLocation)
      invariant sequenceEvents' == sequenceEvents + SpannedPair(seen, eventLocation)
      decreases |pending|
    {
      var peptideLocation :| peptideLocation in pending;
      ghost var specificBefore, eventsBefore := specific', sequenceEvents';
      if Spans(peptideLocation, eventLocation) {
        specific' := specific' + {peptideLocation};
        sequenceEvents' := sequenceEvents' + {(eventLocation.sequenceId, eventLocation.start)};
      }
      SpanStep(specific, sequenceEvents, seen, eventLocation, peptideLocation,
               specificBefore, eventsBefore, specific', sequenceEvents');
      MoveOne(seen, pending, peptideLocation);
      pending := pending - {peptideLocation};
      seen := seen + {peptideLocation};
    }
  }

  /** One step of AddSpanning keeps its invariants. */
  lemma SpanStep(specific: set<SequenceLocation>, sequenceEvents: set<(int, int)>, seen: set<SequenceLocation>,
                 e: SequenceLocation, p: SequenceLocation,
                 s0: set<SequenceLocation>, q0: set<(int, int)>,
                 s1: set<SequenceLocation>, q1: set<(int, int)>)
    requires s0 == specific + SpanningOne(seen, e)
    requires q0 == sequenceEvents + SpannedPair(seen, e)
    requires Spans(p, e) ==> s1 == s0 + {p} && q1 == q0 + {(e.sequenceId, e.start)}
    requires !Spans(p, e) ==> s1 == s0 && q1 == q0
    ensures s1 == specific + SpanningOne(seen + {p}, e)
    ensures q1 == sequenceEvents + SpannedPair(seen + {p}, e)
  {
    if exists q :: q in seen && Spans(q, e) {
      var q :| q in seen && Spans(q, e);
      assert q in seen + {p};
    }
    if Spans(p, e) {
      assert p in seen + {p};
    }
  }

  /** Adding one event location, checked against all peptide locations. */
  lemma SpanningUnion(peptides: set<SequenceLocation>, done: set<SequenceLocation>, e: SequenceLocation)
    ensures SpanningLocations(peptides, done + {e}) == SpanningLocations(peptides, done) + SpanningOne(peptides, e)
    ensures SequenceSpliceEvents(peptides, done + {e}) == SequenceSpliceEvents(peptides, done) + SpannedPair(peptides, e)
  {
    forall p | p in SpanningLocations(peptides, done + {e})
      ensures p in SpanningLocations(peptides, done) + SpanningOne(peptides, e)
    {
      var l :| l in done + {e} && Spans(p, l);
      if l in done { assert p in SpanningLocations(peptides, done); }
    }
    forall p | p in SpanningLocations(peptides, done) ensures p in SpanningLocations(peptides, done + {e}) {
      var l :| l in done && Spans(p, l);
      assert l in done + {e};
    }
    forall p | p in SpanningOne(peptides, e) ensures p in SpanningLocations(peptides, done + {e}) {
      assert e in done + {e};
    }
    forall x | x in SequenceSpliceEvents(peptides, done + {e})
      ensures x in SequenceSpliceEvents(peptides, done) + SpannedPair(peptides, e)
    {
      var l :| l in done + {e} && (exists p :: p in peptides && Spans(p, l)) && x == (l.sequenceId, l.start);
      if l in done {
        assert x in SequenceSpliceEvents(peptides, done);
      }
    }
    forall x | x in SequenceSpliceEvents(peptides, done) ensures x in SequenceSpliceEvents(peptides, done + {e}) {
      var l :| l in done && (exists p :: p in peptides && Spans(p, l)) && x == (l.sequenceId, l.start);
      assert l in done + {e};
    }
    if exists p :: p in peptides && Spans(p, e) {
      assert e in done + {e};
      assert (e.sequenceId, e.start) in SequenceSpliceEvents(peptides, done + {e});
    }
  }

  /** Every peptide location spans some event location. */
  ghost predicate EveryPeptideSpans(peptides: set<SequenceLocation>, events: set<SequenceLocation>) {
    forall p :: p in peptides ==> exists e :: e in events && Spans(p, e)
  }

  /** The spanning peptide locations number as many as all peptide
      locations iff every peptide location spans some event location. */
  lemma AllSpanIffSameSize(peptides: set<SequenceLocation>, events: set<SequenceLocation>)
    ensures SpanningLocations(peptides, events) <= peptides
    ensures |SpanningLocations(peptides, events)| == |peptides| <==> EveryPeptideSpans(peptides, events)
  {
    var spanning := SpanningLocations(peptides, events);
    if !EveryPeptideSpans(peptides, events) {
      var p :| p in peptides && !exists e :: e in events && Spans(p, e);
      assert p !in spanning;
      SubsetSize(spanning, peptides - {p});
    } else {
      assert spanning == peptides;
    }
  }

  /** A subset is no larger. */
  lemma {:induction false} SubsetSize<T>(a: set<T>, b: set<T>)
    requires a <= b
    ensures |a| <= |b|
    decreases |b|
  {
    if a != {} {
      var x :| x in a;
      SubsetSize(a - {x}, b - {x});
    }
  }

  // ---------------------------------------------------------------------
  // Proteins and genes

  /** Looking up a protein's gene and that gene's counts does not hit a
      missing key. */
  predicate ProteinResolves(maps: ProteomeMaps, protein: string) {
    && protein in maps.proteinToGene
    && maps.proteinToGene[protein] in maps.geneToProteinCount
    && maps.proteinToGene[protein] in maps.geneToSequences
  }

  /** Looking up a (sequence, start) pair's proteins, and each of those,
      does not hit a missing key. */
  predicate EventResolves(maps: ProteomeMaps, event: (int, int)) {
    && event.0 in maps.sequenceToProteins
    && forall protein :: protein in maps.sequenceToProteins[event.0] ==> ProteinResolves(maps, protein)
  }

  /** No lookup of the gene loop hits a missing key. */
  ghost predicate Resolvable(events: set<(int, int)>, maps: ProteomeMaps) {
    forall event :: event in events ==> EventResolves(maps, event)
  }

  /** (protein accession, start) for each protein of each sequence. */
  ghost function TranslationEvents(events: set<(int, int)>, maps: ProteomeMaps): set<(string, int)> {
    set event, protein | event in events && event.0 in maps.sequenceToProteins
                         && protein in maps.sequenceToProteins[event.0] :: (protein, event.1)
  }

  /** The gene of each protein of each sequence. */
  ghost function Genes(events: set<(int, int)>, maps: ProteomeMaps): set<string> {
    set event, protein | event in events && event.0 in maps.sequenceToProteins
                         && protein in maps.sequenceToProteins[event.0]
                         && protein in maps.proteinToGene :: maps.proteinToGene[protein]
  }

  /** The gene loop's results: the translation events, the genes, and the
      protein and sequence counts of the gene looked up last (-1 when no
      gene was looked up). */
  datatype GeneResolution = GeneResolution(
    translationEvents: set<(string, int)>,
    genes: set<string>,
    proteinCount: int,
    sequenceCount: int)

  /** The counts belong to gene g. */
  predicate CountsOf(maps: ProteomeMaps, g: string, proteinCount: int, sequenceCount: int)
    requires g in maps.geneToProteinCount && g in maps.geneToSequences
  {
    proteinCount == maps.geneToProteinCount[g] && sequenceCount == |maps.geneToSequences[g]|
  }

  /** The gene results so far agree with the gene `last` looked up last:
      every gene has both counts; the counts are -1 until a gene is found
      and afterwards those of `last`. */
  ghost predicate Tracks(maps: ProteomeMaps, res: GeneResolution, last: string) {
    && (forall g :: g in res.genes ==> g in maps.geneToProteinCount && g in maps.geneToSequences)
    && (res.genes == {} ==> res.proteinCount == -1 && res.sequenceCount == -1)
    && (res.genes != {} ==> last in res.genes && CountsOf(maps, last, res.proteinCount, res.sequenceCount))
  }

  /** The gene loop: for each (sequence, start) pair in HashSet order, for
      each protein of the sequence, record the translation event, look up
      the gene and overwrite the counts with the gene's. A missing key
      dereferences null. */
  method ResolveGenes(sequenceSpliceEvents: set<(int, int)>, maps: ProteomeMaps) returns (r: Result<GeneResolution>)
    ensures r.Err? <==> !Resolvable(sequenceSpliceEvents, maps)
    ensures r.Err? ==> r.error == NullPointer
    ensures r.Ok? ==> && r.value.translationEvents == TranslationEvents(sequenceSpliceEvents, maps)
                      && r.value.genes == Genes(sequenceSpliceEvents, maps)
                      && (r.value.genes == {} ==> r.value.proteinCount == -1 && r.value.sequenceCount == -1)
                      && (forall g :: g in r.value.genes ==> g in maps.geneToProteinCount && g in maps.geneToSequences)
                      && (r.value.genes != {} ==>
                            exists g :: g in r.value.genes && CountsOf(maps, g, r.value.proteinCount, r.value.sequenceCount))
  {
    var acc := GeneResolution({}, {}, -1, -1);
    ghost var last: string := "";
    var remaining := sequenceSpliceEvents;
    ghost var done: set<(int, int)> := {};
    while remaining != {}
      invariant done + remaining == sequenceSpliceEvents && done !! remaining
      invariant Resolvable(done, maps)
      invariant acc.translationEvents == TranslationEvents(done, maps)
      invariant acc.genes == Genes(done, maps)
      invariant Tracks(maps, acc, last)
      decreases |remaining|
    {
      var event :| event in remaining;
      if event.0 !in maps.sequenceToProteins {
        return Err(NullPointer);
      }
      var next;
      next, last := AddProteins(acc, last, event.1, maps.sequenceToProteins[event.0], maps);
      if next.Err? {
        assert !EventResolves(maps, event);
        return Err(next.error);
      }
      ResolveOneMore(done, event, maps);
      acc := next.value;
      MoveOne(done, remaining, event);
      remaining := remaining - {event};
      done := done + {event};
    }
    r := Ok(acc);
  }

  /** The inner loop of ResolveGenes: the proteins of one sequence, in
      HashSet order, each adding its translation event and its gene and
      overwriting the counts. */
  method AddProteins(acc: GeneResolution, ghost last: string, start: int, proteins: set<string>, maps: ProteomeMaps)
    returns (r: Result<GeneResolution>, ghost last': string)
    requires Tracks(maps, acc, last)
    ensures r.Err? <==> exists p :: p in proteins && !ProteinResolves(maps, p)
    ensures r.Err? ==> r.error == NullPointer
    ensures r.Ok? ==> && r.value.translationEvents == acc.translationEvents + ProteinEvents(proteins, start)
                      && r.value.genes == acc.genes + GenesOf(proteins, maps)
                      && Tracks(maps, r.value, last')
  {
    var res := acc;
    last' := last;
    var pending := proteins;
    ghost var seen: set<string> := {};
    while pending != {}
      invariant seen + pending == proteins && seen !! pending
      invariant forall p :: p in seen ==> ProteinResolves(maps, p)
      invariant res.translationEvents == acc.translationEvents + ProteinEvents(seen, start)
      invariant res.genes == acc.genes + GenesOf(seen, maps)
      invariant Tracks(maps, res, last')
      decreases |pending|
    {
      var protein :| protein in pending;
      var translationEvents := res.translationEvents + {(protein, start)};
      if protein !in maps.proteinToGene {
        return Err(NullPointer), last';
      }
      var gene := maps.proteinToGene[protein];
      if gene !in maps.geneToProteinCount {
        return Err(NullPointer), last';
      }
      var proteinCount := maps.geneToProteinCount[gene];
      if gene !in maps.geneToSequences {
        return Err(NullPointer), last';
      }
      var sequenceCount := |maps.geneToSequences[gene]|;
      ProteinStep(acc, seen, start, protein, maps, res, last');
      res := GeneResolution(translationEvents, res.genes + {gene}, proteinCount, sequenceCount);
      last' := gene;
      MoveOne(seen, pending, protein);
      pending := pending - {protein};
      seen := seen + {protein};
    }
    r := Ok(res);
  }

  /** One step of AddProteins keeps its invariants. */
  lemma ProteinStep(acc: GeneResolution, seen: set<string>, start: int, protein: string, maps: ProteomeMaps,
                    res: GeneResolution, last: string)
    requires ProteinResolves(maps, protein)
    requires res.translationEvents == acc.translationEvents + ProteinEvents(seen, start)
    requires res.genes == acc.genes + GenesOf(seen, maps)
    requires Tracks(maps, res, last)
    ensures var gene := maps.proteinToGene[protein];
            var next := GeneResolution(res.translationEvents + {(protein, start)}, res.genes + {gene},
                                       maps.geneToProteinCount[gene], |maps.geneToSequences[gene]|);
            && next.translationEvents == acc.translationEvents + ProteinEvents(seen + {protein}, start)
            && next.genes == acc.genes + GenesOf(seen + {protein}, maps)
            && Tracks(maps, next, gene)
  {
    var gene := maps.proteinToGene[protein];
    assert ProteinEvents(seen + {protein}, start) == ProteinEvents(seen, start) + {(protein, start)};
    assert GenesOf(seen + {protein}, maps) == GenesOf(seen, maps) + {gene};
  }

  /** (protein, start) for each of the given proteins. */
  ghost function ProteinEvents(proteins: set<string>, start: int): set<(string, int)> {
    set protein | protein in proteins :: (protein, start)
  }

  /** The genes of the given proteins that have one. */
  ghost function GenesOf(proteins: set<string>, maps: ProteomeMaps): set<string> {
    set protein | protein in proteins && protein in maps.proteinToGene :: maps.proteinToGene[protein]
  }

  /** Processing one more (sequence, start) pair adds its proteins'
      translation events and genes. */
  lemma ResolveOneMore(done: set<(int, int)>, event: (int, int), maps: ProteomeMaps)
    requires event.0 in maps.sequenceToProteins
    requires Resolvable(done, maps)
    requires forall p :: p in maps.sequenceToProteins[event.0] ==> ProteinResolves(maps, p)
    ensures Resolvable(done + {event}, maps)
    ensures TranslationEvents(done + {event}, maps)
            == TranslationEvents(done, maps) + ProteinEvents(maps.sequenceToProteins[event.0], event.1)
    ensures Genes(done + {event}, maps) == Genes(done, maps) + GenesOf(maps.sequenceToProteins[event.0], maps)
  {
    var proteins := maps.sequenceToProteins[event.0];
    forall x | x in TranslationEvents(done + {event}, maps)
      ensures x in TranslationEvents(done, maps) + ProteinEvents(proteins, event.1)
    {
      var ev, p :| ev in done + {event} && ev.0 in maps.sequenceToProteins
                   && p in maps.sequenceToProteins[ev.0] && x == (p, ev.1);
      if ev in done { assert x in TranslationEvents(done, maps); }
    }
    forall x | x in TranslationEvents(done, maps) ensures x in TranslationEvents(done + {event}, maps) {
      var ev, p :| ev in done && ev.0 in maps.sequenceToProteins
                   && p in maps.sequenceToProteins[ev.0] && x == (p, ev.1);
      assert ev in done + {event};
    }
    forall x | x in ProteinEvents(proteins, event.1) ensures x in TranslationEvents(done + {event}, maps) {
      var p :| p in proteins && x == (p, event.1);
      assert event in done + {event};
    }
    forall g | g in Genes(done + {event}, maps) ensures g in Genes(done, maps) + GenesOf(proteins, maps) {
      var ev, p :| ev in done + {event} && ev.0 in maps.sequenceToProteins
                   && p in maps.sequenceToProteins[ev.0] && p in maps.proteinToGene && g == maps.proteinToGene[p];
      if ev in done { assert g in Genes(done, maps); }
    }
    forall g | g in Genes(done, maps) ensures g in Genes(done + {event}, maps) {
      var ev, p :| ev in done && ev.0 in maps.sequenceToProteins
                   && p in maps.sequenceToProteins[ev.0] && p in maps.proteinToGene && g == maps.proteinToGene[p];
      assert ev in done + {event};
    }
    forall g | g in GenesOf(proteins, maps) ensures g in Genes(done + {event}, maps) {
      var p :| p in proteins && p in maps.proteinToGene && g == maps.proteinToGene[p];
      assert event in done + {event};
    }
  }

  /** Every gene of a resolvable set of pairs has both counts. */
  lemma GenesResolve(events: set<(int, int)>, maps: ProteomeMaps)
    requires Resolvable(events, maps)
    ensures forall g :: g in Genes(events, maps) ==> g in maps.geneToProteinCount && g in maps.geneToSequences
  {
    forall g | g in Genes(events, maps) ensures g in maps.geneToProteinCount && g in maps.geneToSequences {
      var ev, p :| ev in events && ev.0 in maps.sequenceToProteins
                   && p in maps.sequenceToProteins[ev.0] && p in maps.proteinToGene && g == maps.proteinToGene[p];
      assert EventResolves(maps, ev);
    }
  }

  // ---------------------------------------------------------------------
  // The row

  /** The element of a one-element set. */
  ghost function Only<T>(s: set<T>): (x: T)
    requires |s| == 1
    ensures s == {x}
  {
    var x :| x in s;
    assert s - {x} == {} by {
      assert |s - {x}| == 0;
    }
    x
  }

  /** The gene counts a row reports: those of the one gene, or -1 when there
      is no gene or more than one. */
  ghost function ReportedCounts(genes: set<string>, maps: ProteomeMaps): (int, int)
    requires forall g :: g in genes ==> g in maps.geneToProteinCount && g in maps.geneToSequences
  {
    if |genes| == 1 then
      var g := Only(genes);
      (maps.geneToProteinCount[g], |maps.geneToSequences[g]|)
    else (-1, -1)
  }

  /** The row the analysis reports for a peptide, defined from the sets
      above: none unless exactly one splice event is involved; a null
      dereference when a lookup of the gene loop misses. */
  ghost function ExpectedRow(peptideId: int, features: seq<PeptideFeature>, maps: ProteomeMaps): Result<Option<CoverageRow>> {
    var events := Selected(features, EventOf);
    if |events| != 1 then Ok(None)
    else
      var peptides := PeptideLocations(features);
      var locations := Selected(features, LocationOf);
      var sequenceEvents := SequenceSpliceEvents(peptides, locations);
      if !Resolvable(sequenceEvents, maps) then Err(NullPointer)
      else
        var event := Only(events);
        var translationEvents := TranslationEvents(sequenceEvents, maps);
        var genes := Genes(sequenceEvents, maps);
        GenesResolve(sequenceEvents, maps);
        var counts := ReportedCounts(genes, maps);
        var allSpan := EveryPeptideSpans(peptides, locations);
        Ok(Some(CoverageRow(
          peptideId,
          1,
          if allSpan then 1 else 0,
          if |sequenceEvents| == 1 then 1 else 0,
          event.upstreamExonAccession + ":" + event.downstreamExonAccession,
          translationEvents,
          |translationEvents|,
          sequenceEvents,
          |sequenceEvents|,
          genes,
          |genes|,
          if |genes| > 1 then -1 else if counts.1 > 1 then 1 else 0,
          counts.0,
          counts.1)))
  }

  /** analyseSpliceEventCoverage for one peptide, with the fetched features
      and maps given: the loops of the source with its flag variables,
      returning the row it writes (if any). */
  method AnalyseSpliceEventCoverage(peptideId: int, features: seq<PeptideFeature>, maps: ProteomeMaps)
    returns (r: Result<Option<CoverageRow>>)
    ensures r == ExpectedRow(peptideId, features, maps)
  {
    var peptideLocations, spliceEvents, spliceEventLocations := CollectFeatureSets(features);
    var spliceEventCount := |spliceEvents|;
    if spliceEventCount != 1 {
      return Ok(None);
    }
    var spliceEventSpecific := 0;
    var specificLocations, sequenceSpliceEvents := CollectSpanning(spliceEventLocations, peptideLocations);
    var event :| event in spliceEvents;
    assert event == Only(spliceEvents);
    AllSpanIffSameSize(peptideLocations, spliceEventLocations);
    if |specificLocations| == |peptideLocations| {
      spliceEventSpecific := 1;
    } else {
      spliceEventSpecific := 0;
    }
    var isoformSpecificSpliceEvent := -1;
    if |sequenceSpliceEvents| == 1 {
      isoformSpecificSpliceEvent := 1;
    } else {
      isoformSpecificSpliceEvent := 0;
    }
    var resolution := ResolveGenes(sequenceSpliceEvents, maps);
    if resolution.Err? {
      return Err(resolution.error);
    }
    var GeneResolution(translationEvents, genes, proteinCount, sequenceCount) := resolution.value;
    var transcriptSpliceEvent := event.upstreamExonAccession + ":" + event.downstreamExonAccession;
    var geneCount := |genes|;
    var geneAltSplice := -1;
    if sequenceCount > 1 {
      geneAltSplice := 1;
    } else {
      geneAltSplice := 0;
    }
    if geneCount > 1 {
      proteinCount := -1;
      sequenceCount := -1;
      geneAltSplice := -1;
    }
    if geneCount == 1 {
      var g :| g in genes && CountsOf(maps, g, proteinCount, sequenceCount);
      assert g == Only(genes);
      assert (proteinCount, sequenceCount) == ReportedCounts(genes, maps);
    }
    r := Ok(Some(CoverageRow(
      peptideId, spliceEventCount, spliceEventSpecific, isoformSpecificSpliceEvent,
      transcriptSpliceEvent, translationEvents, |translationEvents|,
      sequenceSpliceEvents, |sequenceSpliceEvents|, genes, geneCount,
      geneAltSplice, proteinCount, sequenceCount)));
  }

  // ---------------------------------------------------------------------
  // What the row means

  /** The splice event of feature i's j-th splice event feature. */
  function EventAt(features: seq<PeptideFeature>, i: int, j: int): SpliceEvent
    requires 0 <= i < |features| && 0 <= j < |features[i].spliceEventFeatures|
  {
    features[i].spliceEventFeatures[j].event
  }

  /** (i, j) names a splice event feature of the features. */
  predicate IsFeatureIndex(features: seq<PeptideFeature>, i: int, j: int) {
    0 <= i < |features| && 0 <= j < |features[i].spliceEventFeatures|
  }

  /** Exactly one distinct splice event is involved iff some splice event
      feature exists whose event every splice event feature names. */
  lemma ExactlyOneEvent(features: seq<PeptideFeature>)
    ensures |Selected(features, EventOf)| == 1 <==>
              exists i, j :: IsFeatureIndex(features, i, j)
                             && forall k, l :: IsFeatureIndex(features, k, l) ==> EventAt(features, k, l) == EventAt(features, i, j)
  {
    var events := Selected(features, EventOf);
    if |events| == 1 {
      OneEventNamedByAll(features);
    }
    if exists i, j :: IsFeatureIndex(features, i, j)
                      && forall k, l :: IsFeatureIndex(features, k, l) ==> EventAt(features, k, l) == EventAt(features, i, j) {
      var i, j :| IsFeatureIndex(features, i, j)
                  && forall k, l :: IsFeatureIndex(features, k, l) ==> EventAt(features, k, l) == EventAt(features, i, j);
      AllNameOneEvent(features, i, j);
    }
  }

  /** With one distinct event, some feature names it and all features do. */
  lemma OneEventNamedByAll(features: seq<PeptideFeature>)
    requires |Selected(features, EventOf)| == 1
    ensures exists i, j :: IsFeatureIndex(features, i, j)
                           && forall k, l :: IsFeatureIndex(features, k, l) ==> EventAt(features, k, l) == EventAt(features, i, j)
  {
    var events := Selected(features, EventOf);
    var e := Only(events);
    SelectedMeaning(features, EventOf, e);
    var i, j :| 0 <= i < |features| && 0 <= j < |features[i].spliceEventFeatures|
                && EventOf(features[i].spliceEventFeatures[j]) == e;
    forall k, l | IsFeatureIndex(features, k, l) ensures EventAt(features, k, l) == e {
      SelectedMeaning(features, EventOf, EventAt(features, k, l));
    }
    assert IsFeatureIndex(features, i, j) && EventAt(features, i, j) == e;
  }

  /** When every feature names the event of feature (i, j), that is the
      only event. */
  lemma AllNameOneEvent(features: seq<PeptideFeature>, i: int, j: int)
    requires IsFeatureIndex(features, i, j)
    requires forall k, l :: IsFeatureIndex(features, k, l) ==> EventAt(features, k, l) == EventAt(features, i, j)
    ensures |Selected(features, EventOf)| == 1
  {
    var events := Selected(features, EventOf);
    var e := EventAt(features, i, j);
    SelectedMeaning(features, EventOf, e);
    forall x | x in events ensures x == e {
      SelectedMeaning(features, EventOf, x);
      var k, l :| 0 <= k < |features| && 0 <= l < |features[k].spliceEventFeatures|
                  && EventOf(features[k].spliceEventFeatures[l]) == x;
      assert IsFeatureIndex(features, k, l);
    }
    assert events == {e};
  }

  /** A row is reported only for a peptide whose features involve exactly
      one splice event; it carries the peptide's ID, a splice event count of
      1 and that event's exon accessions. */
  lemma RowOnlyForOneEvent(peptideId: int, features: seq<PeptideFeature>, maps: ProteomeMaps)
    ensures |Selected(features, EventOf)| != 1 ==> ExpectedRow(peptideId, features, maps) == Ok(None)
    ensures ExpectedRow(peptideId, features, maps).Ok? && ExpectedRow(peptideId, features, maps).value.Some? ==>
              var row := ExpectedRow(peptideId, features, maps).value.value;
              && |Selected(features, EventOf)| == 1
              && row.peptideId == peptideId && row.spliceEventCount == 1
              && exists i, j :: 0 <= i < |features| && 0 <= j < |features[i].spliceEventFeatures|
                                && row.transcriptSpliceEvent == EventAt(features, i, j).upstreamExonAccession
                                                                + ":" + EventAt(features, i, j).downstreamExonAccession
  {
    var events := Selected(features, EventOf);
    if |events| == 1 && ExpectedRow(peptideId, features, maps).Ok? {
      var e := Only(events);
      SelectedMeaning(features, EventOf, e);
      var i, j :| 0 <= i < |features| && 0 <= j < |features[i].spliceEventFeatures|
                  && EventOf(features[i].spliceEventFeatures[j]) == e;
      assert EventAt(features, i, j) == e;
    }
  }

  /** The peptide location of feature i spans the location of some splice
      event feature of some feature. */
  ghost predicate SpansSomeEvent(features: seq<PeptideFeature>, i: int)
    requires 0 <= i < |features|
  {
    exists k, j :: 0 <= k < |features| && 0 <= j < |features[k].spliceEventFeatures|
                   && Spans(features[i].location, features[k].spliceEventFeatures[j].location)
  }

  /** spliceEventSpecific is 1 iff every peptide location of the features
      spans an event location, and 0 otherwise. */
  lemma SpecificIffEveryLocationSpans(peptideId: int, features: seq<PeptideFeature>, maps: ProteomeMaps)
    requires ExpectedRow(peptideId, features, maps).Ok? && ExpectedRow(peptideId, features, maps).value.Some?
    ensures var row := ExpectedRow(peptideId, features, maps).value.value;
            && (row.spliceEventSpecific == 1 <==> forall i :: 0 <= i < |features| ==> SpansSomeEvent(features, i))
            && (row.spliceEventSpecific == 0 || row.spliceEventSpecific == 1)
  {
    var peptides := PeptideLocations(features);
    var locations := Selected(features, LocationOf);
    var allSpan := EveryPeptideSpans(peptides, locations);
    if allSpan {
      forall i | 0 <= i < |features| ensures SpansSomeEvent(features, i) {
        assert features[i].location in peptides;
        var e :| e in locations && Spans(features[i].location, e);
        SelectedMeaning(features, LocationOf, e);
      }
    } else {
      var p :| p in peptides && !exists e :: e in locations && Spans(p, e);
      var i :| 0 <= i < |features| && features[i].location == p;
      if SpansSomeEvent(features, i) {
        var k, j :| 0 <= k < |features| && 0 <= j < |features[k].spliceEventFeatures|
                    && Spans(features[i].location, features[k].spliceEventFeatures[j].location);
        SelectedMeaning(features, LocationOf, features[k].spliceEventFeatures[j].location);
        assert false;
      }
    }
  }

  /** isoformSpecificSpliceEvent is 1 iff the spanning happens at exactly
      one (sequence, event start) pair, and 0 otherwise; a pair is listed
      iff some event location at that sequence and start is spanned by some
      peptide location. */
  lemma IsoformSpecificIffOnePair(peptideId: int, features: seq<PeptideFeature>, maps: ProteomeMaps, pair: (int, int))
    requires ExpectedRow(peptideId, features, maps).Ok? && ExpectedRow(peptideId, features, maps).value.Some?
    ensures var row := ExpectedRow(peptideId, features, maps).value.value;
            && (row.isoformSpecificSpliceEvent == 1 <==> |row.sequenceSpliceEvents| == 1)
            && (row.isoformSpecificSpliceEvent == 0 || row.isoformSpecificSpliceEvent == 1)
            && row.sequenceSpliceEventCount == |row.sequenceSpliceEvents|
            && (pair in row.sequenceSpliceEvents <==>
                  exists k, j, i :: 0 <= k < |features| && 0 <= j < |features[k].spliceEventFeatures| && 0 <= i < |features|
                                    && pair == (features[k].spliceEventFeatures[j].location.sequenceId,
                                                features[k].spliceEventFeatures[j].location.start)
                                    && Spans(features[i].location, features[k].spliceEventFeatures[j].location))
  {
    var peptides := PeptideLocations(features);
    var locations := Selected(features, LocationOf);
    var row := ExpectedRow(peptideId, features, maps).value.value;
    if pair in row.sequenceSpliceEvents {
      var e :| e in locations && (exists p :: p in peptides && Spans(p, e)) && pair == (e.sequenceId, e.start);
      var p :| p in peptides && Spans(p, e);
      var i :| 0 <= i < |features| && features[i].location == p;
      SelectedMeaning(features, LocationOf, e);
      var k, j :| 0 <= k < |features| && 0 <= j < |features[k].spliceEventFeatures|
                  && LocationOf(features[k].spliceEventFeatures[j]) == e;
      assert Spans(features[i].location, features[k].spliceEventFeatures[j].location);
    }
    if exists k, j, i :: 0 <= k < |features| && 0 <= j < |features[k].spliceEventFeatures| && 0 <= i < |features|
                         && pair == (features[k].spliceEventFeatures[j].location.sequenceId,
                                     features[k].spliceEventFeatures[j].location.start)
                         && Spans(features[i].location, features[k].spliceEventFeatures[j].location) {
      var k, j, i :| 0 <= k < |features| && 0 <= j < |features[k].spliceEventFeatures| && 0 <= i < |features|
                     && pair == (features[k].spliceEventFeatures[j].location.sequenceId,
                                 features[k].spliceEventFeatures[j].location.start)
                     && Spans(features[i].location, features[k].spliceEventFeatures[j].location);
      var e := features[k].spliceEventFeatures[j].location;
      SelectedMeaning(features, LocationOf, e);
      assert features[i].location in peptides;
      assert e in locations;
    }
  }

  /** The gene columns: geneCount is the number of genes; with more than
      one gene the translation count, sequence count and alt-splice flag
      are all -1; with none they are -1, -1 and 0; with exactly one gene g
      they are g's protein count, g's number of sequences, and 1 iff g has
      more than one sequence. In every case geneAltSplice is 1 iff at most
      one gene was found and the sequence count exceeds 1. */
  lemma GeneColumns(peptideId: int, features: seq<PeptideFeature>, maps: ProteomeMaps)
    requires ExpectedRow(peptideId, features, maps).Ok? && ExpectedRow(peptideId, features, maps).value.Some?
    ensures var row := ExpectedRow(peptideId, features, maps).value.value;
            && row.geneCount == |row.genes|
            && (row.geneAltSplice == 1 <==> row.geneCount <= 1 && row.geneSequenceCount > 1)
            && (row.geneCount > 1 ==> row.geneAltSplice == -1 && row.geneTranslationCount == -1 && row.geneSequenceCount == -1)
            && (row.geneCount == 0 ==> row.geneAltSplice == 0 && row.geneTranslationCount == -1 && row.geneSequenceCount == -1)
            && (row.geneCount == 1 ==>
                  exists g :: && row.genes == {g}
                              && g in maps.geneToProteinCount && g in maps.geneToSequences
                              && row.geneTranslationCount == maps.geneToProteinCount[g]
                              && row.geneSequenceCount == |maps.geneToSequences[g]|
                              && (row.geneAltSplice == 1 <==> |maps.geneToSequences[g]| > 1)
                              && (row.geneAltSplice == 0 || row.geneAltSplice == 1))
  {
    var row := ExpectedRow(peptideId, features, maps).value.value;
    var peptides := PeptideLocations(features);
    var locations := Selected(features, LocationOf);
    var sequenceEvents := SequenceSpliceEvents(peptides, locations);
    GenesResolve(sequenceEvents, maps);
    if row.geneCount == 1 {
      var g := Only(row.genes);
      assert row.genes == {g};
    }
  }

  /** The report does not depend on the order or repetition of the
      peptide's features: features with the same elements give the same
      row. */
  lemma SameFeaturesSameRow(peptideId: int, features: seq<PeptideFeature>, features': seq<PeptideFeature>, maps: ProteomeMaps)
    requires forall f :: f in features <==> f in features'
    ensures ExpectedRow(peptideId, features, maps) == ExpectedRow(peptideId, features', maps)
  {
    SameFeaturesSameSets(features, features', EventOf);
    SameFeaturesSameSets(features, features', LocationOf);
    forall p ensures p in PeptideLocations(features) <==> p in PeptideLocations(features') {
      if p in PeptideLocations(features) {
        var i :| 0 <= i < |features| && features[i].location == p;
        assert features[i] in features';
      }
      if p in PeptideLocations(features') {
        var i :| 0 <= i < |features'| && features'[i].location == p;
        assert features'[i] in features;
      }
    }
    assert PeptideLocations(features) == PeptideLocations(features');
  }

  /** Features with the same elements select the same set. */
  lemma SameFeaturesSameSets<T>(features: seq<PeptideFeature>, features': seq<PeptideFeature>, select: SpliceEventFeature -> T)
    requires forall f :: f in features <==> f in features'
    ensures Selected(features, select) == Selected(features', select)
  {
    forall x | x in Selected(features, select) ensures x in Selected(features', select) {
      SelectedFrom(features, features', select, x);
    }
    forall x | x in Selected(features', select) ensures x in Selected(features, select) {
      SelectedFrom(features', features, select, x);
    }
  }

  /** What one feature list selects, a list with the same features selects. */
  lemma SelectedFrom<T>(features: seq<PeptideFeature>, features': seq<PeptideFeature>, select: SpliceEventFeature -> T, x: T)
    requires forall f :: f in features ==> f in features'
    ensures x in Selected(features, select) ==> x in Selected(features', select)
  {
    SelectedMeaning(features, select, x);
    SelectedMeaning(features', select, x);
    if x in Selected(features, select) {
      var i, j :| 0 <= i < |features| && 0 <= j < |features[i].spliceEventFeatures|
                  && select(features[i].spliceEventFeatures[j]) == x;
      assert features[i] in features';
      var i' :| 0 <= i' < |features'| && features'[i'] == features[i];
      assert select(features'[i'].spliceEventFeatures[j]) == x;
    }
  }
}
