/** The logic of the peptide check form: joining a set of protein
    accessions into text, finding the requested peptide among the
    background peptides, and choosing the confirmation message. Sets are
    given as sequences in their iteration order. */
module PeptideCheck {
  import opened JavaLang

  /** Each element followed by ", ", in iteration order. */
  function Joined(elements: seq<string>): string {
    if elements == [] then ""
    else Joined(elements[..|elements| - 1]) + elements[|elements| - 1] + ", "
  }

  /** The loop of getSetAsString: append each element and ", ". */
  method JoinElements(elements: seq<string>) returns (setContent: string)
    ensures setContent == Joined(elements)
  {
    setContent := "";
    var i := 0;
    while i < |elements|
      invariant 0 <= i <= |elements|
      invariant setContent == Joined(elements[..i])
    {
      assert elements[..i + 1][..i] == elements[..i];
      setContent := setContent + elements[i] + ", ";
      i := i + 1;
    }
    assert elements[..i] == elements;
  }

  /** The last ", " of the joined text is its final two characters; there
      is none when there are no elements. */
  lemma LastSeparator(elements: seq<string>)
    ensures var j := Joined(elements);
            LastIndexOf(j, ", ") == if elements == [] then -1 else |j| - 2
  {
    var j := Joined(elements);
    if elements != [] {
      var last := elements[|elements| - 1];
      assert j == Joined(elements[..|elements| - 1]) + last + ", ";
      assert j[|j| - 2..] == ", ";
      assert OccursAt(j, ", ", |j| - 2);
    } else {
      assert !OccursAt(j, ", ", 0);
    }
  }

  /** getSetAsString as written: the joined text cut at
      lastIndexOf(", ") - 1. The cut removes the final ", " and one more
      character; it throws when the joined text is shorter than three
      characters. */
  method GetSetAsString(elements: seq<string>) returns (r: Result<string>)
    ensures var j := Joined(elements);
            && (r.Ok? <==> |j| >= 3)
            && (r.Ok? ==> r.value == j[..|j| - 3])
            && (r.Err? ==> r.error == StringIndexOutOfBounds)
  {
    var setContent := JoinElements(elements);
    LastSeparator(elements);
    r := Substring(setContent, 0, LastIndexOf(setContent, ", ") - 1);
  }

  /** The elements separated by ", ". */
  function Listed(elements: seq<string>): string {
    if |elements| <= 1 then (if elements == [] then "" else elements[0])
    else Listed(elements[..|elements| - 1]) + ", " + elements[|elements| - 1]
  }

  /** The joined text is the listed elements followed by ", ". */
  lemma {:induction false} JoinedIsListed(elements: seq<string>)
    requires elements != []
    ensures Joined(elements) == Listed(elements) + ", "
    decreases |elements|
  {
    if |elements| > 1 {
      var front := elements[..|elements| - 1];
      JoinedIsListed(front);
    } else {
      assert elements[..0] == [];
    }
  }

  /** getSetAsString as intended: the joined text cut at lastIndexOf(", "),
      which lists the elements separated by ", "; only the empty set still
      throws. */
  method CorrectedGetSetAsString(elements: seq<string>) returns (r: Result<string>)
    ensures elements != [] ==> r == Ok(Listed(elements))
    ensures elements == [] ==> r == Err(StringIndexOutOfBounds)
  {
    var setContent := JoinElements(elements);
    LastSeparator(elements);
    if elements != [] {
      JoinedIsListed(elements);
    }
    r := Substring(setContent, 0, LastIndexOf(setContent, ", "));
  }

  /** The text getSetAsString produces: the joined text without its last
      three characters, i.e. every element but the last followed by ", ",
      then the last element without its final character. It fails for the
      empty set and for a set whose only element is empty. */
  lemma SetAsStringDropsLastCharacter(elements: seq<string>)
    ensures elements == [] ==> |Joined(elements)| < 3
    ensures |elements| == 1 && elements[0] == "" ==> |Joined(elements)| < 3
    ensures elements != [] && elements[|elements| - 1] != "" ==>
              var last := elements[|elements| - 1];
              var j := Joined(elements);
              |j| >= 3 && j[..|j| - 3] == Joined(elements[..|elements| - 1]) + last[..|last| - 1]
  {
    if elements != [] {
      var last := elements[|elements| - 1];
      var front := Joined(elements[..|elements| - 1]);
      var j := Joined(elements);
      assert j == front + last + ", ";
      if last != "" {
        assert j[..|j| - 3] == front + last[..|last| - 1];
      }
      if |elements| == 1 {
        assert elements[..0] == [];
      }
    }
  }

  /** The three messages of the check, by number of accessions. */
  const UnexpectedError := "An unexpected error occurred. Please try again."

  function FoundMessage(sequence: string, noun: string, accessions: string, organism: string, protease: string): string {
    "The peptide " + sequence + " is found in " + noun + " " + accessions
    + " for organism " + organism + " and protease " + protease + "."
  }

  /** The confirmation message of PeptideCheckFormThread.run: the plural
      form for more than one accession, the singular form for exactly one,
      the error text for none. The accessions are listed by the corrected
      getSetAsString. */
  method ConfirmationMessage(sequence: string, accessions: seq<string>, organism: string, protease: string)
    returns (message: string)
    ensures |accessions| == 0 ==> message == UnexpectedError
    ensures |accessions| > 1 ==> message == FoundMessage(sequence, "proteins", Listed(accessions), organism, protease)
    ensures |accessions| == 1 ==> message == FoundMessage(sequence, "protein", accessions[0], organism, protease)
  {
    if |accessions| > 1 {
      var list := CorrectedGetSetAsString(accessions);
      message := FoundMessage(sequence, "proteins", list.value, organism, protease);
    } else if |accessions| == 1 {
      var list := CorrectedGetSetAsString(accessions);
      message := FoundMessage(sequence, "protein", list.value, organism, protease);
    } else {
      message := UnexpectedError;
    }
  }

  /** The form's state that the check updates: the peptide found by the
      last lookup (null until one is found). */
  class PeptideCheckForm<P> {
    var foundPeptide: Option<P>

    constructor ()
      ensures foundPeptide == None
    {
      foundPeptide := None;
    }

    /** The lookup loop of PeptideCheckFormThread.run: scan the background
        peptides in iteration order, keep the first whose sequence string
        equals the requested one and stop there. `examined` is how many
        peptides were compared. When none matches the field keeps its old
        value. */
    method FindPeptide(background: seq<P>, sequenceOf: P -> string, requested: string)
      returns (isFound: bool, ghost examined: nat)
      modifies this
      ensures isFound <==> exists i :: 0 <= i < |background| && sequenceOf(background[i]) == requested
      ensures isFound ==> 0 < examined <= |background|
                          && foundPeptide == Some(background[examined - 1])
                          && sequenceOf(background[examined - 1]) == requested
                          && forall i :: 0 <= i < examined - 1 ==> sequenceOf(background[i]) != requested
      ensures !isFound ==> examined == |background| && foundPeptide == old(foundPeptide)
    {
      isFound := false;
      var i := 0;
      while i < |background|
        invariant 0 <= i <= |background|
        invariant forall j :: 0 <= j < i ==> sequenceOf(background[j]) != requested
        invariant foundPeptide == old(foundPeptide)
      {
        if sequenceOf(background[i]) == requested {
          foundPeptide := Some(background[i]);
          isFound := true;
          break;
        }
        i := i + 1;
      }
      examined := if isFound then i + 1 else i;
    }
  }
}
