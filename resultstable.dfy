/** The file name shown in the results table. */
module ResultsTable {
  import opened JavaLang

  /** generateFileName: the name up to its first ".". A name without "."
      makes substring throw (indexOf gives -1). On success the name is the
      result, a ".", then the rest, and the result has no "." in it. */
  function GenerateFileName(name: string): (r: Result<string>)
    ensures r.Ok? <==> '.' in name
    ensures r.Err? ==> r.error == StringIndexOutOfBounds
    ensures r.Ok? ==> '.' !in r.value
                      && |r.value| < |name| && name[..|r.value|] == r.value && name[|r.value|] == '.'
    ensures |name| > 0 && name[0] == '.' ==> r == Ok("")
  {
    Substring(name, 0, IndexOf(name, '.'))
  }
}
