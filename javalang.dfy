/** The few java.lang behaviours the modelled code relies on: exceptions as
    error values, nullable references, and the String operations
    indexOf, lastIndexOf, substring, split and replace, and the range of
    an int. */
module JavaLang {

  /** The runtime exceptions the modelled code can raise. */
  datatype Exception =
    | StringIndexOutOfBounds   // String.substring with a bad range
    | ArrayIndexOutOfBounds    // indexing past the end of a String[]
    | NullPointer              // dereferencing a missing map entry
    | Execution                // a failed task rethrown by Future.get

  /** A value or the exception that replaced it. */
  datatype Result<T> = Ok(value: T) | Err(error: Exception)

  /** A possibly-null reference. */
  datatype Option<T> = None | Some(value: T)

  /** A Java int. */
  type Int32 = x: int | -0x8000_0000 <= x < 0x8000_0000

  /** s.indexOf(c): the first position of c in s, or -1. */
  function IndexOf(s: string, c: char): (r: int)
    ensures -1 <= r < |s|
    ensures r == -1 <==> c !in s
    ensures r >= 0 ==> s[r] == c && c !in s[..r]
  {
    if |s| == 0 then -1
    else if s[0] == c then 0
    else
      var t := IndexOf(s[1..], c);
      assert s[1..][..if t < 0 then 0 else t] == s[1..if t < 0 then 1 else t + 1];
      if t < 0 then -1 else t + 1
  }

  /** p occurs in s starting at position i. */
  predicate OccursAt(s: string, p: string, i: int) {
    0 <= i && i + |p| <= |s| && s[i..i + |p|] == p
  }

  /** s.lastIndexOf(p): the last position where p occurs in s, or -1. */
  function LastIndexOf(s: string, p: string): (r: int)
    ensures r == -1 || OccursAt(s, p, r)
    ensures forall i {:trigger OccursAt(s, p, i)} :: r < i ==> !OccursAt(s, p, i)
  {
    LastIndexAtOrBefore(s, p, |s| - |p|)
  }

  /** The last occurrence of p in s that starts at or before i, or -1. */
  function LastIndexAtOrBefore(s: string, p: string, i: int): (r: int)
    ensures r == -1 || (r <= i && OccursAt(s, p, r))
    ensures forall j {:trigger OccursAt(s, p, j)} :: r < j <= i ==> !OccursAt(s, p, j)
    decreases i + 1
  {
    if i < 0 then -1
    else if OccursAt(s, p, i) then i
    else LastIndexAtOrBefore(s, p, i - 1)
  }

  /** s.substring(begin, end): throws unless 0 <= begin <= end <= |s|. */
  function Substring(s: string, begin: int, end: int): (r: Result<string>)
    ensures r.Ok? <==> 0 <= begin <= end <= |s|
    ensures r.Ok? ==> |r.value| == end - begin
  {
    if 0 <= begin <= end <= |s| then Ok(s[begin..end]) else Err(StringIndexOutOfBounds)
  }

  /** The pieces of s between the occurrences of c, empty pieces included. */
  function Fields(s: string, c: char): (r: seq<string>)
    ensures |r| >= 1
    decreases |s|
  {
    var i := IndexOf(s, c);
    if i < 0 then [s] else [s[..i]] + Fields(s[i + 1..], c)
  }

  /** fs without its trailing empty strings. */
  function DropTrailingEmpty(fs: seq<string>): (r: seq<string>)
    ensures r <= fs
    ensures |r| > 0 ==> r[|r| - 1] != ""
    ensures forall k :: |r| <= k < |fs| ==> fs[k] == ""
  {
    if |fs| > 0 && fs[|fs| - 1] == "" then DropTrailingEmpty(fs[..|fs| - 1]) else fs
  }

  /** s.split(String.valueOf(c)) with Java's default limit: when c does not
      occur the result is [s]; otherwise the fields with trailing empty
      fields removed. */
  function Split(s: string, c: char): seq<string> {
    if c !in s then [s] else DropTrailingEmpty(Fields(s, c))
  }

  /** s.replace(t, ""): every occurrence of t removed, scanning left to right. */
  function RemoveAll(s: string, t: string): (r: string)
    requires |t| > 0
    ensures |r| <= |s|
    ensures (forall i {:trigger OccursAt(s, t, i)} :: !OccursAt(s, t, i)) ==> r == s
    decreases |s|
  {
    if |s| < |t| then s
    else if s[..|t|] == t then
      assert OccursAt(s, t, 0);
      RemoveAll(s[|t|..], t)
    else
      assert OccursAt(s, t, 0) == false;
      assert forall i :: OccursAt(s[1..], t, i) ==> OccursAt(s, t, i + 1) by {
        forall i | OccursAt(s[1..], t, i) ensures OccursAt(s, t, i + 1) {
          assert s[i + 1..i + 1 + |t|] == s[1..][i..i + |t|];
        }
      }
      [s[0]] + RemoveAll(s[1..], t)
  }
}
