/** The `--key=value` command-line parser of the splice event analyser.
    Each argument is split at "="; the key is the first piece with every
    "--" removed and the value is the second piece. */
module SpliceEventArguments {
  import opened JavaLang
  import Tables

  /** One argument: `arg.split("=")[0].replace("--", "")` and
      `arg.split("=")[1]`. Indexing a piece that split did not produce
      throws. */
  function ParseArgument(arg: string): Result<(string, string)> {
    var parts := Split(arg, '=');
    if |parts| < 2 then Err(ArrayIndexOutOfBounds)
    else Ok((RemoveAll(parts[0], "--"), parts[1]))
  }

  /** The text up to the first c, or all of s when c does not occur. */
  function UpTo(s: string, c: char): (r: string)
    ensures r <= s && c !in r
    ensures |r| < |s| ==> s[|r|] == c
  {
    var i := IndexOf(s, c);
    if i < 0 then s else s[..i]
  }

  /** Some character after position i is not c. */
  predicate SomeOtherAfter(s: string, c: char, i: int) {
    exists j :: 0 <= j < |s| && i < j && s[j] != c
  }

  /** An argument parses iff it has an "=" followed, somewhere later, by a
      character other than "=". So "--taxon", "--taxon=" and "--taxon==="
      fail, while "--taxon==9606" parses with the empty value. On success
      the key is the text before the first "=" with every "--" removed, and
      the value is the text between the first "=" and the next "=" (or the
      end). */
  lemma ParseArgumentMeaning(arg: string)
    ensures ParseArgument(arg).Ok? <==> '=' in arg && SomeOtherAfter(arg, '=', IndexOf(arg, '='))
    ensures ParseArgument(arg).Err? ==> ParseArgument(arg).error == ArrayIndexOutOfBounds
    ensures ParseArgument(arg).Ok? ==>
              var i := IndexOf(arg, '=');
              ParseArgument(arg).value == (RemoveAll(arg[..i], "--"), UpTo(arg[i + 1..], '='))
  {
    SplitInTwo(arg, '=');
  }

  /** split yields at least two pieces iff c occurs and some character
      after its first occurrence is not c; the first two pieces are then
      the text before the first c and the text from there to the next c. */
  lemma SplitInTwo(s: string, c: char)
    ensures |Split(s, c)| >= 2 <==> c in s && SomeOtherAfter(s, c, IndexOf(s, c))
    ensures |Split(s, c)| >= 2 ==>
              var i := IndexOf(s, c);
              Split(s, c)[0] == s[..i] && Split(s, c)[1] == UpTo(s[i + 1..], c)
  {
    if c in s {
      SplitCount(s, c);
      if |Split(s, c)| >= 2 {
        SplitFirstTwo(s, c);
      }
    }
  }

  /** The count half of SplitInTwo, for a string that contains c. */
  lemma SplitCount(s: string, c: char)
    requires c in s
    ensures |Split(s, c)| >= 2 <==> SomeOtherAfter(s, c, IndexOf(s, c))
  {
    var i := IndexOf(s, c);
    var fs := Fields(s, c);
    FieldsAtFirst(s, c);
    assert fs[1..] == Fields(s[i + 1..], c);
    DropKeepsTwo(fs);
    AllFieldsEmpty(s[i + 1..], c);
    OtherAfterIsOtherInRest(s, c, i);
  }

  /** The pieces half of SplitInTwo, for a string that contains c. */
  lemma SplitFirstTwo(s: string, c: char)
    requires c in s && |Split(s, c)| >= 2
    ensures Split(s, c)[0] == s[..IndexOf(s, c)] && Split(s, c)[1] == UpTo(s[IndexOf(s, c) + 1..], c)
  {
    var i := IndexOf(s, c);
    var fs := Fields(s, c);
    var parts := DropTrailingEmpty(fs);
    assert Split(s, c) == parts;
    FieldsAtFirst(s, c);
    assert parts[0] == fs[0] && parts[1] == fs[1];
  }

  /** The pieces of s: the text before the first c, then the pieces of the
      text after it. */
  lemma FieldsAtFirst(s: string, c: char)
    requires c in s
    ensures Fields(s, c) == [s[..IndexOf(s, c)]] + Fields(s[IndexOf(s, c) + 1..], c)
  {
    var i := IndexOf(s, c);
    assert i >= 0;
  }

  /** Some character after position i is not c iff the text after i is not
      all c. */
  lemma OtherAfterIsOtherInRest(s: string, c: char, i: nat)
    requires i < |s|
    ensures SomeOtherAfter(s, c, i) <==> !AllChar(s[i + 1..], c)
  {
    var rest := s[i + 1..];
    if SomeOtherAfter(s, c, i) {
      var j :| 0 <= j < |s| && i < j && s[j] != c;
      assert rest[j - i - 1] == s[j];
    }
    if !AllChar(rest, c) {
      var j :| 0 <= j < |rest| && rest[j] != c;
      assert s[j + i + 1] == rest[j];
    }
  }

  /** Every character of s is c. */
  predicate AllChar(s: string, c: char) {
    forall j :: 0 <= j < |s| ==> s[j] == c
  }

  /** Every string in fs is empty. */
  predicate AllEmpty(fs: seq<string>) {
    forall k :: 0 <= k < |fs| ==> fs[k] == ""
  }

  /** Dropping trailing empty pieces leaves at least two iff some piece
      after the first is non-empty. */
  lemma DropKeepsTwo(fs: seq<string>)
    requires |fs| >= 1
    ensures |DropTrailingEmpty(fs)| >= 2 <==> !AllEmpty(fs[1..])
  {
    var r := DropTrailingEmpty(fs);
    if |r| >= 2 {
      assert fs[1..][|r| - 2] == r[|r| - 1];
    }
    if !AllEmpty(fs[1..]) {
      var k :| 0 <= k < |fs[1..]| && fs[1..][k] != "";
      assert fs[k + 1] != "";
    }
  }

  /** Every piece between the occurrences of c is empty iff every
      character is c. */
  lemma {:induction false} AllFieldsEmpty(s: string, c: char)
    ensures AllEmpty(Fields(s, c)) <==> AllChar(s, c)
    decreases |s|
  {
    if c in s {
      var i := IndexOf(s, c);
      var rest := s[i + 1..];
      FieldsAtFirst(s, c);
      AllFieldsEmpty(rest, c);
      var fs := Fields(s, c);
      assert AllEmpty(fs) <==> s[..i] == "" && AllEmpty(Fields(rest, c)) by {
        EmptyCons(s[..i], Fields(rest, c));
      }
      CharSplit(s, c, i);
      if i > 0 {
        assert s[0] != c;
      }
    } else if s != "" {
      assert Fields(s, c) == [s];
      assert Fields(s, c)[0] != "";
      assert s[0] != c;
    }
  }

  /** [f] + fs is all empty iff f is empty and fs is all empty. */
  lemma EmptyCons(f: string, fs: seq<string>)
    ensures AllEmpty([f] + fs) <==> f == "" && AllEmpty(fs)
  {
    if f == "" && AllEmpty(fs) {
      forall k | 0 <= k < |[f] + fs| ensures ([f] + fs)[k] == "" {
        if k > 0 { assert ([f] + fs)[k] == fs[k - 1]; }
      }
    }
    if AllEmpty([f] + fs) {
      assert ([f] + fs)[0] == f;
      forall k | 0 <= k < |fs| ensures fs[k] == "" {
        assert ([f] + fs)[k + 1] == fs[k];
      }
    }
  }

  /** With s[i] == c, s is all c iff both sides of position i are. */
  lemma CharSplit(s: string, c: char, i: nat)
    requires i < |s| && s[i] == c
    ensures AllChar(s, c) <==> AllChar(s[..i], c) && AllChar(s[i + 1..], c)
  {
    if AllChar(s[..i], c) && AllChar(s[i + 1..], c) {
      forall j | 0 <= j < |s| ensures s[j] == c {
        if j < i { assert s[..i][j] == s[j]; }
        else if j > i { assert s[i + 1..][j - i - 1] == s[j]; }
      }
    }
  }

  /** Removing "--" left to right never leaves a "--" behind, so no key
      contains "--". */
  lemma {:induction false} NoDoubleDashRemains(s: string)
    ensures forall i {:trigger OccursAt(RemoveAll(s, "--"), "--", i)} :: !OccursAt(RemoveAll(s, "--"), "--", i)
    decreases |s|
  {
    var r := RemoveAll(s, "--");
    if |s| < 2 {
    } else if s[..2] == "--" {
      NoDoubleDashRemains(s[2..]);
    } else {
      var tail := RemoveAll(s[1..], "--");
      NoDoubleDashRemains(s[1..]);
      assert r == [s[0]] + tail;
      if s[0] == '-' {
        assert s[1] != '-';
        KeepsNonDash(s[1..]);
      }
      forall i | 0 < i ensures OccursAt(r, "--", i) == OccursAt(tail, "--", i - 1) {
        if i + 2 <= |r| {
          assert r[i..i + 2] == tail[i - 1..i + 1];
        }
      }
    }
  }

  /** A string that starts with a character other than '-' keeps that
      character in front when "--" is removed. */
  lemma KeepsNonDash(s: string)
    requires |s| > 0 && s[0] != '-'
    ensures |RemoveAll(s, "--")| > 0 && RemoveAll(s, "--")[0] == s[0]
  {
    if |s| >= 2 {
      assert s[..2] != "--";
    }
  }

  /** Every argument parses. */
  predicate AllParse(args: seq<string>) {
    forall i :: 0 <= i < |args| ==> ParseArgument(args[i]).Ok?
  }

  /** The (key, value) pairs of arguments that all parse, in order. */
  function Pairs(args: seq<string>): (r: seq<(string, string)>)
    requires AllParse(args)
    ensures |r| == |args|
    ensures forall i :: 0 <= i < |args| ==> r[i] == ParseArgument(args[i]).value
  {
    seq(|args|, i requires 0 <= i < |args| && AllParse(args) => ParseArgument(args[i]).value)
  }

  /** Extending the parsed arguments by one that parses appends its pair. */
  lemma PairsExtend(args: seq<string>, i: nat)
    requires i < |args| && AllParse(args[..i]) && ParseArgument(args[i]).Ok?
    ensures AllParse(args[..i + 1])
    ensures Pairs(args[..i + 1]) == Pairs(args[..i]) + [ParseArgument(args[i]).value]
  {
    var before, after := args[..i], args[..i + 1];
    forall j | 0 <= j < |after| ensures ParseArgument(after[j]).Ok? {
      if j < i { assert after[j] == before[j]; }
    }
    var p, q := Pairs(before), Pairs(after);
    forall j | 0 <= j < |q| ensures q[j] == (p + [ParseArgument(args[i]).value])[j] {
      if j < i { assert after[j] == before[j]; }
    }
  }

  /** parseCommandLineArguments: parse each argument and `put` its pair,
      so a later argument with the same key overwrites an earlier one. The
      first argument that does not parse aborts the whole parse. */
  method ParseCommandLineArguments(args: seq<string>) returns (r: Result<map<string, string>>)
    ensures r.Ok? <==> AllParse(args)
    ensures r.Err? ==> r.error == ArrayIndexOutOfBounds
    ensures r.Ok? ==> Tables.KeepsLastValue(Pairs(args), r.value)
  {
    var retVal: map<string, string> := map[];
    var i := 0;
    while i < |args|
      invariant 0 <= i <= |args|
      invariant AllParse(args[..i])
      invariant Tables.KeepsLastValue(Pairs(args[..i]), retVal)
    {
      var parsed := ParseArgument(args[i]);
      if parsed.Err? {
        return Err(parsed.error);
      }
      var (key, value) := parsed.value;
      Tables.PutKeepsLastValue(Pairs(args[..i]), retVal, key, value);
      PairsExtend(args, i);
      retVal := retVal[key := value];
      i := i + 1;
    }
    assert args[..i] == args;
    r := Ok(retVal);
  }
}
