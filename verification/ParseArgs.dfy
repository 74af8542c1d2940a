// Splitting a command line into an argument vector: one loop counts the slots, another fills
// them (source/WanManager/wanmgr_utils.c).

module ParseArgs {
  import opened WanTypes
  import opened Text

  // ---- What the vector should hold ----

  function NonEmpty(parts: seq<string>): seq<string> {
    if parts == [] then []
    else (if parts[0] == "" then [] else [parts[0]]) + NonEmpty(parts[1..])
  }

  /** The maximal space-free words of a text, in order. */
  function Words(s: string): seq<string> {
    NonEmpty(Split(s, ' '))
  }

  /** The part of a path after its last slash. */
  function BaseName(path: string): string {
    LastOf(Split(path, '/'))
  }

  function TextOf(args: Option<string>): string {
    match args
    case None => ""
    case Some(s) => s
  }

  function Somes(words: seq<string>): (r: seq<Option<string>>)
    ensures |r| == |words| && forall i :: 0 <= i < |r| ==> r[i] == Some(words[i])
  {
    seq(|words|, i requires 0 <= i < |words| => Some(words[i]))
  }

  /** The vector up to and including its terminator. */
  function Argv(cmd: string, args: Option<string>): seq<Option<string>> {
    [Some(BaseName(cmd))] + Somes(Words(TextOf(args))) + [None]
  }

  // ---- Words by scanning ----

  function WordEnd(s: string, i: nat): (e: nat)
    requires i <= |s|
    ensures i <= e <= |s|
    decreases |s| - i
  {
    if i == |s| || s[i] == ' ' then i else WordEnd(s, i + 1)
  }

  predicate AfterSpace(s: string, i: nat)
    requires i <= |s|
  {
    i == 0 || s[i - 1] == ' '
  }

  /** The word that starts at position `i`, if one does. */
  function StartingAt(s: string, i: nat): seq<string>
    requires i < |s|
  {
    if s[i] != ' ' && AfterSpace(s, i) then [s[i..WordEnd(s, i)]] else []
  }

  /** The words that start before position `i`. */
  function Started(s: string, i: nat): seq<string>
    requires i <= |s|
  {
    if i == 0 then []
    else Started(s, i - 1) + StartingAt(s, i - 1)
  }

  lemma {:induction false} WordEndShift(s: string, p: nat, b: string, i: nat)
    requires p <= |s| && b == s[p..] && i <= |b|
    ensures WordEnd(s, p + i) == p + WordEnd(b, i)
    decreases |b| - i
  {
    if i < |b| && b[i] != ' ' { WordEndShift(s, p, b, i + 1); }
  }

  /** The first `n` characters, and no more, are free of spaces. */
  predicate FirstPiece(s: string, n: nat) {
    n <= |s| && (forall k :: 0 <= k < n ==> s[k] != ' ') && (n < |s| ==> s[n] == ' ')
  }

  lemma {:induction false} WordEndAt(s: string, i: nat, n: nat)
    requires FirstPiece(s, n) && i <= n
    ensures WordEnd(s, i) == n
    decreases n - i
  {
    if i < n { WordEndAt(s, i + 1, n); }
  }

  lemma {:induction false} WordEndFirst(s: string, i: nat)
    requires i <= |s| && forall k :: 0 <= k < i ==> s[k] != ' '
    ensures FirstPiece(s, WordEnd(s, i))
    decreases |s| - i
  {
    if i < |s| && s[i] != ' ' { WordEndFirst(s, i + 1); }
  }

  /** Inside the first piece at most that piece has started. */
  lemma {:induction false} StartedFirst(s: string, n: nat, k: nat)
    requires k <= n && FirstPiece(s, n)
    ensures Started(s, k) == if k == 0 then [] else [s[..n]]
  {
    if k > 0 {
      StartedFirst(s, n, k - 1);
      if k == 1 { WordEndAt(s, 0, n); }
    }
  }

  lemma StartingLater(s: string, p: nat, b: string, k: nat)
    requires 0 < p <= |s| && s[p - 1] == ' ' && b == s[p..] && k < |b|
    ensures StartingAt(s, p + k) == StartingAt(b, k)
  {
    WordEndShift(s, p, b, k);
    var e := WordEnd(b, k);
    assert s[p + k..p + e] == b[k..e];
  }

  lemma Assoc<T>(a: seq<T>, b: seq<T>, c: seq<T>)
    ensures a + b + c == a + (b + c)
  {}

  /** After a space the scan starts afresh. */
  lemma {:induction false} StartedLater(s: string, p: nat, b: string, k: nat)
    requires 0 < p <= |s| && s[p - 1] == ' ' && b == s[p..] && k <= |b|
    ensures Started(s, p + k) == Started(s, p) + Started(b, k)
  {
    if k > 0 {
      StartedLater(s, p, b, k - 1);
      StartingLater(s, p, b, k - 1);
      Assoc(Started(s, p), Started(b, k - 1), StartingAt(b, k - 1));
    }
  }

  lemma NonEmptyStep(a: string, rest: seq<string>)
    ensures NonEmpty([a] + rest) == (if a == "" then [] else [a]) + NonEmpty(rest)
  {
    assert ([a] + rest)[1..] == rest;
  }

  /** A leading piece as a word, unless it is empty. */
  function FirstWord(s: string, n: nat): seq<string>
    requires n <= |s|
  {
    if n == 0 then [] else [s[..n]]
  }

  lemma WordsOfOne(s: string)
    requires FirstPiece(s, |s|)
    ensures Words(s) == FirstWord(s, |s|)
  {
    SplitOfFree(s, ' ');
    NonEmptyStep(s, []);
    assert s[..|s|] == s;
  }

  lemma WordsOfMore(s: string, n: nat, b: string)
    requires n < |s| && FirstPiece(s, n) && b == s[n + 1..]
    ensures Words(s) == FirstWord(s, n) + Words(b)
  {
    var a := s[..n];
    assert s == a + [' '] + b;
    SplitAt(a, b, ' ');
    NonEmptyStep(a, Split(b, ' '));
  }

  lemma StartedThroughSpace(s: string, n: nat)
    requires n < |s| && FirstPiece(s, n)
    ensures Started(s, n + 1) == FirstWord(s, n)
  {
    StartedFirst(s, n, n);
    assert StartingAt(s, n) == [];
  }

  /** A scan of all of `s` whose first `p` characters gave `w`. */
  lemma StartedSplits(s: string, p: nat, b: string, w: seq<string>)
    requires 0 < p <= |s| && s[p - 1] == ' ' && b == s[p..] && Started(s, p) == w
    ensures Started(s, |s|) == w + Started(b, |b|)
  {
    StartedLater(s, p, b, |b|);
  }

  lemma StartedOfOne(s: string)
    requires FirstPiece(s, |s|)
    ensures Started(s, |s|) == FirstWord(s, |s|)
  {
    StartedFirst(s, |s|, |s|);
  }

  /** Scanning finds exactly the words. */
  lemma {:induction false} StartedIsWords(s: string)
    ensures Started(s, |s|) == Words(s)
    decreases |s|
  {
    var n := WordEnd(s, 0);
    WordEndFirst(s, 0);
    if n == |s| {
      StartedOfOne(s);
      WordsOfOne(s);
    } else {
      var b := s[n + 1..];
      StartedIsWords(b);
      StartedThroughSpace(s, n);
      StartedSplits(s, n + 1, b, FirstWord(s, n));
      WordsOfMore(s, n, b);
    }
  }

  // ---- The counting loop ----

  /** The slots counted and the flag after `i` characters; a space seen while the flag is up
      takes it down again. */
  function Counted(s: string, i: nat): (nat, bool)
    requires i <= |s|
  {
    if i == 0 then (3, true)
    else
      var (n, inSpace) := Counted(s, i - 1);
      if s[i - 1] == ' ' && !inSpace then (n + 1, true) else (n, false)
  }

  /** The flag is up only after a space, so the end of every word is counted. */
  lemma {:induction false} CountedCoversWords(s: string, i: nat)
    requires i <= |s|
    ensures Counted(s, i).1 ==> AfterSpace(s, i)
    ensures Counted(s, i).0 + (if AfterSpace(s, i) then 0 else 1) >= 3 + |Started(s, i)|
  {
    if i > 0 { CountedCoversWords(s, i - 1); }
  }

  /** The slots filled never exceed those counted. */
  lemma ArgvFits(cmd: string, args: Option<string>)
    ensures var s := TextOf(args); |Argv(cmd, args)| <= Counted(s, |s|).0
  {
    var s := TextOf(args);
    StartedIsWords(s);
    CountedCoversWords(s, |s|);
  }

  // ---- The command name ----

  lemma {:induction false} LastPiece(s: string, c: char, i: nat)
    requires IsLast(s, c, i)
    ensures |Split(s, c)| > 1 && LastOf(Split(s, c)) == s[i + 1..]
  {
    if i == 0 {
      SplitOfFree(s[1..], c);
    } else {
      assert s[1..][i..] == s[i + 1..];
      LastPiece(s[1..], c, i - 1);
    }
  }

  lemma BaseNameByScan(path: string)
    ensures var slash := LastIndexOf(path, '/', |path|);
            slash.Some? ==> slash.value < |path|
    ensures var slash := LastIndexOf(path, '/', |path|);
            BaseName(path) == if slash == None then path else path[slash.value + 1..]
  {
    var slash := LastIndexOf(path, '/', |path|);
    LastIndexFound(path, '/', |path|);
    if slash.Some? { LastPiece(path, '/', slash.value); }
  }

  // ---- The two passes ----

  method CountArgs(s: string) returns (numArgs: nat)
    ensures numArgs == Counted(s, |s|).0
  {
    numArgs := 3;
    var inSpace := true;
    var i := 0;
    while i < |s|
      invariant i <= |s|
      invariant (numArgs, inSpace) == Counted(s, i)
    {
      if s[i] == ' ' && !inSpace {
        numArgs := numArgs + 1;
        inSpace := true;
      } else {
        inSpace := false;
      }
      i := i + 1;
    }
  }

  lemma {:induction false} StartedGrows(s: string, i: nat, n: nat)
    requires i <= n <= |s|
    ensures |Started(s, i)| <= |Started(s, n)|
  {
    if i < n { StartedGrows(s, i, n - 1); }
  }

  method CopyWord(s: string, startIndex: nat) returns (word: string)
    requires startIndex <= |s|
    ensures word == s[startIndex..WordEnd(s, startIndex)]
  {
    var endIndex := startIndex;
    while endIndex < |s| && s[endIndex] != ' '
      invariant startIndex <= endIndex <= |s|
      invariant WordEnd(s, endIndex) == WordEnd(s, startIndex)
    {
      endIndex := endIndex + 1;
    }
    word := s[startIndex..endIndex];
  }

  /** Copies the words into the slots behind the command name. */
  method FillWords(argv: array<Option<string>>, s: string) returns (argIndex: nat)
    requires argv.Length >= 2 + |Words(s)|
    modifies argv
    ensures argIndex == 1 + |Words(s)| && argv[0] == old(argv[0])
    ensures forall k :: 0 <= k < |Words(s)| ==> argv[1 + k] == Some(Words(s)[k])
  {
    StartedIsWords(s);
    ghost var words: seq<string> := [];
    argIndex := 1;
    var inSpace := true;
    var i := 0;
    while i < |s|
      invariant i <= |s| && inSpace == AfterSpace(s, i)
      invariant words == Started(s, i) && argIndex == 1 + |words| && argIndex < argv.Length
      invariant argv[0] == old(argv[0]) && forall k :: 0 <= k < |words| ==> argv[1 + k] == Some(words[k])
    {
      StartedGrows(s, i + 1, |s|);
      if s[i] == ' ' && !inSpace {
        inSpace := true;
      } else if s[i] != ' ' && inSpace {
        var word := CopyWord(s, i);
        argv[argIndex] := Some(word);
        argIndex := argIndex + 1;
        words := words + [word];
        inSpace := false;
      }
      i := i + 1;
    }
  }

  method ParseArgs(cmd: string, args: Option<string>) returns (argv: array<Option<string>>)
    ensures fresh(argv)
    ensures var s := TextOf(args); argv.Length == Counted(s, |s|).0
    ensures var expected := Argv(cmd, args); |expected| <= argv.Length && argv[..|expected|] == expected
  {
    var s := TextOf(args);
    var numArgs := CountArgs(s);
    ArgvFits(cmd, args);
    argv := new Option<string>[numArgs];
    var slash := LastIndexOf(cmd, '/', |cmd|);
    BaseNameByScan(cmd);
    var name := if slash == None then cmd else cmd[slash.value + 1..];
    argv[0] := Some(name);
    var argIndex := FillWords(argv, s);
    argv[argIndex] := None;
    ghost var words := Words(s);
    assert forall k :: 0 <= k < |words| ==> argv[1 + k] == Some(words[k]);
    assert argv[..argIndex + 1] == [argv[0]] + argv[1..argIndex] + [None];
    assert argv[1..argIndex] == Somes(words);
  }
}
