// The file of sent options as the dibbler client reads it: one option a line, in the form
// option-type:option-len:option-data (source/WanManager/wanmgr_dhcpv6_apis.c:972-974).

module OptionFile {
  import opened Text

  datatype FileOption = FileOption(tag: nat, length: nat, data: string)

  /** The text before the first `c`, or the whole text. */
  function UpTo(s: string, c: char): string {
    if s == "" || s[0] == c then "" else [s[0]] + UpTo(s[1..], c)
  }

  /** The text after the first `c`, or nothing. */
  function Past(s: string, c: char): string {
    if s == "" then "" else if s[0] == c then s[1..] else Past(s[1..], c)
  }

  /** The lines of a text: what stands before each line end. */
  function Lines(text: string): seq<string> {
    var pieces := Split(text, '\n');
    pieces[..|pieces| - 1]
  }

  /** A number up to the first colon, a number up to the second, and the rest. */
  function ReadLine(line: string): FileOption {
    var rest := Past(line, ':');
    FileOption(Atol(UpTo(line, ':')), Atol(UpTo(rest, ':')), Past(rest, ':'))
  }

  function ReadLines(lines: seq<string>): (r: seq<FileOption>)
    ensures |r| == |lines|
  {
    if lines == [] then [] else ReadLines(lines[..|lines| - 1]) + [ReadLine(lines[|lines| - 1])]
  }

  function ReadFile(text: string): seq<FileOption> {
    ReadLines(Lines(text))
  }

  // ---- Properties ----

  lemma {:induction false} CutAt(a: string, b: string, c: char)
    requires Free(a, c)
    ensures UpTo(a + [c] + b, c) == a && Past(a + [c] + b, c) == b
  {
    var s := a + [c] + b;
    if a == "" {
      assert s[1..] == b;
    } else {
      assert s[0] == a[0] && s[1..] == a[1..] + [c] + b && Free(a[1..], c);
      CutAt(a[1..], b, c);
      assert [a[0]] + a[1..] == a;
    }
  }

  lemma DecFree(n: nat, c: char)
    requires !IsDigit(c)
    ensures Free(Dec(n), c)
  {
    forall i | 0 <= i < |Dec(n)| ensures Dec(n)[i] != c {
      assert IsDigit(Dec(n)[i]);
    }
  }

  /** A line in that form reads as its three parts. */
  lemma ReadLineIs(tag: nat, length: nat, data: string)
    ensures ReadLine(Dec(tag) + ":" + Dec(length) + ":" + data) == FileOption(tag, length, data)
  {
    var rest := Dec(length) + ":" + data;
    assert Dec(tag) + ":" + Dec(length) + ":" + data == Dec(tag) + [':'] + rest;
    assert rest == Dec(length) + [':'] + data;
    DecFree(tag, ':');
    DecFree(length, ':');
    CutAt(Dec(tag), rest, ':');
    CutAt(Dec(length), data, ':');
    AtolOfDec(tag);
    AtolOfDec(length);
  }

  lemma {:induction false} SplitSingleIff(s: string, c: char)
    ensures |Split(s, c)| == 1 <==> Free(s, c)
  {
    if s != "" {
      SplitSingleIff(s[1..], c);
      assert Free(s, c) <==> s[0] != c && Free(s[1..], c) by {
        if s[0] != c && Free(s[1..], c) {
          assert forall i :: 0 < i < |s| ==> s[i] == s[1..][i - 1];
        }
        if Free(s, c) {
          assert forall i :: 0 <= i < |s| - 1 ==> s[1..][i] == s[i + 1];
        }
      }
    }
  }

  predicate Ended(text: string) {
    LastOf(Split(text, '\n')) == ""
  }

  /** A text that ends its last line can be read on its own. */
  lemma LinesSplit(a: string, b: string)
    requires Ended(a)
    ensures Lines(a + b) == Lines(a) + Lines(b) && (Ended(b) ==> Ended(a + b))
  {
    var p, q := Split(a, '\n'), Split(b, '\n');
    SplitGlue(a, b, '\n');
    assert "" + q[0] == q[0];
    assert Glue(p, q) == p[..|p| - 1] + q;
  }

  lemma PiecesOfLineEnd()
    ensures Split("\n", '\n') == ["", ""]
  {
    SplitAt("", "", '\n');
    assert "" + ['\n'] + "" == "\n";
  }

  lemma GlueEnd(p: seq<string>)
    requires p != []
    ensures Glue(p, ["", ""]) == p + [""]
  {
    assert LastOf(p) + "" == LastOf(p);
  }

  /** One body and its line end. */
  lemma LinesOfBody(body: string)
    ensures Lines(body + "\n") == Split(body, '\n') && Ended(body + "\n")
  {
    var p := Split(body, '\n');
    PiecesOfLineEnd();
    SplitGlue(body, "\n", '\n');
    GlueEnd(p);
    assert (p + [""])[..|p|] == p;
  }

  lemma {:induction false} ReadLinesSplit(a: seq<string>, b: seq<string>)
    ensures ReadLines(a + b) == ReadLines(a) + ReadLines(b)
  {
    if b == [] {
      assert a + b == a;
    } else {
      var n := |b| - 1;
      ReadLinesSplit(a, b[..n]);
      assert (a + b)[..|a + b| - 1] == a + b[..n];
    }
  }
}
