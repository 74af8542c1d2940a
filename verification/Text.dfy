// Decimal numerals and separated lists, as printf, atoi and strchr loops see them.

module Text {
  import opened WanTypes

  // ---- Decimal numerals ----

  predicate IsDigit(c: char) {
    '0' <= c <= '9'
  }

  predicate AllDigits(s: string) {
    forall i :: 0 <= i < |s| ==> IsDigit(s[i])
  }

  /** The numeral printed by %lu and %d. */
  function Dec(n: nat): (s: string)
    ensures s != "" && AllDigits(s)
  {
    var last := [('0' as int + n % 10) as char];
    if n < 10 then last else Dec(n / 10) + last
  }

  /** Digits are written in base ten, the most significant first. */
  lemma DecSpelled(n: nat, k: nat)
    requires k < 10
    ensures Dec(k) == ["0123456789"[k]]
    ensures n > 0 ==> Dec(10 * n + k) == Dec(n) + ["0123456789"[k]]
  {
    assert (10 * n + k) / 10 == n && (10 * n + k) % 10 == k;
  }

  /** The value of a digit string; atoi and atol on a text that is all digits. */
  function Value(s: string): nat
    requires AllDigits(s)
  {
    if s == "" then 0
    else
      assert IsDigit(s[|s| - 1]);
      Value(s[..|s| - 1]) * 10 + (s[|s| - 1] as int - '0' as int)
  }

  lemma {:induction false} ValueOfDec(n: nat)
    ensures Value(Dec(n)) == n
  {
    var s := Dec(n);
    if n < 10 {
      assert s[..0] == "";
    } else {
      ValueOfDec(n / 10);
      assert s[..|s| - 1] == Dec(n / 10);
    }
  }

  lemma DecInjective(a: nat, b: nat)
    requires Dec(a) == Dec(b)
    ensures a == b
  {
    ValueOfDec(a);
    ValueOfDec(b);
  }

  /** Leading digits of a text, the part atol reads. */
  function Digits(s: string): (r: string)
    ensures AllDigits(r)
  {
    if s == "" || !IsDigit(s[0]) then "" else [s[0]] + Digits(s[1..])
  }

  function Atol(s: string): nat {
    Value(Digits(s))
  }

  lemma {:induction false} DigitsOfAll(s: string)
    requires AllDigits(s)
    ensures Digits(s) == s
  {
    if s != "" {
      assert IsDigit(s[0]);
      DigitsOfAll(s[1..]);
    }
  }

  lemma AtolOfDec(n: nat)
    ensures Atol(Dec(n)) == n
  {
    DigitsOfAll(Dec(n));
    ValueOfDec(n);
  }

  // ---- Lists with a separator ----

  predicate Free(s: string, sep: char) {
    forall i :: 0 <= i < |s| ==> s[i] != sep
  }

  /** The pieces between separators; a text with n separators has n + 1 pieces. */
  function Split(s: string, sep: char): (r: seq<string>)
    ensures |r| > 0
  {
    if s == "" then [""]
    else
      var rest := Split(s[1..], sep);
      if s[0] == sep then [""] + rest else [[s[0]] + rest[0]] + rest[1..]
  }

  function LastOf(parts: seq<string>): string
    requires parts != []
  {
    parts[|parts| - 1]
  }

  function Join(parts: seq<string>, sep: char): string {
    if parts == [] then ""
    else if |parts| == 1 then parts[0]
    else parts[0] + [sep] + Join(parts[1..], sep)
  }

  lemma JoinCons(a: string, rest: seq<string>, sep: char)
    requires rest != []
    ensures Join([a] + rest, sep) == a + [sep] + Join(rest, sep)
  {
    assert ([a] + rest)[1..] == rest;
  }

  lemma {:induction false} JoinAppend(a: seq<string>, b: seq<string>, sep: char)
    requires a != [] && b != []
    ensures Join(a + b, sep) == Join(a, sep) + [sep] + Join(b, sep)
  {
    if |a| == 1 {
      JoinCons(a[0], b, sep);
      assert a == [a[0]];
    } else {
      JoinAppend(a[1..], b, sep);
      JoinCons(a[0], a[1..], sep);
      JoinCons(a[0], a[1..] + b, sep);
      assert a == [a[0]] + a[1..] && a + b == [a[0]] + (a[1..] + b);
    }
  }

  lemma JoinFour(a: string, b: string, c: string, d: string, sep: char)
    ensures Join([a, b, c, d], sep) == a + [sep] + b + [sep] + c + [sep] + d
  {
    JoinCons(c, [d], sep);
    JoinCons(b, [c, d], sep);
    JoinCons(a, [b, c, d], sep);
    assert [a, b, c, d] == [a] + [b, c, d] && [b, c, d] == [b] + [c, d] && [c, d] == [c] + [d];
  }

  lemma {:induction false} SplitOfFree(s: string, sep: char)
    requires Free(s, sep)
    ensures Split(s, sep) == [s]
  {
    if s != "" {
      assert Free(s[1..], sep);
      SplitOfFree(s[1..], sep);
      assert [s[0]] + s[1..] == s;
    }
  }

  /** A separator cuts: the pieces of `a sep b`. */
  lemma {:induction false} SplitAt(a: string, b: string, sep: char)
    requires Free(a, sep)
    ensures Split(a + [sep] + b, sep) == [a] + Split(b, sep)
  {
    var s := a + [sep] + b;
    if a == "" {
      assert s[1..] == b;
    } else {
      assert s[1..] == a[1..] + [sep] + b;
      assert Free(a[1..], sep);
      SplitAt(a[1..], b, sep);
      assert [a[0]] + a[1..] == a;
    }
  }

  lemma {:induction false} SplitOfJoin(parts: seq<string>, sep: char)
    requires parts != [] && forall i :: 0 <= i < |parts| ==> Free(parts[i], sep)
    ensures Split(Join(parts, sep), sep) == parts
  {
    if |parts| == 1 {
      SplitOfFree(parts[0], sep);
    } else {
      SplitOfJoin(parts[1..], sep);
      SplitAt(parts[0], Join(parts[1..], sep), sep);
    }
  }

  lemma {:induction false} JoinOfSplit(s: string, sep: char)
    ensures Join(Split(s, sep), sep) == s
  {
    if s != "" {
      var rest := Split(s[1..], sep);
      JoinOfSplit(s[1..], sep);
      if s[0] == sep {
        JoinCons("", rest, sep);
      } else if |rest| > 1 {
        assert rest == [rest[0]] + rest[1..];
        JoinCons(rest[0], rest[1..], sep);
        JoinCons([s[0]] + rest[0], rest[1..], sep);
      }
    }
  }

  /** Two lists of pieces, the last of one run together with the first of the other. */
  function Glue(p: seq<string>, q: seq<string>): (g: seq<string>)
    requires p != [] && q != []
    ensures |g| == |p| + |q| - 1
  {
    p[..|p| - 1] + [LastOf(p) + q[0]] + q[1..]
  }

  lemma GlueCons(x: string, p: seq<string>, q: seq<string>)
    requires p != [] && q != []
    ensures Glue([x] + p, q) == [x] + Glue(p, q)
  {
    assert ([x] + p)[..|p|] == [x] + p[..|p| - 1];
  }

  /** A character put before the first piece. */
  lemma GlueHead(x: char, p: seq<string>, q: seq<string>)
    requires p != [] && q != []
    ensures Glue([[x] + p[0]] + p[1..], q) == [[x] + Glue(p, q)[0]] + Glue(p, q)[1..]
  {
    if |p| == 1 {
      assert [x] + (p[0] + q[0]) == [x] + p[0] + q[0];
    } else {
      assert p == [p[0]] + p[1..];
      GlueCons(p[0], p[1..], q);
      GlueCons([x] + p[0], p[1..], q);
    }
  }

  lemma {:induction false} SplitGlue(f: string, w: string, sep: char)
    ensures Split(f + w, sep) == Glue(Split(f, sep), Split(w, sep))
  {
    var q := Split(w, sep);
    if f == "" {
      assert f + w == w && "" + q[0] == q[0];
    } else {
      var rest := Split(f[1..], sep);
      SplitGlue(f[1..], w, sep);
      assert (f + w)[1..] == f[1..] + w;
      if f[0] == sep {
        GlueCons("", rest, q);
      } else {
        GlueHead(f[0], rest, q);
      }
    }
  }

  // ---- The last occurrence of a character ----

  /** strrchr, over the first `n` characters. */
  function LastIndexOf(s: string, c: char, n: nat): Option<nat>
    requires n <= |s|
  {
    if n == 0 then None
    else if s[n - 1] == c then Some(n - 1)
    else LastIndexOf(s, c, n - 1)
  }

  predicate IsLast(s: string, c: char, i: nat) {
    i < |s| && s[i] == c && forall k :: i < k < |s| ==> s[k] != c
  }

  lemma {:induction false} LastIndexFound(s: string, c: char, n: nat)
    requires n <= |s| && forall k :: n <= k < |s| ==> s[k] != c
    ensures LastIndexOf(s, c, n) == None ==> Split(s, c) == [s]
    ensures LastIndexOf(s, c, n).Some? ==> IsLast(s, c, LastIndexOf(s, c, n).value)
  {
    if n == 0 {
      SplitOfFree(s, c);
    } else if s[n - 1] != c {
      LastIndexFound(s, c, n - 1);
    }
  }
}
