// The DHCPv6 sent options in their three representations: the array in memory, the syscfg
// entries 1..n, and the file read by the dibbler client
// (source/WanManager/wanmgr_dhcpv6_apis.c).

module SentOptions {
  import opened Text
  import opened OptionFile

  /** DML_DHCPCV6_SENT */
  datatype SentOption = SentOption(inst: nat, name: string, enabled: bool, tag: nat, value: string)

  datatype Field = InstanceNumber | Alias | EnabledFlag | Tag | OptionValue

  /** Keys of syscfg. `Entry(k, f)` is the un-namespaced key written for entry k; unset
      removes keys of the last kind, which live in a namespace of their own. */
  datatype Key = Count | Entry(k: nat, f: Field) | Namespaced(ns: nat, field: Field)

  type Config = map<Key, string>

  datatype Status = Success | Failure | CantFind

  // ---- Representations ----

  function Flag(b: bool): string {
    if b then "1" else "0"
  }

  predicate Holds(cfg: Config, key: Key, text: string) {
    key in cfg && cfg[key] == text
  }

  /** Entry k of syscfg is the option, in all five fields. */
  predicate EntryIs(cfg: Config, k: nat, o: SentOption) {
    && Holds(cfg, Entry(k, InstanceNumber), Dec(o.inst))
    && Holds(cfg, Entry(k, Alias), o.name)
    && Holds(cfg, Entry(k, EnabledFlag), Flag(o.enabled))
    && Holds(cfg, Entry(k, Tag), Dec(o.tag))
    && Holds(cfg, Entry(k, OptionValue), o.value)
  }

  /** Entry k + 1 of syscfg is option k. */
  predicate EntryAt(cfg: Config, options: seq<SentOption>, k: nat)
    requires k < |options|
  {
    EntryIs(cfg, k + 1, options[k])
  }

  predicate EntriesAre(cfg: Config, options: seq<SentOption>) {
    forall k :: 0 <= k < |options| ==> EntryAt(cfg, options, k)
  }

  /** The stored count is the number of options; before the first write there is none. */
  predicate CountIs(cfg: Config, n: nat) {
    if Count in cfg then cfg[Count] == Dec(n) else n == 0
  }

  /** One line `tag:length:value` of the dibbler file, nothing for a disabled option. */
  function Line(o: SentOption): string {
    if o.enabled then Dec(o.tag) + ":" + Dec(|o.value| / 2) + ":" + o.value + "\n" else ""
  }

  function Concat<T>(line: T -> string, items: seq<T>): string {
    if items == [] then "" else Concat(line, items[..|items| - 1]) + line(items[|items| - 1])
  }

  /** The dibbler file for a list of options. */
  function Render(options: seq<SentOption>): string {
    Concat(Line, options)
  }

  function Removed<T>(s: seq<T>, i: nat): seq<T>
    requires i < |s|
  {
    s[..i] + s[i + 1..]
  }

  /** The index of the first option with that instance number, or the length. */
  function Find(options: seq<SentOption>, inst: nat): (i: nat)
    ensures i <= |options|
    ensures i < |options| ==> options[i].inst == inst
    ensures forall j :: 0 <= j < i ==> options[j].inst != inst
  {
    if options == [] || options[0].inst == inst then 0 else 1 + Find(options[1..], inst)
  }

  lemma FindIsFirst(options: seq<SentOption>, inst: nat, i: nat)
    requires i <= |options| && (i < |options| ==> options[i].inst == inst)
    requires forall j :: 0 <= j < i ==> options[j].inst != inst
    ensures Find(options, inst) == i
  {
  }

  // ---- Why the file may be left alone ----

  lemma {:induction false} ConcatSplits<T>(line: T -> string, a: seq<T>, b: seq<T>)
    ensures Concat(line, a + b) == Concat(line, a) + Concat(line, b)
  {
    if b == [] {
      assert a + b == a;
    } else {
      var n := |b| - 1;
      ConcatSplits(line, a, b[..n]);
      assert (a + b)[..|a + b| - 1] == a + b[..n];
    }
  }

  lemma ConcatOne<T>(line: T -> string, x: T)
    ensures Concat(line, [x]) == line(x)
  {
    assert [x][..0] == [];
  }

  lemma ConcatAround<T>(line: T -> string, a: seq<T>, x: T, b: seq<T>)
    ensures Concat(line, a + [x] + b) == Concat(line, a) + line(x) + Concat(line, b)
  {
    ConcatSplits(line, a + [x], b);
    ConcatSplits(line, a, [x]);
    ConcatOne(line, x);
  }

  lemma ConcatRemoved<T>(line: T -> string, s: seq<T>, i: nat)
    requires i < |s| && line(s[i]) == ""
    ensures Concat(line, Removed(s, i)) == Concat(line, s)
  {
    var a, x, b := s[..i], s[i], s[i + 1..];
    assert s == a + [x] + b;
    ConcatWithout(line, a, x, b);
  }

  lemma ConcatWithout<T>(line: T -> string, a: seq<T>, x: T, b: seq<T>)
    requires line(x) == ""
    ensures Concat(line, a + b) == Concat(line, a + [x] + b)
  {
    ConcatAround(line, a, x, b);
    ConcatSplits(line, a, b);
    assert Concat(line, a) + "" == Concat(line, a);
  }

  lemma ConcatReplaced<T>(line: T -> string, s: seq<T>, i: nat, x: T)
    requires i < |s| && line(x) == line(s[i])
    ensures Concat(line, s[i := x]) == Concat(line, s)
  {
    ConcatAround(line, s[..i], s[i], s[i + 1..]);
    ConcatAround(line, s[..i], x, s[i + 1..]);
    assert s == s[..i] + [s[i]] + s[i + 1..];
    assert s[i := x] == s[..i] + [x] + s[i + 1..];
  }

  /** Appending or removing a disabled option leaves the file right. */
  lemma DisabledNeedsNoRewrite(options: seq<SentOption>, i: nat, o: SentOption)
    ensures !o.enabled ==> Render(options + [o]) == Render(options)
    ensures i < |options| && !options[i].enabled ==> Render(Removed(options, i)) == Render(options)
  {
    ConcatSplits(Line, options, [o]);
    ConcatOne(Line, o);
    if i < |options| && !options[i].enabled { ConcatRemoved(Line, options, i); }
  }

  /** Changing only the instance number and the alias leaves the file right. */
  lemma RenamingNeedsNoRewrite(options: seq<SentOption>, i: nat, o: SentOption)
    requires i < |options|
    requires o.enabled == options[i].enabled && o.tag == options[i].tag && o.value == options[i].value
    ensures Render(options[i := o]) == Render(options)
  {
    ConcatReplaced(Line, options, i, o);
  }

  // ---- What the client reads ----

  predicate NoLineEnd(o: SentOption) {
    Free(o.value, '\n')
  }

  /** The values that are written hold no line end. */
  predicate NoLineEnds(options: seq<SentOption>) {
    forall i :: 0 <= i < |options| && options[i].enabled ==> NoLineEnd(options[i])
  }

  /** What the client is to send for one option: the tag, the length of the hexadecimal value in
      bytes, and the value; nothing for a disabled one. */
  function Sent(options: seq<SentOption>): seq<FileOption> {
    if options == [] then []
    else
      var o := options[|options| - 1];
      Sent(options[..|options| - 1]) + if o.enabled then [FileOption(o.tag, |o.value| / 2, o.value)] else []
  }

  lemma ReadOneLine(o: SentOption)
    requires o.enabled
    ensures Ended(Line(o)) && |Lines(Line(o))| >= 1 && (|Lines(Line(o))| == 1 <==> NoLineEnd(o))
    ensures NoLineEnd(o) ==> ReadFile(Line(o)) == [FileOption(o.tag, |o.value| / 2, o.value)]
  {
    var head := Dec(o.tag) + ":" + Dec(|o.value| / 2) + ":";
    var body := head + o.value;
    LinesOfBody(body);
    assert Line(o) == body + "\n";
    SplitSingleIff(body, '\n');
    DecFree(o.tag, '\n');
    DecFree(|o.value| / 2, '\n');
    assert Free(head, '\n');
    assert Free(body, '\n') <==> NoLineEnd(o) by {
      assert forall i :: 0 <= i < |o.value| ==> body[|head| + i] == o.value[i];
    }
    if NoLineEnd(o) {
      SplitOfFree(body, '\n');
      ReadLineIs(o.tag, |o.value| / 2, o.value);
      assert [body][..0] == [];
    }
  }

  /** The file has a line for each enabled option at least, and no more exactly if no value
      brings a line end of its own. */
  lemma {:induction false} FileLines(options: seq<SentOption>)
    ensures Ended(Render(options)) && |Lines(Render(options))| >= |Sent(options)|
    ensures |Lines(Render(options))| == |Sent(options)| <==> NoLineEnds(options)
  {
    if options != [] {
      var front, o := options[..|options| - 1], options[|options| - 1];
      FileLines(front);
      assert NoLineEnds(options) <==> NoLineEnds(front) && (o.enabled ==> NoLineEnd(o)) by {
        assert forall i :: 0 <= i < |front| ==> front[i] == options[i];
      }
      if o.enabled {
        ReadOneLine(o);
        LinesSplit(Render(front), Line(o));
      } else {
        assert Render(front) + "" == Render(front);
      }
    }
  }

  lemma {:induction false} FileReads(options: seq<SentOption>)
    requires NoLineEnds(options)
    ensures ReadFile(Render(options)) == Sent(options)
  {
    if options != [] {
      var front, o := options[..|options| - 1], options[|options| - 1];
      assert NoLineEnds(front);
      FileReads(front);
      if o.enabled {
        FileLines(front);
        ReadOneLine(o);
        LinesSplit(Render(front), Line(o));
        ReadLinesSplit(Lines(Render(front)), Lines(Line(o)));
      } else {
        assert Render(front) + "" == Render(front);
      }
    }
  }

  /** The client reads from the file tag, length and value of exactly the enabled options, in
      order, if and only if no value holds a line end. */
  lemma FileReadsIff(options: seq<SentOption>)
    ensures ReadFile(Render(options)) == Sent(options) <==> NoLineEnds(options)
  {
    FileLines(options);
    if NoLineEnds(options) { FileReads(options); }
  }

  // ---- What is read back from syscfg ----

  function TextAt(cfg: Config, key: Key): string {
    if key in cfg then cfg[key] else ""
  }

  /** An entry as WanMgr_DmlDhcpv6cGetSentOption reads it: the tag comes from the key of the
      instance number. */
  function EntryOf(cfg: Config, k: nat): SentOption {
    var flag := TextAt(cfg, Entry(k, EnabledFlag));
    SentOption(Atol(TextAt(cfg, Entry(k, InstanceNumber))), TextAt(cfg, Entry(k, Alias)), flag != "" && flag[0] == '1',
               Atol(TextAt(cfg, Entry(k, InstanceNumber))), TextAt(cfg, Entry(k, OptionValue)))
  }

  /** The option with its instance number in place of its tag. */
  function Mistagged(o: SentOption): SentOption {
    o.(tag := o.inst)
  }

  lemma EntryOfIs(cfg: Config, k: nat, o: SentOption)
    requires EntryIs(cfg, k, o)
    ensures EntryOf(cfg, k) == Mistagged(o)
  {
    AtolOfDec(o.inst);
  }

  /** Each of `options` as it is read back. */
  predicate ReadBackFrom(now: seq<SentOption>, options: seq<SentOption>) {
    |now| == |options| && forall i :: 0 <= i < |now| ==> now[i] == Mistagged(options[i])
  }

  predicate FilledFrom(now: seq<SentOption>, options: seq<SentOption>, n: nat) {
    |now| == |options| && forall i :: 0 <= i < n && i < |now| ==> now[i] == Mistagged(options[i])
  }

  lemma FillNext(now: seq<SentOption>, options: seq<SentOption>, n: nat)
    requires FilledFrom(now, options, n) && n < |now|
    ensures FilledFrom(now[n := Mistagged(options[n])], options, n + 1)
  {
  }

  /** The list that is read back is the one that was written, and agrees with its entries, if and
      only if every tag is the instance number. */
  lemma ReadBackIff(cfg: Config, now: seq<SentOption>, options: seq<SentOption>)
    requires ReadBackFrom(now, options) && EntriesAre(cfg, options)
    ensures now == options <==> forall i :: 0 <= i < |options| ==> options[i].tag == options[i].inst
    ensures EntriesAre(cfg, now) <==> now == options
  {
    if EntriesAre(cfg, now) {
      forall i | 0 <= i < |options| ensures now[i] == options[i] {
        assert EntryAt(cfg, options, i) && EntryAt(cfg, now, i);
        if options[i].inst != options[i].tag && Dec(options[i].inst) == Dec(options[i].tag) {
          DecInjective(options[i].inst, options[i].tag);
        }
      }
    }
    if now == options {
      forall i | 0 <= i < |options| ensures options[i].tag == options[i].inst {
        assert now[i] == Mistagged(options[i]);
      }
    }
    if forall i :: 0 <= i < |options| ==> options[i].tag == options[i].inst {
      assert forall i :: 0 <= i < |options| ==> now[i] == options[i];
    }
  }

  // ---- Updating syscfg ----

  /** The two configurations agree outside entry k. */
  predicate SameElsewhere(before: Config, after: Config, k: nat) {
    forall key :: key in before && !(key.Entry? && key.k == k) ==> key in after && after[key] == before[key]
  }

  lemma EntryKept(before: Config, after: Config, k: nat, j: nat, o: SentOption)
    requires SameElsewhere(before, after, k) && j != k && EntryIs(before, j, o)
    ensures EntryIs(after, j, o)
  {
    assert forall f :: Entry(j, f) in before ==> Entry(j, f) in after && after[Entry(j, f)] == before[Entry(j, f)];
  }

  /** Rewriting one entry updates the list that the entries spell. */
  lemma EntryReplaced(before: Config, after: Config, options: seq<SentOption>, i: nat, o: SentOption)
    requires EntriesAre(before, options) && i < |options|
    requires SameElsewhere(before, after, i + 1) && EntryIs(after, i + 1, o)
    ensures EntriesAre(after, options[i := o])
  {
    var next := options[i := o];
    forall k | 0 <= k < |next| ensures EntryAt(after, next, k) {
      if k != i {
        assert EntryAt(before, options, k);
        EntryKept(before, after, i + 1, k + 1, options[k]);
      }
    }
  }

  lemma EntryAppended(before: Config, after: Config, options: seq<SentOption>, o: SentOption)
    requires EntriesAre(before, options)
    requires SameElsewhere(before, after, |options| + 1) && EntryIs(after, |options| + 1, o)
    ensures EntriesAre(after, options + [o])
  {
    var next := options + [o];
    forall k | 0 <= k < |next| ensures EntryAt(after, next, k) {
      if k < |options| {
        assert EntryAt(before, options, k);
        EntryKept(before, after, |options| + 1, k + 1, options[k]);
      }
    }
  }

  /** Setting the count and unsetting namespaced keys touches no entry. */
  lemma EntriesIgnoreOtherKeys(before: Config, after: Config, options: seq<SentOption>)
    requires EntriesAre(before, options)
    requires forall key: Key :: key.Entry? && key in before ==> key in after && after[key] == before[key]
    ensures EntriesAre(after, options)
  {
    forall k | 0 <= k < |options| ensures EntryAt(after, options, k) {
      assert EntryAt(before, options, k);
    }
  }

  lemma EntriesOfPrefix(cfg: Config, options: seq<SentOption>)
    requires EntriesAre(cfg, options) && options != []
    ensures EntriesAre(cfg, options[..|options| - 1]) && EntryIs(cfg, |options|, options[|options| - 1])
  {
    var n := |options| - 1;
    assert EntryAt(cfg, options, n);
    forall k | 0 <= k < n ensures EntryAt(cfg, options[..n], k) {
      assert EntryAt(cfg, options, k);
    }
  }

  /** The options after slots i..j of `was` have been filled from their successors. */
  ghost function Shifted<T>(was: seq<T>, i: nat, j: nat): (r: seq<T>)
    requires i <= j < |was|
    ensures |r| == |was|
    decreases j
  {
    if j == i then was else Shifted(was, i, j - 1)[j - 1 := was[j]]
  }

  lemma {:induction false} ShiftedAt<T>(was: seq<T>, i: nat, j: nat, k: nat)
    requires i <= j < |was| && k < |was|
    ensures Shifted(was, i, j)[k] == if i <= k < j then was[k + 1] else was[k]
    decreases j
  {
    if j > i { ShiftedAt(was, i, j - 1, k); }
  }

  lemma ShiftedAll<T>(was: seq<T>, i: nat)
    requires i < |was|
    ensures Shifted(was, i, |was| - 1) == Removed(was, i) + [was[|was| - 1]]
  {
    var n := |was| - 1;
    forall k | 0 <= k <= n ensures Shifted(was, i, n)[k] == (Removed(was, i) + [was[n]])[k] {
      ShiftedAt(was, i, n, k);
    }
  }

  // ---- The table ----

  class Table {
    const client: nat                 // instance number of the only client
    var options: array<SentOption>    // g_sent_options
    var num: nat                      // g_sent_option_num
    var cfg: Config                   // syscfg
    var file: string                  // CLIENT_SENT_OPTIONS_FILE

    ghost predicate Sized()
      reads this
    {
      num <= options.Length
    }

    function Options(): seq<SentOption>
      requires Sized()
      reads this, options
    {
      options[..num]
    }

    /** The three representations agree. */
    ghost predicate Valid()
      reads this, options
    {
      Sized() && EntriesAre(cfg, Options()) && CountIs(cfg, num) && file == Render(Options())
    }

    constructor (client: nat)
      ensures Valid() && fresh(options) && Options() == [] && this.client == client
    {
      this.client := client;
      options := new SentOption[0];
      num := 0;
      cfg := map[];
      file := "";
    }

    /** _write_dibbler_sent_option_file */
    method WriteFile()
      requires Sized()
      modifies this`file
      ensures file == Render(Options())
    {
      file := "";
      var i := 0;
      while i < num
        invariant i <= num && file == Concat(Line, options[..i])
      {
        assert options[..i + 1][..i] == options[..i];
        if options[i].enabled {
          file := file + (Dec(options[i].tag) + ":" + Dec(|options[i].value| / 2) + ":" + options[i].value + "\n");
        }
        i := i + 1;
      }
    }

    /** _syscfg_add_sent_option */
    method WriteEntry(o: SentOption, k: nat)
      modifies this`cfg
      ensures EntryIs(cfg, k, o) && SameElsewhere(old(cfg), cfg, k)
    {
      cfg := cfg[Entry(k, InstanceNumber) := Dec(o.inst)];
      cfg := cfg[Entry(k, Alias) := o.name];
      cfg := cfg[Entry(k, EnabledFlag) := Flag(o.enabled)];
      cfg := cfg[Entry(k, Tag) := Dec(o.tag)];
      cfg := cfg[Entry(k, OptionValue) := o.value];
    }

    /** realloc: one more slot, the others kept. */
    method Grow()
      requires Sized()
      modifies this`options
      ensures fresh(options) && options.Length == num + 1 && options[..num] == old(options[..num])
    {
      var was, grown := options, new SentOption[num + 1](_ => SentOption(0, "", false, 0, ""));
      options := grown;
      var i := 0;
      while i < num
        invariant i <= num && grown[..i] == was[..i] && options == grown
      {
        grown[i] := was[i];
        i := i + 1;
      }
    }

    /** WanMgr_DmlDhcpv6cAddSentOption */
    method Add(clientInst: nat, o: SentOption) returns (r: Status)
      requires Valid()
      modifies this
      ensures Valid()
      ensures r == if clientInst == client then Success else Failure
      ensures Options() == if r == Success then old(Options()) + [o] else old(Options())
      ensures if r == Success then fresh(options) else options == old(options)
    {
      if clientInst != client { return Failure; }
      ghost var was := Options();
      Append(o);
      DisabledNeedsNoRewrite(was, 0, o);
      if o.enabled { WriteFile(); }
      r := Success;
    }

    /** Array and syscfg gain an option. */
    method Append(o: SentOption)
      requires Sized() && EntriesAre(cfg, Options())
      modifies this`options, this`num, this`cfg
      ensures Sized() && fresh(options) && Options() == old(Options()) + [o]
      ensures EntriesAre(cfg, Options()) && CountIs(cfg, num)
    {
      ghost var was, before := Options(), cfg;
      Grow();
      num := num + 1;
      WriteEntry(o, num);
      EntryAppended(before, cfg, was, o);
      ghost var written := cfg;
      cfg := cfg[Count := Dec(num)];
      EntriesIgnoreOtherKeys(written, cfg, was + [o]);
      options[num - 1] := o;
      assert Options() == was + [o];
    }

    /** The loop of WanMgr_DmlDhcpv6cDelSentOption: every later option moves one slot down,
        in the array and in syscfg. */
    method Shift(i: nat)
      requires Sized() && EntriesAre(cfg, Options()) && i < num
      modifies this`cfg, options
      ensures Options() == Removed(old(Options()), i) + [old(Options())[num - 1]]
      ensures EntriesAre(cfg, Options())
    {
      ghost var was, cur := Options(), Options();
      ShiftedAll(was, i);
      var j := i;
      while j < num - 1
        invariant i <= j <= num - 1
        invariant Options() == cur == Shifted(was, i, j) && EntriesAre(cfg, cur)
      {
        ShiftedAt(was, i, j, j + 1);
        MoveDown(j);
        cur := cur[j := cur[j + 1]];
        j := j + 1;
      }
    }

    /** One round of that loop. */
    method MoveDown(j: nat)
      requires Sized() && EntriesAre(cfg, Options()) && j + 1 < num
      modifies this`cfg, options
      ensures Options() == old(Options())[j := old(Options())[j + 1]]
      ensures EntriesAre(cfg, Options())
    {
      ghost var was, before := Options(), cfg;
      options[j] := options[j + 1];
      WriteEntry(options[j + 1], j + 1);
      EntryReplaced(before, cfg, was, j, was[j + 1]);
      assert Options() == was[j := was[j + 1]];
    }

    /** The end of WanMgr_DmlDhcpv6cDelSentOption: the count goes down. The keys unset are
        namespaced ones, so the un-namespaced entry of the last option stays behind. */
    method DropLast()
      requires Sized() && num > 0 && EntriesAre(cfg, Options())
      modifies this`num, this`cfg
      ensures Sized() && num == old(num) - 1 && Options() == old(Options())[..num]
      ensures EntriesAre(cfg, Options()) && CountIs(cfg, num) && EntryIs(cfg, old(num), old(Options())[old(num) - 1])
    {
      ghost var was, before := Options(), cfg;
      num := num - 1;
      cfg := cfg - {Namespaced(num + 1, InstanceNumber), Namespaced(num + 1, Alias), Namespaced(num + 1, EnabledFlag),
                    Namespaced(num + 1, Tag), Namespaced(num + 1, OptionValue)};
      cfg := cfg[Count := Dec(num)];
      EntriesIgnoreOtherKeys(before, cfg, was);
      EntriesOfPrefix(cfg, was);
      assert Options() == was[..num];
    }

    /** Array and syscfg lose option `i`. */
    method Remove(i: nat)
      requires Sized() && EntriesAre(cfg, Options()) && i < num
      modifies this`num, this`cfg, options
      ensures Sized() && num == old(num) - 1 && Options() == Removed(old(Options()), i)
      ensures EntriesAre(cfg, Options()) && CountIs(cfg, num) && EntryIs(cfg, old(num), old(Options())[old(num) - 1])
    {
      ghost var was := Options();
      Shift(i);
      ghost var moved := Options();
      assert moved[..num - 1] == Removed(was, i) && moved[num - 1] == was[num - 1];
      DropLast();
    }

    /** The search of WanMgr_DmlDhcpv6cDelSentOption. */
    method FindInstance(inst: nat) returns (i: nat)
      requires Sized()
      ensures i == Find(Options(), inst)
    {
      i := 0;
      while i < num && options[i].inst != inst
        invariant i <= num && forall k :: 0 <= k < i ==> options[k].inst != inst
      {
        i := i + 1;
      }
      FindIsFirst(Options(), inst, i);
    }

    /** WanMgr_DmlDhcpv6cDelSentOption. The entry of the old last option stays in syscfg. */
    method Delete(clientInst: nat, inst: nat) returns (r: Status)
      requires Valid()
      modifies this`num, this`cfg, this`file, options
      ensures Valid()
      ensures r == if clientInst != client then Failure
                   else if Find(old(Options()), inst) == |old(Options())| then CantFind else Success
      ensures r == Success ==> Options() == Removed(old(Options()), Find(old(Options()), inst))
      ensures r == Success ==> num == old(num) - 1 && EntryIs(cfg, old(num), old(Options())[old(num) - 1])
      ensures r != Success ==> Options() == old(Options())
    {
      if clientInst != client { return Failure; }
      var i := FindInstance(inst);
      if i == num { return CantFind; }
      DeleteFound(i);
      r := Success;
    }

    /** The option found is removed; the file is rewritten only if it was enabled. */
    method DeleteFound(i: nat)
      requires Valid() && i < num
      modifies this`num, this`cfg, this`file, options
      ensures Valid() && Options() == Removed(old(Options()), i) && num == old(num) - 1
      ensures EntryIs(cfg, old(num), old(Options())[old(num) - 1])
    {
      ghost var was := Options();
      var savedEnable := options[i].enabled;
      Remove(i);
      DisabledNeedsNoRewrite(was, i, was[i]);
      if savedEnable { WriteFile(); }
    }

    /** The comparison in WanMgr_DmlDhcpv6cSetSentOption: only fields that differ are
        written, and the file is rewritten only if more than the alias changed. */
    method WriteDifferences(i: nat, was: SentOption, o: SentOption) returns (restart: bool)
      requires EntryIs(cfg, i + 1, was) && was.inst == o.inst
      modifies this`cfg
      ensures EntryIs(cfg, i + 1, o) && SameElsewhere(old(cfg), cfg, i + 1)
      ensures restart == (o.enabled != was.enabled || o.tag != was.tag || o.value != was.value)
    {
      restart := false;
      if o.name != was.name { cfg := cfg[Entry(i + 1, Alias) := o.name]; }
      if o.enabled != was.enabled {
        cfg := cfg[Entry(i + 1, EnabledFlag) := Flag(o.enabled)];
        restart := true;
      }
      if o.tag != was.tag {
        cfg := cfg[Entry(i + 1, Tag) := Dec(o.tag)];
        restart := true;
      }
      if o.value != was.value {
        cfg := cfg[Entry(i + 1, OptionValue) := o.value];
        restart := true;
      }
    }

    /** The update of WanMgr_DmlDhcpv6cSetSentOption for the option it found. */
    method Replace(i: nat, o: SentOption)
      requires Valid() && i < num && options[i].inst == o.inst
      modifies this`cfg, this`file, options
      ensures Valid() && Options() == old(Options())[i := o]
    {
      ghost var was, before := Options(), cfg;
      assert EntryAt(cfg, was, i);
      var restart := WriteDifferences(i, options[i], o);
      EntryReplaced(before, cfg, was, i, o);
      options[i] := o;
      assert Options() == was[i := o];
      if restart {
        WriteFile();
      } else {
        RenamingNeedsNoRewrite(was, i, o);
      }
    }

    /** WanMgr_DmlDhcpv6cSetSentOption */
    method Set(o: SentOption)
      requires Valid()
      modifies this`cfg, this`file, options
      ensures Valid()
      ensures var i := Find(old(Options()), o.inst);
              Options() == if i < |old(Options())| then old(Options())[i := o] else old(Options())
    {
      var i := 0;
      while i < num
        invariant i <= num && unchanged(this) && unchanged(options)
        invariant forall k :: 0 <= k < i ==> options[k].inst != o.inst
      {
        if options[i].inst == o.inst {
          FindIsFirst(Options(), o.inst, i);
          Replace(i, o);
          return;
        }
        i := i + 1;
      }
      FindIsFirst(Options(), o.inst, num);
    }

    /** WanMgr_DmlDhcpv6cSetSentOptionValues: the file does not depend on the two fields. */
    method SetValues(clientInst: nat, i: nat, inst: nat, name: string) returns (r: Status)
      requires Valid()
      modifies this`cfg, options
      ensures Valid()
      ensures r == if clientInst == client then Success else Failure
      ensures Options() == if clientInst == client && i < |old(Options())|
                           then old(Options())[i := old(Options())[i].(inst := inst, name := name)]
                           else old(Options())
    {
      if clientInst != client { return Failure; }
      if i + 1 > num { return Success; }
      ghost var was, before := Options(), cfg;
      ghost var o := was[i].(inst := inst, name := name);
      options[i] := options[i].(inst := inst);
      options[i] := options[i].(name := name);
      assert Options() == was[i := o];
      assert EntryAt(before, was, i);
      cfg := cfg[Entry(i + 1, InstanceNumber) := Dec(inst)];
      cfg := cfg[Entry(i + 1, Alias) := name];
      assert EntryIs(cfg, i + 1, o);
      EntryReplaced(before, cfg, was, i, o);
      RenamingNeedsNoRewrite(was, i, o);
      r := Success;
    }

    /** WanMgr_DmlDhcpv6cGetNumberOfSentOption: the stored count, and room for that many. */
    method GetNumber() returns (n: nat)
      modifies this`num, this`options
      ensures Sized() && n == num == if Count in cfg then Atol(cfg[Count]) else old(num)
      ensures if num > 0 then fresh(options) && options.Length == num else options == old(options)
    {
      if Count in cfg { num := Atol(cfg[Count]); }
      if num > 0 {
        options := new SentOption[num](_ => SentOption(0, "", false, 0, ""));
      }
      n := num;
    }

    /** WanMgr_DmlDhcpv6cGetSentOption: an entry is read into its slot, and the file is written
        with the last one. */
    method GetOption(i: nat) returns (r: Status)
      requires Sized()
      modifies this`file, options
      ensures r == if i + 1 > num then Failure else Success
      ensures r == Success ==> options[..num] == old(options[..num])[i := EntryOf(cfg, i + 1)]
      ensures r == Success && i + 1 == num ==> file == Render(Options())
      ensures r != Success ==> Options() == old(Options())
      ensures i + 1 != num ==> file == old(file)
    {
      if i + 1 > num { return Failure; }
      options[i] := EntryOf(cfg, i + 1);
      if i + 1 == num { WriteFile(); }
      r := Success;
    }

    /** The loop over the entries. */
    method GetOptions(ghost was: seq<SentOption>)
      requires Sized() && num == |was| && EntriesAre(cfg, was)
      modifies this`file, options
      ensures ReadBackFrom(Options(), was)
      ensures if |was| > 0 then file == Render(Options()) else file == old(file)
    {
      var i := 0;
      while i < num
        invariant i <= num && FilledFrom(Options(), was, i)
        invariant if i == num > 0 then file == Render(Options()) else file == old(file)
      {
        assert EntryAt(cfg, was, i);
        EntryOfIs(cfg, i + 1, was[i]);
        ghost var before := Options();
        var _ := GetOption(i);
        FillNext(before, was, i);
        i := i + 1;
      }
    }

    /** A restart: the array is filled from syscfg. Every option comes back with its instance
        number as its tag, and so it is written to the file; the representations agree again if
        and only if every tag was the instance number. Without options the file stays. */
    method Restart(ghost was: seq<SentOption>)
      requires num == 0 && EntriesAre(cfg, was) && CountIs(cfg, |was|)
      modifies this`num, this`options, this`file, options
      ensures Sized() && ReadBackFrom(Options(), was)
      ensures file == if was == [] then old(file) else Render(Options())
      ensures was != [] ==> (Valid() <==> forall i :: 0 <= i < |was| ==> was[i].tag == was[i].inst)
    {
      AtolOfDec(|was|);
      var _ := GetNumber();
      GetOptions(was);
      ReadBackIff(cfg, Options(), was);
    }
  }

  // ---- Any sequence of operations ----

  datatype Op =
    | AddOp(client: nat, o: SentOption)
    | DeleteOp(client: nat, inst: nat)
    | SetOp(o: SentOption)
    | ValuesOp(client: nat, i: nat, inst: nat, name: string)

  /** The list after one operation. */
  function After(options: seq<SentOption>, client: nat, op: Op): seq<SentOption> {
    match op
    case AddOp(c, o) => if c == client then options + [o] else options
    case DeleteOp(c, inst) =>
      var i := Find(options, inst);
      if c == client && i < |options| then Removed(options, i) else options
    case SetOp(o) =>
      var i := Find(options, o.inst);
      if i < |options| then options[i := o] else options
    case ValuesOp(c, i, inst, name) =>
      if c == client && i < |options| then options[i := options[i].(inst := inst, name := name)] else options
  }

  function AfterAll(options: seq<SentOption>, client: nat, ops: seq<Op>): seq<SentOption>
    decreases |ops|
  {
    if ops == [] then options else AfterAll(After(options, client, ops[0]), client, ops[1..])
  }

  /** Array, syscfg and file agree after any sequence of operations, and hold the list that
      the operations make of the old one; and the client reads from the file exactly what is to
      be sent, if and only if no value holds a line end. */
  method Perform(t: Table, ops: seq<Op>)
    requires t.Valid()
    modifies t, t.options
    ensures t.Valid() && t.Options() == AfterAll(old(t.Options()), t.client, ops)
    ensures ReadFile(t.file) == Sent(t.Options()) <==> NoLineEnds(t.Options())
    decreases |ops|
  {
    FileReadsIff(t.Options());
    if |ops| == 0 { return; }
    PerformOne(t, ops[0]);
    Perform(t, ops[1..]);
  }

  method PerformOne(t: Table, op: Op)
    requires t.Valid()
    modifies t, t.options
    ensures t.options == old(t.options) || fresh(t.options)
    ensures t.Valid() && t.Options() == After(old(t.Options()), t.client, op)
  {
    match op {
      case AddOp(c, o) => var _ := t.Add(c, o);
      case DeleteOp(c, inst) => var _ := t.Delete(c, inst);
      case SetOp(o) => t.Set(o);
      case ValuesOp(c, i, inst, name) => var _ := t.SetValues(c, i, inst, name);
    }
  }
}
