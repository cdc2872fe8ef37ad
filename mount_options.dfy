/** The `-o` option parser at the start of `mount()` (tagfs/__main__.py):
    every `-o OPTS` or `-oOPTS` argument is taken out of argv in place, and
    each comma-separated item of OPTS becomes an entry of the keyword map
    handed to FUSE. */
module MountOptions {
  import opened Sequences
  import opened Text

  /** A keyword value: `True` for a bare key, or the text after the first `=`. */
  datatype OptionValue = Flag | Assigned(text: string)

  /** One comma-separated item, parsed. */
  datatype Binding = Binding(key: string, value: OptionValue)

  /** The scan of argv: what is left and the option strings taken out, in
      the order they were taken; or the IndexError of a trailing `-o`. */
  datatype Scan = Scanned(rest: seq<string>, groups: seq<string>) | MissingArgument

  /** The outcome of the loop: the remaining argv and the keyword map. */
  datatype Mount = Parsed(argv: seq<string>, kw: map<string, OptionValue>) | IndexError

  /** `v == '-o' or v.startswith('-o')`; the first test is implied by the second. */
  predicate IsOptionArg(v: string) {
    |v| >= 2 && v[0] == '-' && v[1] == 'o'
  }

  /** The position the `for ... enumerate(sys.argv)` scan stops at, `|args|` when it runs out. */
  function OptionIndex(args: seq<string>): nat {
    FirstIndex(args, IsOptionArg)
  }

  // ---------------------------------------------------------------------------
  // Items and the keyword map

  /** An item stripped of surrounding whitespace: without `=` the whole item
      is a key set to `True`, otherwise the key is the text before the first
      `=` and the value all the text after it. */
  function ParseItem(item: string): Binding {
    var t := Strip(item);
    var n := Find(t, '=');
    if n == |t| then Binding(t, Flag) else Binding(t[..n], Assigned(t[n + 1..]))
  }

  /** The key holds no `=`; a bare key is the whole stripped item; and key,
      `=` and value put back together give the stripped item. */
  lemma ParseItemRoundTrip(item: string)
    ensures var b := ParseItem(item);
      && '=' !in b.key
      && (b.value == Flag ==> b.key == Strip(item))
      && (b.value.Assigned? ==> b.key + "=" + b.value.text == Strip(item))
  {
    CutAtFirst(Strip(item), '=');
  }

  /** Cutting a string at the first `c`: the part before holds no `c`, and
      the two parts around `c` give the string back. */
  lemma CutAtFirst(t: string, c: char)
    ensures var n := Find(t, c);
      && c !in t[..n]
      && (n < |t| ==> t[..n] + [c] + t[n + 1..] == t)
  {
    var n := Find(t, c);
    if n < |t| {
      assert t == t[..n] + [c] + t[n + 1..];
    }
    assert forall k :: 0 <= k < n ==> t[..n][k] == t[k];
  }

  /** Every item of a list, parsed. */
  function ParseAll(items: seq<string>): seq<Binding> {
    seq(|items|, k requires 0 <= k < |items| => ParseItem(items[k]))
  }

  /** Binding the items from `j` on is binding item `j`, then the rest. */
  lemma BindStep(kw: map<string, OptionValue>, items: seq<string>, j: int)
    requires 0 <= j < |items|
    ensures var b := ParseItem(items[j]);
      Bind(kw, ParseAll(items)[j..]) == Bind(kw[b.key := b.value], ParseAll(items)[j + 1..])
  {
    assert ParseAll(items)[j..][1..] == ParseAll(items)[j + 1..];
  }

  /** `kw[key] = value` for each binding, one after the other. */
  function Bind(kw: map<string, OptionValue>, bs: seq<Binding>): map<string, OptionValue>
    decreases |bs|
  {
    if bs == [] then kw else Bind(kw[bs[0].key := bs[0].value], bs[1..])
  }

  /** One option string: `options.split(',')`, item by item. */
  function ApplyGroup(kw: map<string, OptionValue>, options: string): map<string, OptionValue> {
    Bind(kw, ParseAll(Split(options, ',')))
  }

  /** Several option strings, in the order they were taken out of argv. */
  function ApplyGroups(kw: map<string, OptionValue>, groups: seq<string>): map<string, OptionValue>
    decreases |groups|
  {
    if groups == [] then kw else ApplyGroups(ApplyGroup(kw, groups[0]), groups[1..])
  }

  /** All the items of several option strings, in order. */
  function GroupItems(groups: seq<string>): seq<string>
    decreases |groups|
  {
    if groups == [] then [] else Split(groups[0], ',') + GroupItems(groups[1..])
  }

  // ---------------------------------------------------------------------------
  // The scan of argv

  function AddGroup(g: string, r: Scan): Scan {
    match r
    case Scanned(rest, groups) => Scanned(rest, [g] + groups)
    case MissingArgument => MissingArgument
  }

  /** The `while True` loop on argv: find the first option argument; a
      standalone `-o` takes the next element as its option string and both
      are deleted (IndexError when there is no next element); an attached
      `-oOPTS` gives OPTS and only it is deleted; stop when none is left. */
  function ScanArgs(args: seq<string>): Scan
    decreases |args|
  {
    var i := OptionIndex(args);
    if i == |args| then Scanned(args, [])
    else if args[i] == "-o" then
      if i + 1 == |args| then MissingArgument
      else AddGroup(args[i + 1], ScanArgs(Delete(Delete(args, i), i)))
    else AddGroup(args[i][2..], ScanArgs(Delete(args, i)))
  }

  function Resume(kw: map<string, OptionValue>, r: Scan): Mount {
    match r
    case Scanned(rest, groups) => Parsed(rest, ApplyGroups(kw, groups))
    case MissingArgument => IndexError
  }

  /** What the loop leaves behind when started on `argv` with an empty `kw`. */
  function MountSpec(argv: seq<string>): Mount {
    Resume(map[], ScanArgs(argv))
  }

  // ---------------------------------------------------------------------------
  // The loop itself

  /** `for i, v in enumerate(sys.argv): if ...: break`: the first option
      argument, or `|args|` when the loop runs out (the `else: break`). */
  method FindOptionArg(args: seq<string>) returns (i: nat)
    ensures i <= |args|
    ensures i < |args| ==> IsOptionArg(args[i])
    ensures forall j :: 0 <= j < i ==> !IsOptionArg(args[j])
    ensures i == OptionIndex(args)
  {
    i := 0;
    while i < |args| && !IsOptionArg(args[i])
      invariant i <= |args|
      invariant forall j :: 0 <= j < i ==> !IsOptionArg(args[j])
    {
      i := i + 1;
    }
  }

  /** The inner `for i in options.split(',')` loop, storing each parsed item into `kw`. */
  method ApplyOptions(kw: map<string, OptionValue>, options: string) returns (kw': map<string, OptionValue>)
    ensures kw' == ApplyGroup(kw, options)
  {
    var items := Split(options, ',');
    kw' := kw;
    var j := 0;
    while j < |items|
      invariant 0 <= j <= |items|
      invariant Bind(kw', ParseAll(items)[j..]) == ApplyGroup(kw, options)
    {
      BindStep(kw', items, j);
      var b := ParseItem(items[j]);
      kw' := kw'[b.key := b.value];
      j := j + 1;
    }
  }

  /** Lines 64-88 of `mount()`: argv as a local sequence that the loop
      deletes from, and `kw` as a local map. */
  method ParseMountArgs(argv: seq<string>) returns (r: Mount)
    ensures r == MountSpec(argv)
  {
    var args := argv;
    var kw: map<string, OptionValue> := map[];
    while true
      invariant Resume(kw, ScanArgs(args)) == MountSpec(argv)
      decreases |args|
    {
      var i := FindOptionArg(args);
      if i == |args| {
        break;
      }
      var options: string;
      if args[i] == "-o" {
        if i + 1 == |args| {
          return IndexError;
        }
        options := args[i + 1];
        args := Delete(args, i);
        args := Delete(args, i);
      } else {
        options := args[i][2..];
        args := Delete(args, i);
      }
      kw := ApplyOptions(kw, options);
    }
    r := Parsed(args, kw);
  }

  // ---------------------------------------------------------------------------
  // Properties of the keyword map

  lemma {:induction false} BindAppend(kw: map<string, OptionValue>, a: seq<Binding>, b: seq<Binding>)
    ensures Bind(kw, a + b) == Bind(Bind(kw, a), b)
    decreases |a|
  {
    if a != [] {
      assert (a + b)[0] == a[0] && (a + b)[1..] == a[1..] + b;
      BindAppend(kw[a[0].key := a[0].value], a[1..], b);
    } else {
      assert a + b == b;
    }
  }

  lemma ParseAllAppend(a: seq<string>, b: seq<string>)
    ensures ParseAll(a + b) == ParseAll(a) + ParseAll(b)
  {
    var l, r := ParseAll(a + b), ParseAll(a) + ParseAll(b);
    forall k | 0 <= k < |a + b|
      ensures l[k] == r[k]
    {
      if k < |a| {
        assert (a + b)[k] == a[k];
      } else {
        assert (a + b)[k] == b[k - |a|];
      }
    }
  }

  /** Option strings taken out one after the other act like one long list of items. */
  lemma {:induction false} ApplyGroupsFlatten(kw: map<string, OptionValue>, groups: seq<string>)
    ensures ApplyGroups(kw, groups) == Bind(kw, ParseAll(GroupItems(groups)))
    decreases |groups|
  {
    if groups != [] {
      var first := Split(groups[0], ',');
      ApplyGroupsFlatten(ApplyGroup(kw, groups[0]), groups[1..]);
      ParseAllAppend(first, GroupItems(groups[1..]));
      BindAppend(kw, ParseAll(first), ParseAll(GroupItems(groups[1..])));
    }
  }

  /** The last binding of a key decides its value. */
  lemma {:induction false} LastBindingWins(kw: map<string, OptionValue>, bs: seq<Binding>, j: int)
    requires 0 <= j < |bs|
    requires forall l :: j < l < |bs| ==> bs[l].key != bs[j].key
    ensures bs[j].key in Bind(kw, bs) && Bind(kw, bs)[bs[j].key] == bs[j].value
    decreases |bs|
  {
    if j == 0 {
      KeyUntouched(kw[bs[0].key := bs[0].value], bs[1..], bs[0].key);
    } else {
      LastBindingWins(kw[bs[0].key := bs[0].value], bs[1..], j - 1);
    }
  }

  /** A key no binding mentions keeps whatever `kw` held for it (or stays absent). */
  lemma {:induction false} KeyUntouched(kw: map<string, OptionValue>, bs: seq<Binding>, key: string)
    requires forall l :: 0 <= l < |bs| ==> bs[l].key != key
    ensures key in Bind(kw, bs) <==> key in kw
    ensures key in kw ==> Bind(kw, bs)[key] == kw[key]
    decreases |bs|
  {
    if bs != [] {
      KeyUntouched(kw[bs[0].key := bs[0].value], bs[1..], key);
    }
  }

  /** Within one `-o` string and across several, the last occurrence of a
      key wins: `items` lists every item of every option string taken out,
      in order, and `j` is the last one with its key. */
  lemma LastOccurrenceWins(argv: seq<string>, j: int)
    requires ScanArgs(argv).Scanned?
    requires var items := GroupItems(ScanArgs(argv).groups);
      && 0 <= j < |items|
      && forall l :: j < l < |items| ==> ParseItem(items[l]).key != ParseItem(items[j]).key
    ensures var b := ParseItem(GroupItems(ScanArgs(argv).groups)[j]);
      b.key in MountSpec(argv).kw && MountSpec(argv).kw[b.key] == b.value
  {
    var bs := ParseAll(GroupItems(ScanArgs(argv).groups));
    ApplyGroupsFlatten(map[], ScanArgs(argv).groups);
    LastBindingWins(map[], bs, j);
  }

  // ---------------------------------------------------------------------------
  // Properties of the scan

  /** No option argument is left once the loop ends. */
  lemma {:induction false} ScanLeavesNoOption(args: seq<string>)
    requires ScanArgs(args).Scanned?
    ensures forall k :: 0 <= k < |ScanArgs(args).rest| ==> !IsOptionArg(ScanArgs(args).rest[k])
    decreases |args|
  {
    var i := OptionIndex(args);
    if i < |args| {
      if args[i] == "-o" {
        ScanLeavesNoOption(Delete(Delete(args, i), i));
      } else {
        ScanLeavesNoOption(Delete(args, i));
      }
    }
  }

  /** The arguments left keep their relative order. */
  lemma {:induction false} ScanKeepsOrder(args: seq<string>)
    requires ScanArgs(args).Scanned?
    ensures Subsequence(ScanArgs(args).rest, args)
    decreases |args|
  {
    var i := OptionIndex(args);
    if i == |args| {
      SubsequenceRefl(args);
    } else if args[i] == "-o" {
      var once := Delete(args, i);
      ScanKeepsOrder(Delete(once, i));
      DeleteSubsequence(once, i);
      DeleteSubsequence(args, i);
      SubsequenceTrans(ScanArgs(args).rest, Delete(once, i), once);
      SubsequenceTrans(ScanArgs(args).rest, once, args);
    } else {
      ScanKeepsOrder(Delete(args, i));
      DeleteSubsequence(args, i);
      SubsequenceTrans(ScanArgs(args).rest, Delete(args, i), args);
    }
  }

  /** Each pass removes one element (attached) or two (standalone), so the
      number of arguments removed is between the number of groups and twice it. */
  lemma {:induction false} ScanRemovalCount(args: seq<string>)
    requires ScanArgs(args).Scanned?
    ensures var r := ScanArgs(args);
      |r.groups| <= |args| - |r.rest| <= 2 * |r.groups|
    decreases |args|
  {
    var i := OptionIndex(args);
    if i < |args| {
      if args[i] == "-o" {
        ScanRemovalCount(Delete(Delete(args, i), i));
      } else {
        ScanRemovalCount(Delete(args, i));
      }
    }
  }

  /** An IndexError comes only from a `-o` that is the very last argument. */
  lemma {:induction false} MissingArgumentIsTrailing(args: seq<string>)
    requires ScanArgs(args) == MissingArgument
    ensures |args| > 0 && args[|args| - 1] == "-o"
    decreases |args|
  {
    var i := OptionIndex(args);
    if args[i] != "-o" || i + 1 < |args| {
      var next := if args[i] == "-o" then Delete(Delete(args, i), i) else Delete(args, i);
      MissingArgumentIsTrailing(next);
      var last := |next| - 1;
      assert IsOptionArg(next[last]);
      assert forall k :: 0 <= k < i && k < |next| ==> next[k] == args[k];
      assert next[last] == args[|args| - 1];
    }
  }

  /** A standalone `-o`, as the first option argument, takes the element
      right after it as its option string, whatever that element is, and
      both leave argv. */
  lemma StandaloneTakesNext(pre: seq<string>, opts: string, post: seq<string>)
    requires forall k :: 0 <= k < |pre| ==> !IsOptionArg(pre[k])
    ensures ScanArgs(pre + ["-o", opts] + post) == AddGroup(opts, ScanArgs(pre + post))
  {
    var args := pre + ["-o", opts] + post;
    var i := |pre|;
    assert args[i] == "-o";
    assert forall k :: 0 <= k < i ==> args[k] == pre[k];
    assert OptionIndex(args) == i;
    assert Delete(Delete(args, i), i) == pre + post;
  }

  /** A standalone `-o`, as the first option argument and the last element
      of argv, has no option string to take: `sys.argv[i + 1]` raises. */
  lemma StandaloneAtEndFails(pre: seq<string>)
    requires forall k :: 0 <= k < |pre| ==> !IsOptionArg(pre[k])
    ensures ScanArgs(pre + ["-o"]) == MissingArgument
  {
    var args := pre + ["-o"];
    assert forall k :: 0 <= k < |pre| ==> args[k] == pre[k];
    assert args[|pre|] == "-o";
    assert OptionIndex(args) == |pre|;
  }

  /** An attached `-oOPTS`, as the first option argument, gives the text
      after its first two characters, and only it leaves argv. */
  lemma AttachedGivesSuffix(pre: seq<string>, arg: string, post: seq<string>)
    requires forall k :: 0 <= k < |pre| ==> !IsOptionArg(pre[k])
    requires IsOptionArg(arg) && arg != "-o"
    ensures ScanArgs(pre + [arg] + post) == AddGroup(arg[2..], ScanArgs(pre + post))
  {
    var args := pre + [arg] + post;
    var i := |pre|;
    assert args[i] == arg;
    assert forall k :: 0 <= k < i ==> args[k] == pre[k];
    assert OptionIndex(args) == i;
    assert Delete(args, i) == pre + post;
  }

  /** With no standalone `-o`, the loop keeps exactly the non-option
      arguments and reads one option string from each option argument. */
  lemma {:induction false} ScanAttachedOnly(args: seq<string>)
    requires forall k :: 0 <= k < |args| ==> args[k] != "-o"
    ensures ScanArgs(args) == Scanned(Filter(args, NotOptionArg), AttachedTexts(Filter(args, IsOptionArg)))
    decreases |args|
  {
    var i := OptionIndex(args);
    if i == |args| {
      FilterKeepsAll(args, NotOptionArg);
      FilterKeepsNone(args, IsOptionArg);
    } else {
      var next := Delete(args, i);
      forall k | 0 <= k < |next|
        ensures next[k] != "-o"
      {
        assert next[k] == if k < i then args[k] else args[k + 1];
      }
      ScanAttachedOnly(next);
      FilterDeleteRejected(args, i, NotOptionArg);
      FilterDeleteFirst(args, i, IsOptionArg);
      var later := Filter(next, IsOptionArg);
      assert ([args[i]] + later)[0] == args[i] && ([args[i]] + later)[1..] == later;
    }
  }

  predicate NotOptionArg(v: string) {
    !IsOptionArg(v)
  }

  /** The option strings of attached option arguments: each without its `-o`. */
  function AttachedTexts(opts: seq<string>): seq<string>
    requires forall k :: 0 <= k < |opts| ==> IsOptionArg(opts[k])
  {
    if opts == [] then []
    else
      assert IsOptionArg(opts[0]);
      [opts[0][2..]] + AttachedTexts(opts[1..])
  }
}
