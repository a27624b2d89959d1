/** Writing options out and parsing them back. */
module GetoptRoundTrip {
  import opened Getopt
  import opened Wrappers

  /** One or two arguments that give options: a group of short flags, such a group that ends with
      a short option and its value, a long flag, a long option and its value. A value is attached
      to its option or an argument of its own. */
  datatype Item =
    | Flags(flags: string)
    | FlagsValue(flags: string, o: char, value: string, attached: bool)
    | LongFlag(name: string)
    | LongValue(name: string, value: string, attached: bool)

  function Render(it: Item): (args: seq<string>)
    ensures 1 <= |args| <= 2
  {
    match it
    case Flags(flags) => ["-" + flags]
    case FlagsValue(flags, o, value, attached) =>
      if attached then ["-" + flags + [o] + value] else ["-" + flags + [o], value]
    case LongFlag(name) => ["--" + name]
    case LongValue(name, value, attached) => if attached then ["--" + name + "=" + value] else ["--" + name, value]
  }

  function RenderAll(items: seq<Item>): seq<string> {
    if items == [] then [] else Render(items[0]) + RenderAll(items[1..])
  }

  ghost predicate IsFlag(t: Table, o: string, rank: string -> nat)
    requires Ranked(t, rank)
  {
    var c := Canonical(t, o, rank);
    c.Known? && t[c.name].n == 0
  }

  ghost predicate IsValued(t: Table, o: string, rank: string -> nat)
    requires Ranked(t, rank)
  {
    var c := Canonical(t, o, rank);
    c.Known? && t[c.name].n != 0
  }

  ghost predicate AllFlags(t: Table, flags: string, rank: string -> nat)
    requires Ranked(t, rank)
  {
    forall i :: 0 <= i < |flags| ==> IsFlag(t, [flags[i]], rank)
  }

  /** The item says what the table allows, in a form that cannot be taken for another: a group is
      not empty and does not begin with a dash, an attached value of a short option is not empty,
      a long name has no equals sign and is not empty where it would stand alone. */
  ghost predicate Legal(t: Table, it: Item, rank: string -> nat)
    requires Ranked(t, rank)
  {
    match it
    case Flags(flags) => flags != "" && flags[0] != '-' && AllFlags(t, flags, rank)
    case FlagsValue(flags, o, value, attached) =>
      (flags + [o])[0] != '-' && AllFlags(t, flags, rank) && IsValued(t, [o], rank) && (attached ==> value != "")
    case LongFlag(name) => name != "" && '=' !in name && IsFlag(t, name, rank)
    case LongValue(name, _, attached) => (name != "" || attached) && '=' !in name && IsValued(t, name, rank)
  }

  ghost predicate AllLegal(t: Table, items: seq<Item>, rank: string -> nat)
    requires Ranked(t, rank)
  {
    items == [] || (Legal(t, items[0], rank) && AllLegal(t, items[1..], rank))
  }

  ghost function FlagsMeaning(t: Table, flags: string, rank: string -> nat): (f: seq<Found>)
    requires Ranked(t, rank)
  {
    if flags == "" then []
    else [Found(Canonical(t, [flags[0]], rank).name, None)] + FlagsMeaning(t, flags[1..], rank)
  }

  /** The canonical options that the item stands for. */
  ghost function Meaning(t: Table, it: Item, rank: string -> nat): seq<Found>
    requires Ranked(t, rank)
  {
    match it
    case Flags(flags) => FlagsMeaning(t, flags, rank)
    case FlagsValue(flags, o, value, _) =>
      FlagsMeaning(t, flags, rank) + [Found(Canonical(t, [o], rank).name, Some(value))]
    case LongFlag(name) => [Found(Canonical(t, name, rank).name, None)]
    case LongValue(name, value, _) => [Found(Canonical(t, name, rank).name, Some(value))]
  }

  ghost function MeaningAll(t: Table, items: seq<Item>, rank: string -> nat): seq<Found>
    requires Ranked(t, rank)
  {
    if items == [] then [] else Meaning(t, items[0], rank) + MeaningAll(t, items[1..], rank)
  }

  lemma {:induction false} FindFirst(a: string, c: char, k: nat)
    requires k <= |a| && (k < |a| ==> a[k] == c) && forall i :: 0 <= i < k ==> a[i] != c
    ensures Find(a, c) == k
  {
    if k > 0 {
      FindFirst(a[1..], c, k - 1);
    }
  }

  lemma MoreMore(x: seq<Found>, y: seq<Found>, r: Taken)
    ensures More([], r) == r && More(x, More(y, r)) == More(x + y, r)
  {
    if r.Taken? {
      assert [] + r.found == r.found;
      assert x + (y + r.found) == x + y + r.found;
    }
  }

  /** One flag of a group. */
  lemma FlagFirst(t: Table, args: seq<string>, i: nat, j: nat, rank: string -> nat)
    requires Ranked(t, rank) && i < |args| && j < |args[i]| && IsFlag(t, [args[i][j]], rank)
    ensures ShortArg(t, args, i, j, rank) ==
            More([Found(Canonical(t, [args[i][j]], rank).name, None)], ShortArg(t, args, i, j + 1, rank))
  {
    hide Canonical;
  }

  lemma AllFlagsRest(t: Table, flags: string, rank: string -> nat)
    requires Ranked(t, rank) && AllFlags(t, flags, rank) && flags != ""
    ensures IsFlag(t, [flags[0]], rank) && AllFlags(t, flags[1..], rank)
  {
    hide IsFlag;
    forall i | 0 <= i < |flags[1..]| ensures IsFlag(t, [flags[1..][i]], rank) {
      assert flags[1..][i] == flags[i + 1];
    }
  }

  /** A group of short options, past the flags from its `j`th to its `k`th character. */
  lemma {:induction false} FlagsRun(t: Table, args: seq<string>, i: nat, j: nat, k: nat, rank: string -> nat)
    requires Ranked(t, rank) && i < |args| && j <= k <= |args[i]| && AllFlags(t, args[i][j..k], rank)
    ensures ShortArg(t, args, i, j, rank) ==
            More(FlagsMeaning(t, args[i][j..k], rank), ShortArg(t, args, i, k, rank))
    decreases k - j
  {
    hide ShortArg, More, AllFlags, IsFlag, Ranked;
    var flags := args[i][j..k];
    var tail := ShortArg(t, args, i, k, rank);
    if j == k {
      assert flags == "";
      MoreMore([], [], tail);
    } else {
      var rest := args[i][j + 1..k];
      assert flags[0] == args[i][j] && flags[1..] == rest;
      AllFlagsRest(t, flags, rank);
      FlagFirst(t, args, i, j, rank);
      FlagsRun(t, args, i, j + 1, k, rank);
      MoreMore([Found(Canonical(t, [flags[0]], rank).name, None)], FlagsMeaning(t, rest, rank), tail);
    }
  }

  /** Parsing a rendered group of short options. */
  lemma GroupParsed(t: Table, args: seq<string>, i: nat, it: Item, rank: string -> nat)
    requires Ranked(t, rank) && (it.Flags? || it.FlagsValue?) && Legal(t, it, rank)
    requires i + |Render(it)| <= |args| && args[i..i + |Render(it)|] == Render(it)
    ensures IsShort(args[i]) && ShortArg(t, args, i, 1, rank) == Taken(Meaning(t, it, rank), |Render(it)|)
  {
    hide Ranked, FlagsMeaning, Canonical, AllFlags;
    assert args[i] == Render(it)[0];
    var a, k := args[i], |it.flags| + 1;
    assert a == "-" + it.flags + if it.Flags? then "" else [it.o] + if it.attached then it.value else "";
    assert a[1..k] == it.flags;
    FlagsRun(t, args, i, 1, k, rank);
    if it.Flags? {
      assert ShortArg(t, args, i, k, rank) == Taken([], 1);
    } else {
      assert a[k] == it.o;
      if it.attached {
        assert a[k + 1..] == it.value;
      } else {
        assert args[i + 1] == Render(it)[1];
      }
      assert ShortArg(t, args, i, k, rank) ==
             Taken([Found(Canonical(t, [it.o], rank).name, Some(it.value))], |Render(it)|);
    }
  }

  lemma LongParsed(t: Table, args: seq<string>, i: nat, it: Item, rank: string -> nat)
    requires Ranked(t, rank) && (it.LongFlag? || it.LongValue?) && Legal(t, it, rank)
    requires i + |Render(it)| <= |args| && args[i..i + |Render(it)|] == Render(it)
    ensures IsLong(args[i]) && LongArg(t, args, i, rank) == Taken(Meaning(t, it, rank), |Render(it)|)
  {
    hide Ranked, Canonical;
    assert args[i] == Render(it)[0];
    var a := args[i];
    var rest := if it.LongValue? && it.attached then "=" + it.value else "";
    assert a == "--" + (it.name + rest);
    assert a[2..] == it.name + rest;
    FindFirst(a[2..], '=', |it.name|);
    assert a[2..|it.name| + 2] == it.name;
    if it.LongValue? {
      if it.attached {
        assert a[|it.name| + 3..] == it.value;
      } else {
        assert args[i + 1] == Render(it)[1];
      }
    }
  }

  /** Any one legal item is parsed back to its meaning. */
  lemma ItemParsed(t: Table, args: seq<string>, i: nat, it: Item, rank: string -> nat)
    requires Ranked(t, rank) && Legal(t, it, rank)
    requires i + |Render(it)| <= |args| && args[i..i + |Render(it)|] == Render(it)
    ensures IsLong(args[i]) || IsShort(args[i])
    ensures OneArg(t, args, i, rank) == Taken(Meaning(t, it, rank), |Render(it)|)
  {
    hide LongArg, ShortArg, Meaning, Legal, Ranked, Render;
    if it.Flags? || it.FlagsValue? {
      GroupParsed(t, args, i, it, rank);
    } else {
      LongParsed(t, args, i, it, rank);
    }
  }

  /** What may follow the options: nothing, two dashes and any operands, or operands of which the
      first does not look like an option. */
  predicate Operands(tail: seq<string>) {
    tail == [] || tail[0] == "--" || (!IsLong(tail[0]) && !IsShort(tail[0]))
  }

  /** Options written out in any of their forms and followed by operands are parsed back to the
      canonical options with their values, and to the place of the first operand. */
  lemma {:induction false} RoundTrip(t: Table, items: seq<Item>, tail: seq<string>, args: seq<string>, i: nat,
                                     rank: string -> nat)
    requires Ranked(t, rank) && AllLegal(t, items, rank) && Operands(tail)
    requires i <= |args| && args[i..] == RenderAll(items) + tail
    ensures Parse(t, args, i, rank) ==
            Parsed(MeaningAll(t, items, rank),
                   i + |RenderAll(items)| + if tail != [] && tail[0] == "--" then 1 else 0)
    decreases |items|
  {
    hide Parse, Render, Meaning, Legal, Operands, Ranked, Canonical;
    if items == [] {
      assert [] + tail == tail;
      TailParsed(t, tail, args, i, rank);
    } else {
      HeadParsed(t, items, tail, args, i, rank);
      RoundTrip(t, items[1..], tail, args, i + |Render(items[0])|, rank);
    }
  }

  lemma TailParsed(t: Table, tail: seq<string>, args: seq<string>, i: nat, rank: string -> nat)
    requires Ranked(t, rank) && Operands(tail) && i <= |args| && args[i..] == tail
    ensures Parse(t, args, i, rank) == Parsed([], i + if tail != [] && tail[0] == "--" then 1 else 0)
  {
    hide OneArg, Ranked;
    if tail != [] {
      assert args[i] == tail[0];
      DashesEnd();
    }
  }

  lemma Front(args: seq<string>, i: nat, r: seq<string>, rest: seq<string>, tail: seq<string>)
    requires i <= |args| && args[i..] == r + rest + tail
    ensures i + |r| <= |args| && args[i..i + |r|] == r && args[i + |r|..] == rest + tail
  {
    assert args[i..i + |r|] == args[i..][..|r|];
    assert args[i + |r|..] == args[i..][|r|..];
  }

  lemma HeadParsed(t: Table, items: seq<Item>, tail: seq<string>, args: seq<string>, i: nat, rank: string -> nat)
    requires Ranked(t, rank) && items != [] && Legal(t, items[0], rank)
    requires i <= |args| && args[i..] == RenderAll(items) + tail
    ensures i + |Render(items[0])| <= |args|
    ensures args[i + |Render(items[0])|..] == RenderAll(items[1..]) + tail
    ensures Parse(t, args, i, rank) ==
            Prepend(Meaning(t, items[0], rank), Parse(t, args, i + |Render(items[0])|, rank))
  {
    hide Parse, Render, Meaning, Legal, OneArg, Ranked, IsLong, IsShort;
    var it, r := items[0], Render(items[0]);
    assert args[i..] == r + RenderAll(items[1..]) + tail;
    Front(args, i, r, RenderAll(items[1..]), tail);
    ItemParsed(t, args, i, it, rank);
    ParseOne(t, args, i, rank);
  }

  lemma ParseOne(t: Table, args: seq<string>, i: nat, rank: string -> nat)
    requires Ranked(t, rank) && i < |args| && (IsLong(args[i]) || IsShort(args[i]))
    ensures match OneArg(t, args, i, rank)
            case Bad(m) => Parse(t, args, i, rank) == Failed(m)
            case Taken(f, u) => Parse(t, args, i, rank) == Prepend(f, Parse(t, args, i + u, rank))
  {
    hide OneArg, Ranked, IsLong, IsShort;
    DashesEnd();
  }

  // ---- and conversely -----------------------------------------------------------------

  /** The item that a long argument was written from. */
  lemma LongItem(t: Table, args: seq<string>, i: nat, rank: string -> nat) returns (it: Item)
    requires Ranked(t, rank) && i < |args| && IsLong(args[i]) && LongArg(t, args, i, rank).Taken?
    ensures Legal(t, it, rank) && LongArg(t, args, i, rank) == Taken(Meaning(t, it, rank), |Render(it)|)
    ensures Render(it) == args[i..i + |Render(it)|]
  {
    hide Ranked, Canonical;
    var a := args[i];
    var k := LongSplit(a);
    var name := a[2..k + 2];
    if k + 2 < |a| {
      it := LongValue(name, a[k + 3..], true);
    } else if IsFlag(t, name, rank) {
      it := LongFlag(name);
    } else {
      it := LongValue(name, args[i + 1], false);
    }
  }

  /** A long argument is two dashes, a name without an equals sign, and perhaps one and a value. */
  lemma LongSplit(a: string) returns (k: nat)
    requires IsLong(a)
    ensures k == Find(a[2..], '=') && k + 2 <= |a| && '=' !in a[2..k + 2]
    ensures if k + 2 < |a| then a == "--" + a[2..k + 2] + "=" + a[k + 3..] else a == "--" + a[2..k + 2]
  {
    k := Find(a[2..], '=');
    var name := a[2..k + 2];
    assert forall j :: 0 <= j < |name| ==> name[j] == a[2..][j];
    if k + 2 < |a| {
      assert a[k + 2] == a[2..][k] == '=';
    }
  }

  /** Where the flags of a group that parses end: with the group, or at an option with a value. */
  lemma {:induction false} GroupEnd(t: Table, args: seq<string>, i: nat, j: nat, rank: string -> nat) returns (k: nat)
    requires Ranked(t, rank) && i < |args| && j <= |args[i]| && ShortArg(t, args, i, j, rank).Taken?
    ensures j <= k <= |args[i]| && AllFlags(t, args[i][j..k], rank)
    ensures k < |args[i]| ==> IsValued(t, [args[i][k]], rank)
    decreases |args[i]| - j
  {
    hide Ranked, Canonical;
    k := j;
    if j < |args[i]| && IsFlag(t, [args[i][j]], rank) {
      FlagFirst(t, args, i, j, rank);
      k := GroupEnd(t, args, i, j + 1, rank);
      hide IsFlag, IsValued;
      var flags, rest := args[i][j..k], args[i][j + 1..k];
      forall x | 0 <= x < |flags| ensures IsFlag(t, [flags[x]], rank) {
        assert x > 0 ==> flags[x] == rest[x - 1];
      }
    }
  }

  lemma ShortItem(t: Table, args: seq<string>, i: nat, rank: string -> nat) returns (it: Item)
    requires Ranked(t, rank) && i < |args| && IsShort(args[i]) && ShortArg(t, args, i, 1, rank).Taken?
    ensures Legal(t, it, rank) && ShortArg(t, args, i, 1, rank) == Taken(Meaning(t, it, rank), |Render(it)|)
    ensures i + |Render(it)| <= |args| && Render(it) == args[i..i + |Render(it)|]
  {
    hide Ranked, Canonical, AllFlags, FlagsMeaning;
    var a := args[i];
    var k := GroupEnd(t, args, i, 1, rank);
    var flags := a[1..k];
    FlagsRun(t, args, i, 1, k, rank);
    if k == |a| {
      it := Flags(flags);
      assert "-" + flags == a;
    } else if k + 1 < |a| {
      it := FlagsValue(flags, a[k], a[k + 1..], true);
      assert "-" + flags + [a[k]] + a[k + 1..] == a;
    } else {
      it := FlagsValue(flags, a[k], args[i + 1], false);
      assert "-" + flags + [a[k]] == a;
    }
  }

  /** Every list of arguments that parses was written from legal items and operands. */
  lemma {:induction false} Written(t: Table, args: seq<string>, i: nat, rank: string -> nat)
    returns (items: seq<Item>, tail: seq<string>)
    requires Ranked(t, rank) && i <= |args| && Parse(t, args, i, rank).Parsed?
    ensures args[i..] == RenderAll(items) + tail && Operands(tail) && AllLegal(t, items, rank)
    decreases |args| - i
  {
    hide Parse, Render, Legal, IsLong, IsShort, OneArg, Ranked;
    if i == |args| || args[i] == "--" || (!IsLong(args[i]) && !IsShort(args[i])) {
      items, tail := [], args[i..];
    } else {
      ParseOne(t, args, i, rank);
      var it := OneItem(t, args, i, rank);
      hide Operands;
      items, tail := Written(t, args, i + |Render(it)|, rank);
      Behind(args, i, Render(it), RenderAll(items), tail);
      assert ([it] + items)[1..] == items;
      items := [it] + items;
    }
  }

  lemma Behind(args: seq<string>, i: nat, r: seq<string>, rest: seq<string>, tail: seq<string>)
    requires i + |r| <= |args| && r == args[i..i + |r|] && args[i + |r|..] == rest + tail
    ensures args[i..] == r + rest + tail
  {
    assert args[i..] == args[i..i + |r|] + args[i + |r|..];
  }

  lemma OneItem(t: Table, args: seq<string>, i: nat, rank: string -> nat) returns (it: Item)
    requires Ranked(t, rank) && i < |args| && (IsLong(args[i]) || IsShort(args[i])) && OneArg(t, args, i, rank).Taken?
    ensures Legal(t, it, rank) && OneArg(t, args, i, rank) == Taken(Meaning(t, it, rank), |Render(it)|)
    ensures i + |Render(it)| <= |args| && Render(it) == args[i..i + |Render(it)|]
  {
    if IsLong(args[i]) {
      it := LongItem(t, args, i, rank);
    } else {
      it := ShortItem(t, args, i, rank);
    }
  }

  /** A list of arguments parses if and only if it can be written from legal options followed by
      operands; what it parses to is then what they mean. */
  lemma ParsesExactly(t: Table, args: seq<string>, rank: string -> nat)
    requires Ranked(t, rank)
    ensures Parse(t, args, 0, rank).Parsed? <==> exists items, tail :: Wrote(t, args, items, tail, rank)
    ensures forall items, tail :: Wrote(t, args, items, tail, rank) ==>
              Parse(t, args, 0, rank).Parsed? && Parse(t, args, 0, rank).opts == MeaningAll(t, items, rank)
  {
    if Parse(t, args, 0, rank).Parsed? {
      var items, tail := Written(t, args, 0, rank);
      assert args[0..] == args;
      assert Wrote(t, args, items, tail, rank);
    }
    forall items, tail | Wrote(t, args, items, tail, rank)
      ensures Parse(t, args, 0, rank).Parsed? && Parse(t, args, 0, rank).opts == MeaningAll(t, items, rank)
    {
      assert args[0..] == args;
      RoundTrip(t, items, tail, args, 0, rank);
    }
  }

  ghost predicate Wrote(t: Table, args: seq<string>, items: seq<Item>, tail: seq<string>, rank: string -> nat)
    requires Ranked(t, rank)
  {
    args == RenderAll(items) + tail && Operands(tail) && AllLegal(t, items, rank)
  }

  // ---- and what is wrong with the others -----------------------------------------------------

  /** A long argument, whose name ends at `pos`, is in error for an unknown name, for a value of a flag,
      or for want of a value, and says so. */
  lemma LongComplaints(t: Table, args: seq<string>, i: nat, pos: nat, rank: string -> nat)
    requires Ranked(t, rank) && i < |args| && IsLong(args[i]) && 2 <= pos <= |args[i]|
    requires '=' !in args[i][2..pos] && (pos < |args[i]| ==> args[i][pos] == '=')
    ensures var c := Canonical(t, args[i][2..pos], rank);
            c.Unknown? ==>
              LongArg(t, args, i, rank) == Bad("Unknown option `-" + (if |c.name| > 1 then "-" else "") + c.name + "'")
    ensures var c := Canonical(t, args[i][2..pos], rank);
            c.Known? && t[c.name].n == 0 && pos < |args[i]| ==>
              LongArg(t, args, i, rank) == Bad("Bad usage of option `" + args[i] + "'")
    ensures var c := Canonical(t, args[i][2..pos], rank);
            c.Known? && t[c.name].n != 0 && pos == |args[i]| && i + 1 == |args| ==>
              LongArg(t, args, i, rank) == Bad("Missed value for option `" + args[i] + "'")
  {
    hide Canonical, Ranked;
    var rest := args[i][2..];
    forall k | 0 <= k < pos - 2 ensures rest[k] != '=' {
      assert rest[k] == args[i][2..pos][k];
    }
    FindFirst(rest, '=', pos - 2);
  }

  /** A short option, the `j`th character of its group, is in error for an unknown name or for want of
      a value. */
  lemma ShortComplaints(t: Table, args: seq<string>, i: nat, j: nat, rank: string -> nat)
    requires Ranked(t, rank) && i < |args| && j < |args[i]|
    ensures var c := Canonical(t, [args[i][j]], rank);
            c.Unknown? ==>
              ShortArg(t, args, i, j, rank) == Bad("Unknown option `-" + (if |c.name| > 1 then "-" else "") + c.name + "'")
    ensures var c := Canonical(t, [args[i][j]], rank);
            c.Known? && t[c.name].n != 0 && j + 1 == |args[i]| && i + 1 == |args| ==>
              ShortArg(t, args, i, j, rank) == Bad("Missed value for option `-" + c.name + "'")
  {
    hide Canonical, Ranked;
  }

  // ---- one call, from end to end ------------------------------------------------------------

  /** The long options of the example: one with a value, and another name of the flag b. */
  function ExampleLongs(): Table {
    map["out" := Takes(1), "verbose" := Alias("b")]
  }

  function ExampleTable(): Table {
    Shorts("a:b") + ExampleLongs()
  }

  function ExampleRank(): string -> nat {
    o => if o == "verbose" then 1 else 0
  }

  lemma ExampleOptions()
    ensures var t, rank := ExampleTable(), ExampleRank();
            && Ranked(t, rank)
            && Canonical(t, "a", rank) == Known("a") && t["a"] == Takes(1)
            && Canonical(t, "b", rank) == Known("b") && t["b"] == Takes(0)
            && Canonical(t, "verbose", rank) == Known("b")
            && Canonical(t, "out", rank) == Known("out") && t["out"] == Takes(1)
  {
    var s := "a:b";
    ShortsKeys(s);
    assert LastWord(s, 0) && LastWord(s, 2) && s[0] in s && s[2] in s;
    ShortsAt(s, 0);
    ShortsAt(s, 2);
    hide Shorts;
    assert "a" == [s[0]] && "b" == [s[2]];
    assert forall c :: c in s && IsWord(c) ==> c == 'a' || c == 'b';
    assert forall o :: o in Shorts(s) ==> |o| == 1;
    assert "verbose" !in Shorts(s) && "out" !in Shorts(s);
    assert ExampleTable()["a"] == Shorts(s)["a"] == Takes(1);
    assert ExampleTable()["b"] == Shorts(s)["b"] == Takes(0);
    forall o | o in Shorts(s) ensures Shorts(s)[o].Takes? {
      assert o == "a" || o == "b";
    }
  }

  /** Flag b and option a in one group, a's value next to it; b again by its long name; a long option
      with its value attached; an operand. */
  method Example() returns (r: Answer)
    ensures r == Opts(map["b" := None, "a" := Some("x"), "out" := Some("f")], 5)
  {
    hide Ranked, Parse, Shorts, ExampleTable, ExampleLongs, ExampleRank, ExampleFound, LastGiven;
    var parser := new Parser();
    ExampleParsed();
    ExampleLast();
    SameTable();
    r := parser.GetOpts(["-ba", "x", "--verbose", "--out=f", "y"], "a:b", ExampleLongs(), ExampleRank());
  }

  lemma SameTable()
    ensures ExampleTable() == Shorts("a:b") + ExampleLongs()
  {
  }

  function ExampleItems(): seq<Item> {
    [FlagsValue("b", 'a', "x", false), LongFlag("verbose"), LongValue("out", "f", true)]
  }

  function ExampleFound(): seq<Found> {
    [Found("b", None), Found("a", Some("x")), Found("b", None), Found("out", Some("f"))]
  }

  lemma ExampleRendered()
    ensures RenderAll(ExampleItems()) == ["-ba", "x", "--verbose", "--out=f"]
  {
    var q := ExampleItems();
    assert q[1..] == [q[1], q[2]] && q[1..][1..] == [q[2]] && q[1..][1..][1..] == [];
    assert "-" + "b" + ['a'] == "-ba" && "--" + "verbose" == "--verbose" && "--" + "out" + "=" + "f" == "--out=f";
    assert Render(q[0]) == ["-ba", "x"] && Render(q[1]) == ["--verbose"];
    assert RenderAll(q[1..][1..]) == ["--out=f"];
    assert RenderAll(q[1..]) == ["--verbose", "--out=f"];
  }

  lemma ExampleLegal(t: Table, rank: string -> nat)
    requires Ranked(t, rank) && IsFlag(t, "b", rank) && IsValued(t, "a", rank)
    requires IsFlag(t, "verbose", rank) && IsValued(t, "out", rank)
    ensures AllLegal(t, ExampleItems(), rank)
  {
    hide IsFlag, IsValued, Ranked;
    var q := ExampleItems();
    assert ['b'] == "b" && ['a'] == "a";
    assert Legal(t, q[0], rank) && Legal(t, q[1], rank) && Legal(t, q[2], rank);
    hide Legal;
    assert q[1..] == [q[1], q[2]] && q[1..][1..] == [q[2]] && q[1..][1..][1..] == [];
    assert AllLegal(t, q[1..][1..], rank);
    assert AllLegal(t, q[1..], rank);
  }

  lemma ExampleMeaning(t: Table, rank: string -> nat)
    requires Ranked(t, rank)
    requires Canonical(t, "a", rank) == Known("a") && Canonical(t, "b", rank) == Known("b")
    requires Canonical(t, "verbose", rank) == Known("b") && Canonical(t, "out", rank) == Known("out")
    ensures MeaningAll(t, ExampleItems(), rank) == ExampleFound()
  {
    hide Canonical, Ranked;
    var q := ExampleItems();
    assert ['b'] == "b" && ['a'] == "a" && "b"[1..] == "";
    assert FlagsMeaning(t, "b", rank) == [Found("b", None)];
    assert Meaning(t, q[0], rank) == [Found("b", None), Found("a", Some("x"))];
    assert q[1..] == [q[1], q[2]] && q[1..][1..] == [q[2]] && q[1..][1..][1..] == [];
    assert MeaningAll(t, q[1..][1..], rank) == [Found("out", Some("f"))];
    assert MeaningAll(t, q[1..], rank) == [Found("b", None), Found("out", Some("f"))];
  }

  lemma ExampleLast()
    ensures LastGiven(ExampleFound()) == map["b" := None, "a" := Some("x"), "out" := Some("f")]
  {
    var f := ExampleFound();
    LastGivenKeys(f);
    LastGivenAt(f, 1);
    LastGivenAt(f, 2);
    LastGivenAt(f, 3);
    hide LastGiven;
    assert f == [f[0], f[1], f[2], f[3]];
  }

  lemma ExampleParsed()
    ensures Ranked(ExampleTable(), ExampleRank())
    ensures Parse(ExampleTable(), ["-ba", "x", "--verbose", "--out=f", "y"], 0, ExampleRank()) == Parsed(ExampleFound(), 4)
  {
    ExampleOptions();
    var t, rank, args := ExampleTable(), ExampleRank(), ["-ba", "x", "--verbose", "--out=f", "y"];
    hide Canonical, Shorts, Ranked, ExampleTable, ExampleRank, Parse;
    ExampleRendered();
    ExampleLegal(t, rank);
    ExampleMeaning(t, rank);
    hide ExampleItems, ExampleFound;
    assert args[0..] == RenderAll(ExampleItems()) + ["y"];
    RoundTrip(t, ExampleItems(), ["y"], args, 0, rank);
  }
}
