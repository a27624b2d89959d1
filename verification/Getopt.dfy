/** The option parser of luajack/getopt.lua. */
module Getopt {
  import opened Wrappers

  /** An entry of the option table: an option that takes a value unless `n` is zero, or another
      name of an option. */
  datatype Opt = Takes(n: int) | Alias(target: string)

  type Table = map<string, Opt>

  /** An option found, by its canonical name. */
  datatype Found = Found(name: string, arg: Option<string>)

  datatype Parsed = Parsed(opts: seq<Found>, optind: nat) | Failed(msg: string)

  // ---- the table -------------------------------------------------------------------------

  /** The class %w of Lua's patterns in the C locale. */
  predicate IsWord(c: char) {
    'a' <= c <= 'z' || 'A' <= c <= 'Z' || '0' <= c <= '9'
  }

  /** Letters and digits, and no other character. */
  lemma WordChars(c: char)
    ensures IsWord(c) <==> c in "abcdefghijklmnopqrstuvwxyz" || c in "ABCDEFGHIJKLMNOPQRSTUVWXYZ" || c in "0123456789"
  {
    LowerChars(c);
    UpperChars(c);
    DigitChars(c);
  }

  lemma LowerChars(c: char)
    ensures 'a' <= c <= 'z' <==> c in "abcdefghijklmnopqrstuvwxyz"
  {
    if 'a' <= c <= 'z' {
      assert "abcdefghijklmnopqrstuvwxyz"[c as int - 'a' as int] == c;
    }
  }

  lemma UpperChars(c: char)
    ensures 'A' <= c <= 'Z' <==> c in "ABCDEFGHIJKLMNOPQRSTUVWXYZ"
  {
    if 'A' <= c <= 'Z' {
      assert "ABCDEFGHIJKLMNOPQRSTUVWXYZ"[c as int - 'A' as int] == c;
    }
  }

  lemma DigitChars(c: char)
    ensures '0' <= c <= '9' <==> c in "0123456789"
  {
    if '0' <= c <= '9' {
      assert "0123456789"[c as int - '0' as int] == c;
    }
  }

  /** convert_short2long: each word character is an option, with a value if a colon follows. */
  function Shorts(s: string): Table
    decreases |s|
  {
    if s == "" then map[]
    else if IsWord(s[|s| - 1]) then Shorts(s[..|s| - 1])[[s[|s| - 1]] := Takes(0)]
    else if s[|s| - 1] == ':' && |s| > 1 && IsWord(s[|s| - 2]) then Shorts(s[..|s| - 2])[[s[|s| - 2]] := Takes(1)]
    else Shorts(s[..|s| - 1])
  }

  /** The last place of a word character. */
  predicate LastWord(s: string, i: nat)
    requires i < |s|
  {
    IsWord(s[i]) && forall j :: i < j < |s| ==> s[j] != s[i]
  }

  /** The value that a word character has where it stands last: it takes one exactly if a colon
      follows it. */
  lemma {:induction false} ShortsAt(s: string, i: nat)
    requires i < |s| && LastWord(s, i)
    ensures [s[i]] in Shorts(s)
    ensures Shorts(s)[[s[i]]] == Takes(if i + 1 < |s| && s[i + 1] == ':' then 1 else 0)
    decreases |s|
  {
    var last := |s| - 1;
    if IsWord(s[last]) {
      if i < last {
        ShortsAt(s[..last], i);
        assert [s[i]][0] != [s[last]][0];
      }
    } else if s[last] == ':' && |s| > 1 && IsWord(s[last - 1]) {
      if i < last - 1 {
        ShortsAt(s[..last - 1], i);
        assert [s[i]][0] != [s[last - 1]][0];
      }
    } else {
      ShortsAt(s[..last], i);
    }
  }

  lemma {:induction false} ShortsKeys(s: string)
    ensures Shorts(s).Keys == set c | c in s && IsWord(c) :: [c]
    decreases |s|
  {
    if s != "" {
      var last := |s| - 1;
      var h := s[..last];
      assert s == h + [s[last]];
      if !IsWord(s[last]) && s[last] == ':' && |s| > 1 && IsWord(s[last - 1]) {
        ShortsKeys(s[..last - 1]);
        assert h == s[..last - 1] + [s[last - 1]];
      } else {
        ShortsKeys(h);
      }
    }
  }

  /** The table that an option string stands for: an option for each word character, with a value
      if and only if a colon follows the last place where it stands. */
  ghost predicate TableOf(s: string, t: Table) {
    && t.Keys == (set c | c in s && IsWord(c) :: [c])
    && forall i :: 0 <= i < |s| && LastWord(s, i) ==>
         [s[i]] in t && t[[s[i]]] == Takes(if i + 1 < |s| && s[i + 1] == ':' then 1 else 0)
  }

  lemma ShortsTable(s: string)
    ensures TableOf(s, Shorts(s))
  {
    ShortsKeys(s);
    forall i | 0 <= i < |s| && LastWord(s, i)
      ensures [s[i]] in Shorts(s) && Shorts(s)[[s[i]]] == Takes(if i + 1 < |s| && s[i + 1] == ':' then 1 else 0)
    {
      ShortsAt(s, i);
    }
  }

  /** Where a scan that knows no look-behind may stand: not between a word character and its colon. */
  predicate Boundary(s: string, i: nat) {
    i <= |s| && (0 < i < |s| && s[i] == ':' ==> !IsWord(s[i - 1]))
  }

  method ConvertShort2Long(opts: string) returns (ret: Table)
    ensures ret == Shorts(opts) && TableOf(opts, ret)
  {
    hide TableOf;
    ret := map[];
    var i := 0;
    while i < |opts|
      invariant Boundary(opts, i) && ret == Shorts(opts[..i])
    {
      var short := opts[i];
      if IsWord(short) {
        var acceptArg := if i + 1 < |opts| && opts[i + 1] == ':' then 1 else 0;
        ret := ret[[short] := Takes(acceptArg)];
        assert acceptArg == 0 ==> opts[..i + 1][..i] == opts[..i];
        assert acceptArg == 1 ==> opts[..i + 2][..i] == opts[..i];
        i := i + 1 + acceptArg;
      } else {
        assert opts[..i + 1][..i] == opts[..i];
        i := i + 1;
      }
    }
    assert opts[..|opts|] == opts;
    ShortsTable(opts);
  }

  /** Following aliases always comes to an end: every alias leads to a name of lower rank. */
  ghost predicate Ranked(t: Table, rank: string -> nat) {
    forall k :: k in t && t[k].Alias? ==> rank(t[k].target) < rank(k)
  }

  datatype Canon = Known(name: string) | Unknown(name: string)

  /** What a name stands for: the end of its chain of aliases. */
  ghost function Canonical(t: Table, opt: string, rank: string -> nat): (c: Canon)
    requires Ranked(t, rank)
    ensures c.Known? <==> c.name in t
    ensures c.Known? ==> t[c.name].Takes?
    decreases rank(opt)
  {
    if opt !in t then Unknown(opt)
    else match t[opt]
      case Alias(target) => Canonical(t, target, rank)
      case Takes(_) => Known(opt)
  }

  /** A canonical name is its own, and an alias stands for whatever its target stands for. */
  lemma CanonicalStable(t: Table, opt: string, rank: string -> nat)
    requires Ranked(t, rank)
    ensures var c := Canonical(t, opt, rank);
            Canonical(t, c.name, rank) == c &&
            (opt in t && t[opt].Alias? ==> Canonical(t, t[opt].target, rank) == c)
    decreases rank(opt)
  {
    if opt in t && t[opt].Alias? {
      CanonicalStable(t, t[opt].target, rank);
    }
  }

  /** The name reached after `n` aliases. */
  function Follow(t: Table, opt: string, n: nat): string
    decreases n
  {
    if n == 0 || opt !in t || t[opt].Takes? then opt else Follow(t, t[opt].target, n - 1)
  }

  predicate IsAlias(t: Table, opt: string) {
    opt in t && t[opt].Alias?
  }

  /** No chain of aliases is longer than the table: what a caller can look for beforehand. */
  predicate Acyclic(t: Table) {
    forall k :: k in t ==> !IsAlias(t, Follow(t, k, |t|))
  }

  /** The search of canonize for the option ends. */
  ghost predicate Ends(t: Table, opt: string) {
    exists n: nat :: !IsAlias(t, Follow(t, opt, n))
  }

  /** How many aliases are followed, at most `n`. */
  function Steps(t: Table, opt: string, n: nat): nat
    decreases n
  {
    if n == 0 || !IsAlias(t, opt) then 0 else 1 + Steps(t, t[opt].target, n - 1)
  }

  lemma {:induction false} StepsEnough(t: Table, opt: string, n: nat)
    requires !IsAlias(t, Follow(t, opt, n))
    ensures Steps(t, opt, n + 1) == Steps(t, opt, n)
    decreases n
  {
    if n > 0 && IsAlias(t, opt) {
      StepsEnough(t, t[opt].target, n - 1);
    }
  }

  /** Where every chain ends in time, the length of its chain ranks a name. */
  lemma AcyclicRanked(t: Table)
    requires Acyclic(t)
    ensures Ranked(t, o => Steps(t, o, |t|))
  {
    forall k | k in t && t[k].Alias? ensures Steps(t, t[k].target, |t|) < Steps(t, k, |t|) {
      assert Follow(t, k, |t|) == Follow(t, t[k].target, |t| - 1);
      StepsEnough(t, t[k].target, |t| - 1);
    }
  }

  /** The names on the way, all different where ranks fall. */
  lemma {:induction false} Visited(t: Table, opt: string, n: nat, rank: string -> nat) returns (names: set<string>)
    requires Ranked(t, rank) && IsAlias(t, Follow(t, opt, n))
    ensures names <= t.Keys && |names| == n + 1 && forall o :: o in names ==> rank(o) <= rank(opt)
    decreases n
  {
    assert IsAlias(t, opt);
    if n == 0 {
      names := {opt};
    } else {
      var rest := Visited(t, t[opt].target, n - 1, rank);
      names := rest + {opt};
    }
  }

  lemma RankedAcyclic(t: Table, rank: string -> nat)
    requires Ranked(t, rank)
    ensures Acyclic(t)
  {
    forall k | k in t ensures !IsAlias(t, Follow(t, k, |t|)) {
      if IsAlias(t, Follow(t, k, |t|)) {
        var names := Visited(t, k, |t|, rank);
        SubsetSize(names, t.Keys);
        assert false;
      }
    }
  }

  lemma {:induction false} SubsetSize(a: set<string>, b: set<string>)
    requires a <= b
    ensures |a| <= |b|
    decreases |a|
  {
    if a != {} {
      var x :| x in a;
      SubsetSize(a - {x}, b - {x});
    }
  }

  /** The canonical name is the end of the chain, reached in as many steps as the table has entries. */
  lemma {:induction false} CanonicalEnds(t: Table, opt: string, n: nat, rank: string -> nat)
    requires Ranked(t, rank) && !IsAlias(t, Follow(t, opt, n))
    ensures Canonical(t, opt, rank).name == Follow(t, opt, n)
    decreases n
  {
    if IsAlias(t, opt) {
      CanonicalEnds(t, t[opt].target, n - 1, rank);
    }
  }

  lemma CanonicalExactly(t: Table, opt: string, rank: string -> nat)
    requires Ranked(t, rank)
    ensures var end := Follow(t, opt, |t|); !IsAlias(t, end) && Canonical(t, opt, rank) == if end in t then Known(end) else Unknown(end)
  {
    RankedAcyclic(t, rank);
    assert opt !in t ==> Follow(t, opt, |t|) == opt;
    CanonicalEnds(t, opt, |t|, rank);
  }

  lemma {:induction false} StepsAgree(t: Table, opt: string, n: nat, m: nat)
    requires !IsAlias(t, Follow(t, opt, n)) && !IsAlias(t, Follow(t, opt, m))
    ensures Steps(t, opt, n) == Steps(t, opt, m)
    decreases n
  {
    if IsAlias(t, opt) {
      StepsAgree(t, t[opt].target, n - 1, m - 1);
    }
  }

  /** The length of a chain that ends. */
  ghost function Length(t: Table, opt: string): nat {
    if Ends(t, opt) then
      var n: nat :| !IsAlias(t, Follow(t, opt, n));
      Steps(t, opt, n)
    else 0
  }

  lemma LengthStep(t: Table, k: string)
    requires IsAlias(t, k) && Ends(t, k) && Ends(t, t[k].target)
    ensures Length(t, k) == 1 + Length(t, t[k].target)
  {
    var n: nat :| !IsAlias(t, Follow(t, k, n)) && Length(t, k) == Steps(t, k, n);
    var m: nat :| !IsAlias(t, Follow(t, t[k].target, m)) && Length(t, t[k].target) == Steps(t, t[k].target, m);
    assert n > 0 && Follow(t, k, n) == Follow(t, t[k].target, n - 1);
    StepsAgree(t, t[k].target, n - 1, m);
    assert Steps(t, k, n) == 1 + Steps(t, t[k].target, n - 1);
  }

  /** Where every search ends, the length of its chain ranks a name as well. */
  lemma EndingRanked(t: Table)
    requires forall o :: Ends(t, o)
    ensures exists rank :: Ranked(t, rank)
  {
    var rank := o => Length(t, o);
    forall k | k in t && t[k].Alias? ensures rank(t[k].target) < rank(k) {
      assert Ends(t, k) && Ends(t, t[k].target);
      LengthStep(t, k);
    }
    assert Ranked(t, rank);
  }

  /** The searches of all names end if and only if the aliases can be ranked, and if and only if
      each chain has ended after as many steps as the table has entries. */
  lemma EndsExactly(t: Table)
    ensures (forall o :: Ends(t, o)) <==> exists rank :: Ranked(t, rank)
    ensures (exists rank :: Ranked(t, rank)) <==> Acyclic(t)
  {
    if Acyclic(t) {
      AcyclicRanked(t);
    }
    if exists rank :: Ranked(t, rank) {
      var rank :| Ranked(t, rank);
      RankedAcyclic(t, rank);
      forall o ensures Ends(t, o) {
        assert !IsAlias(t, Follow(t, o, |t|)) || o in t;
      }
    }
    if forall o :: Ends(t, o) {
      EndingRanked(t);
    }
  }

  // ---- what parsing means ----------------------------------------------------------------

  function UnknownMsg(opt: string): string {
    "Unknown option `-" + (if |opt| > 1 then "-" else "") + opt + "'"
  }

  function Find(a: string, c: char): (k: nat)
    ensures k <= |a| && (k < |a| ==> a[k] == c) && forall i :: 0 <= i < k ==> a[i] != c
  {
    if a == "" || a[0] == c then 0 else 1 + Find(a[1..], c)
  }

  /** What one argument gives: options and the number of arguments used up, or an error. */
  datatype Taken = Taken(found: seq<Found>, used: nat) | Bad(msg: string)

  ghost function LongArg(t: Table, args: seq<string>, i: nat, rank: string -> nat): (r: Taken)
    requires Ranked(t, rank) && i < |args| && |args[i]| > 2 && args[i][..2] == "--"
    ensures r.Taken? ==> 1 <= r.used <= |args| - i
  {
    var a := args[i];
    var pos := Find(a[2..], '=') + 2;
    match Canonical(t, a[2..pos], rank)
    case Unknown(o) => Bad(UnknownMsg(o))
    case Known(o) =>
      if pos < |a| then
        if t[o].n == 0 then Bad("Bad usage of option `" + a + "'")
        else Taken([Found(o, Some(a[pos + 1..]))], 1)
      else if t[o].n == 0 then Taken([Found(o, None)], 1)
      else if i + 1 == |args| then Bad("Missed value for option `" + a + "'")
      else Taken([Found(o, Some(args[i + 1]))], 2)
  }

  /** The options of a group of short ones, from its `j`th character on. */
  ghost function ShortArg(t: Table, args: seq<string>, i: nat, j: nat, rank: string -> nat): (r: Taken)
    requires Ranked(t, rank) && i < |args| && j <= |args[i]|
    ensures r.Taken? ==> 1 <= r.used <= |args| - i
    decreases |args[i]| - j
  {
    var a := args[i];
    if j == |a| then Taken([], 1)
    else
      match Canonical(t, [a[j]], rank)
      case Unknown(o) => Bad(UnknownMsg(o))
      case Known(o) =>
        if t[o].n == 0 then
          match ShortArg(t, args, i, j + 1, rank)
          case Bad(m) => Bad(m)
          case Taken(f, u) => Taken([Found(o, None)] + f, u)
        else if j + 1 < |a| then Taken([Found(o, Some(a[j + 1..]))], 1)
        else if i + 1 == |args| then Bad("Missed value for option `-" + o + "'")
        else Taken([Found(o, Some(args[i + 1]))], 2)
  }

  predicate IsLong(a: string) {
    |a| > 2 && a[..2] == "--"
  }

  predicate IsShort(a: string) {
    |a| > 1 && a[0] == '-' && a[1] != '-'
  }

  ghost function OneArg(t: Table, args: seq<string>, i: nat, rank: string -> nat): (r: Taken)
    requires Ranked(t, rank) && i < |args| && (IsLong(args[i]) || IsShort(args[i]))
    ensures r.Taken? ==> 1 <= r.used <= |args| - i
  {
    if IsLong(args[i]) then LongArg(t, args, i, rank) else ShortArg(t, args, i, 1, rank)
  }

  /** All of the options from the `i`th argument on; `optind` counts the arguments before the
      first operand. */
  ghost function Parse(t: Table, args: seq<string>, i: nat, rank: string -> nat): (r: Parsed)
    requires Ranked(t, rank) && i <= |args|
    ensures r.Parsed? ==> i <= r.optind <= |args|
    decreases |args| - i
  {
    if i == |args| then Parsed([], i)
    else if args[i] == "--" then Parsed([], i + 1)
    else if !IsLong(args[i]) && !IsShort(args[i]) then Parsed([], i)
    else
      match OneArg(t, args, i, rank)
      case Bad(m) => Failed(m)
      case Taken(f, u) => Prepend(f, Parse(t, args, i + u, rank))
  }

  function Prepend(f: seq<Found>, p: Parsed): Parsed {
    match p
    case Failed(m) => Failed(m)
    case Parsed(opts, k) => Parsed(f + opts, k)
  }

  // ---- the program -------------------------------------------------------------------------

  /** The two result tables of get_ordered_opts as one sequence. */
  function Collect(opts: seq<string>, optarg: map<nat, string>): seq<Found> {
    seq(|opts|, k requires 0 <= k < |opts| => Found(opts[k], if k + 1 in optarg then Some(optarg[k + 1]) else None))
  }

  ghost predicate Fits(opts: seq<string>, optarg: map<nat, string>) {
    forall k :: k in optarg ==> k <= |opts|
  }

  lemma CollectSnoc(opts: seq<string>, optarg: map<nat, string>, o: string, v: string)
    requires Fits(opts, optarg)
    ensures Fits(opts + [o], optarg) && Fits(opts + [o], optarg[|opts| + 1 := v])
    ensures Collect(opts + [o], optarg) == Collect(opts, optarg) + [Found(o, None)]
    ensures Collect(opts + [o], optarg[|opts| + 1 := v]) == Collect(opts, optarg) + [Found(o, Some(v))]
  {
  }

  /** For each name the value given last; none for an option without a value. */
  function LastGiven(found: seq<Found>): map<string, Option<string>> {
    if found == [] then map[]
    else LastGiven(found[..|found| - 1])[found[|found| - 1].name := found[|found| - 1].arg]
  }

  /** A name is in the result exactly if it was given, with the value of its last occurrence. */
  lemma {:induction false} LastGivenAt(found: seq<Found>, k: nat)
    requires k < |found| && forall j :: k < j < |found| ==> found[j].name != found[k].name
    ensures found[k].name in LastGiven(found) && LastGiven(found)[found[k].name] == found[k].arg
    ensures LastGiven(found).Keys == set f | f in found :: f.name
    decreases |found|
  {
    LastGivenKeys(found);
    if k < |found| - 1 {
      LastGivenAt(found[..|found| - 1], k);
    }
  }

  lemma {:induction false} LastGivenKeys(found: seq<Found>)
    ensures LastGiven(found).Keys == set f | f in found :: f.name
    decreases |found|
  {
    if found != [] {
      var h := found[..|found| - 1];
      LastGivenKeys(h);
      assert found == h + [found[|found| - 1]];
    }
  }

  /** `done` before what is still to come of an argument. */
  function More(done: seq<Found>, r: Taken): Taken {
    match r
    case Bad(m) => Bad(m)
    case Taken(f, u) => Taken(done + f, u)
  }

  /** One character of a group of short options. */
  lemma ShortStep(t: Table, args: seq<string>, i: nat, j: nat, done: seq<Found>, rank: string -> nat)
    requires Ranked(t, rank) && i < |args| && j < |args[i]|
    ensures var (a, c) := (args[i], Canonical(t, [args[i][j]], rank));
            More(done, ShortArg(t, args, i, j, rank)) ==
              if c.Unknown? then Bad(UnknownMsg(c.name))
              else if t[c.name].n == 0 then More(done + [Found(c.name, None)], ShortArg(t, args, i, j + 1, rank))
              else if j + 1 < |a| then Taken(done + [Found(c.name, Some(a[j + 1..]))], 1)
              else if i + 1 == |args| then Bad("Missed value for option `-" + c.name + "'")
              else Taken(done + [Found(c.name, Some(args[i + 1]))], 2)
  {
    var c := Canonical(t, [args[i][j]], rank);
    if c.Known? && t[c.name].n == 0 {
      var r := ShortArg(t, args, i, j + 1, rank);
      if r.Taken? {
        assert done + ([Found(c.name, None)] + r.found) == (done + [Found(c.name, None)]) + r.found;
      }
    }
  }

  lemma ShortEnd(t: Table, args: seq<string>, i: nat, done: seq<Found>, rank: string -> nat)
    requires Ranked(t, rank) && i < |args|
    ensures More(done, ShortArg(t, args, i, |args[i]|, rank)) == Taken(done, 1)
    ensures forall r :: More([], r) == r
  {
    forall r ensures More([], r) == r {
      if r.Taken? {
        assert [] + r.found == r.found;
      }
    }
  }

  /** One argument of the list. */
  lemma ParseStep(t: Table, args: seq<string>, i: nat, done: seq<Found>, rank: string -> nat)
    requires Ranked(t, rank) && i <= |args|
    ensures Prepend(done, Parse(t, args, i, rank)) ==
            if i == |args| then Parsed(done, i)
            else if args[i] == "--" then Parsed(done, i + 1)
            else if !IsLong(args[i]) && !IsShort(args[i]) then Parsed(done, i)
            else match OneArg(t, args, i, rank)
              case Bad(m) => Failed(m)
              case Taken(f, u) => Prepend(done + f, Parse(t, args, i + u, rank))
  {
    if i < |args| && (IsLong(args[i]) || IsShort(args[i])) && OneArg(t, args, i, rank).Taken? {
      var r := OneArg(t, args, i, rank);
      var p := Parse(t, args, i + r.used, rank);
      if p.Parsed? {
        assert done + (r.found + p.opts) == (done + r.found) + p.opts;
      }
    }
  }

  lemma PrependNone(p: Parsed)
    ensures Prepend([], p) == p
  {
    if p.Parsed? {
      assert [] + p.opts == p.opts;
    }
  }

  /** The module with its one variable. */
  class Parser {
    var opterr: Option<string>

    constructor ()
      ensures opterr.None?
    {
      opterr := None;
    }

    /** canonize */
    method Canonize(t: Table, opt: string, ghost rank: string -> nat) returns (r: string)
      requires Ranked(t, rank)
      modifies this
      ensures r == Canonical(t, opt, rank).name
      ensures opterr == if r in t then old(opterr) else Some(UnknownMsg(r))
    {
      r := opt;
      if r !in t {
        opterr := Some(UnknownMsg(r));
        return;
      }
      while t[r].Alias?
        invariant r in t && Canonical(t, r, rank) == Canonical(t, opt, rank) && opterr == old(opterr)
        decreases rank(r)
      {
        r := t[r].target;
        if r !in t {
          opterr := Some(UnknownMsg(r));
          return;
        }
      }
    }

    /** The branch of get_ordered_opts for an argument that begins with two dashes. */
    method TakeLong(t: Table, args: seq<string>, i0: nat, opts: seq<string>, optarg: map<nat, string>,
                    ghost rank: string -> nat)
      returns (ok: bool, i: nat, opts': seq<string>, optarg': map<nat, string>)
      requires Ranked(t, rank) && 1 <= i0 <= |args| && IsLong(args[i0 - 1]) && Fits(opts, optarg)
      modifies this
      ensures old(opterr).Some? ==> !ok && opterr.Some?
      ensures old(opterr).None? ==>
        match LongArg(t, args, i0 - 1, rank)
        case Bad(m) => !ok && opterr == Some(m)
        case Taken(f, u) =>
          ok && opterr.None? && i + 1 == i0 + u && Fits(opts', optarg') && Collect(opts', optarg') == Collect(opts, optarg) + f
    {
      i, opts', optarg' := i0, opts, optarg;
      var a := args[i - 1];
      var pos := Find(a[2..], '=') + 2;
      var opt := Canonize(t, a[2..pos], rank);
      if opterr.Some? {
        return false, i, opts', optarg';
      }
      if pos < |a| {
        if t[opt].n == 0 {
          opterr := Some("Bad usage of option `" + a + "'");
          return false, i, opts', optarg';
        }
        CollectSnoc(opts, optarg, opt, a[pos + 1..]);
        optarg' := optarg[|opts| + 1 := a[pos + 1..]];
      } else if t[opt].n == 0 {
        CollectSnoc(opts, optarg, opt, "");
      } else {
        if i == |args| {
          opterr := Some("Missed value for option `" + a + "'");
          return false, i, opts', optarg';
        }
        CollectSnoc(opts, optarg, opt, args[i]);
        optarg' := optarg[|opts| + 1 := args[i]];
        i := i + 1;
      }
      opts' := opts + [opt];
      ok := true;
    }

    /** The branch for an argument that begins with one dash. */
    method TakeShort(t: Table, args: seq<string>, i0: nat, opts: seq<string>, optarg: map<nat, string>,
                     ghost rank: string -> nat)
      returns (ok: bool, i: nat, opts': seq<string>, optarg': map<nat, string>)
      requires Ranked(t, rank) && 1 <= i0 <= |args| && IsShort(args[i0 - 1]) && Fits(opts, optarg)
      modifies this
      ensures old(opterr).Some? ==> !ok && opterr.Some?
      ensures old(opterr).None? ==>
        match ShortArg(t, args, i0 - 1, 1, rank)
        case Bad(m) => !ok && opterr == Some(m)
        case Taken(f, u) =>
          ok && opterr.None? && i + 1 == i0 + u && Fits(opts', optarg') && Collect(opts', optarg') == Collect(opts, optarg) + f
    {
      hide ShortArg, Collect, Fits, Ranked, More, Canonical, Shorts;
      i, opts', optarg' := i0, opts, optarg;
      var a := args[i - 1];
      var j := 1;
      ghost var all := ShortArg(t, args, i0 - 1, 1, rank);
      ghost var done: seq<Found> := [];
      ShortEnd(t, args, i0 - 1, done, rank);
      assert Collect(opts, optarg) + done == Collect(opts, optarg);
      while j < |a|
        invariant 1 <= j <= |a| && i == i0 && Fits(opts', optarg') && opterr == old(opterr)
        invariant opterr.Some? ==> j == 1
        invariant Collect(opts', optarg') == Collect(opts, optarg) + done
        invariant all == More(done, ShortArg(t, args, i0 - 1, j, rank))
      {
        ShortStep(t, args, i0 - 1, j, done, rank);
        var opt := Canonize(t, [a[j]], rank);
        if opterr.Some? {
          return false, i, opts', optarg';
        }
        if t[opt].n == 0 {
          CollectSnoc(opts', optarg', opt, "");
          opts' := opts' + [opt];
          done := done + [Found(opt, None)];
        } else if |a| == j + 1 {
          if i == |args| {
            opterr := Some("Missed value for option `-" + opt + "'");
            return false, i, opts', optarg';
          }
          CollectSnoc(opts', optarg', opt, args[i]);
          optarg' := optarg'[|opts'| + 1 := args[i]];
          opts' := opts' + [opt];
          i := i + 1;
          return true, i, opts', optarg';
        } else {
          CollectSnoc(opts', optarg', opt, a[j + 1..]);
          optarg' := optarg'[|opts'| + 1 := a[j + 1..]];
          opts' := opts' + [opt];
          return true, i, opts', optarg';
        }
        j := j + 1;
      }
      ShortEnd(t, args, i0 - 1, done, rank);
      ok := true;
    }

    /** Either branch. */
    method TakeOne(t: Table, args: seq<string>, i0: nat, opts: seq<string>, optarg: map<nat, string>,
                   ghost rank: string -> nat)
      returns (ok: bool, i: nat, opts': seq<string>, optarg': map<nat, string>)
      requires Ranked(t, rank) && 1 <= i0 <= |args| && Fits(opts, optarg)
      requires IsLong(args[i0 - 1]) || IsShort(args[i0 - 1])
      modifies this
      ensures old(opterr).Some? ==> !ok && opterr.Some?
      ensures old(opterr).None? ==>
        match OneArg(t, args, i0 - 1, rank)
        case Bad(m) => !ok && opterr == Some(m)
        case Taken(f, u) =>
          ok && opterr.None? && i + 1 == i0 + u && Fits(opts', optarg') && Collect(opts', optarg') == Collect(opts, optarg) + f
    {
      hide LongArg, ShortArg, Collect, Fits;
      if args[i0 - 1][..2] == "--" {
        ok, i, opts', optarg' := TakeLong(t, args, i0, opts, optarg, rank);
      } else {
        ok, i, opts', optarg' := TakeShort(t, args, i0, opts, optarg, rank);
      }
    }

    /** get_opts. In a first call, `opterr` being none, the result is what parsing means; a second
        call after one that failed fails again as soon as there is any option. */
    method GetOpts(args: seq<string>, shOpts: string, longOpts: Table, ghost rank: string -> nat) returns (r: Answer)
      requires Ranked(Shorts(shOpts) + longOpts, rank)
      modifies this
      ensures old(opterr).None? ==>
        match Parse(Shorts(shOpts) + longOpts, args, 0, rank)
        case Failed(m) => r == Err(Some(m)) && opterr == Some(m)
        case Parsed(f, k) => r == Opts(LastGiven(f), k + 1) && opterr.None?
      ensures old(opterr).Some? ==> opterr.Some? && (r.Opts? <==> args == [] || (!IsLong(args[0]) && !IsShort(args[0])))
    {
      var ok, opts, optind, optarg := GetOrderedOpts(args, shOpts, longOpts, rank);
      if !ok {
        return Err(opterr);
      }
      var ret: map<string, Option<string>> := map[];
      var i := 0;
      ghost var found := Collect(opts, optarg);
      while i < |opts|
        invariant 0 <= i <= |opts| && ret == LastGiven(found[..i])
      {
        assert found[..i + 1][..i] == found[..i];
        ret := ret[opts[i] := if i + 1 in optarg then Some(optarg[i + 1]) else None];
        i := i + 1;
      }
      assert found[..|opts|] == found;
      return Opts(ret, optind);
    }

    /** get_ordered_opts. Left over from an earlier call, `opterr` makes any option an error. */
    method GetOrderedOpts(args: seq<string>, shOpts: string, longOpts: Table, ghost rank: string -> nat)
      returns (ok: bool, opts: seq<string>, i: nat, optarg: map<nat, string>)
      requires Ranked(Shorts(shOpts) + longOpts, rank)
      modifies this
      ensures old(opterr).None? ==>
        match Parse(Shorts(shOpts) + longOpts, args, 0, rank)
        case Failed(m) => !ok && opterr == Some(m)
        case Parsed(f, k) => ok && opterr.None? && i == k + 1 && Collect(opts, optarg) == f
      ensures old(opterr).Some? ==> opterr.Some? && (ok <==> args == [] || (!IsLong(args[0]) && !IsShort(args[0])))
    {
      var options := ConvertShort2Long(shOpts);
      ok, opts, i, optarg := Scan(options + longOpts, args, rank);
    }

    /** Its loop over the arguments. */
    method Scan(options: Table, args: seq<string>, ghost rank: string -> nat)
      returns (ok: bool, opts: seq<string>, i: nat, optarg: map<nat, string>)
      requires Ranked(options, rank)
      modifies this
      ensures old(opterr).None? ==> Reflects(Parse(options, args, 0, rank), ok, opterr, i, Collect(opts, optarg))
      ensures old(opterr).Some? ==> opterr.Some? && (ok <==> args == [] || (!IsLong(args[0]) && !IsShort(args[0])))
    {
      i, opts, optarg := 1, [], map[];
      ghost var all := Parse(options, args, 0, rank);
      PrependNone(all);
      assert Collect([], map[]) == [];
      assert Midway(options, args, rank, all, i, opts, optarg);
      hide Parse, Collect, Ranked, Midway, Reflects, IsLong, IsShort;
      var turn := GoOn;
      while turn.GoOn? && i <= |args|
        invariant 1 <= i
        invariant opterr == old(opterr) || (old(opterr).None? && turn.Fail?) || (old(opterr).Some? && opterr.Some?)
        invariant old(opterr).None? && turn.GoOn? ==> Midway(options, args, rank, all, i, opts, optarg)
        invariant old(opterr).None? && turn.Stop? ==> Reflects(all, true, opterr, i, Collect(opts, optarg))
        invariant old(opterr).None? && turn.Fail? ==> Reflects(all, false, opterr, i, Collect(opts, optarg))
        invariant old(opterr).Some? && turn.GoOn? ==> i == 1 && Fits(opts, optarg)
        invariant old(opterr).Some? && !turn.GoOn? ==> args != [] && (turn.Stop? <==> !IsLong(args[0]) && !IsShort(args[0]))
        decreases turn.GoOn?, |args| + 1 - i
      {
        turn, i, opts, optarg := Turn(options, args, i, opts, optarg, all, rank);
      }
      ok := !turn.Fail?;
      if turn.GoOn? && opterr.None? {
        MidwayEnd(options, args, rank, all, i, opts, optarg);
      }
    }

    /** One turn of the loop. */
    method Turn(options: Table, args: seq<string>, i0: nat, opts0: seq<string>, optarg0: map<nat, string>,
                ghost all: Parsed, ghost rank: string -> nat)
      returns (turn: Turned, i: nat, opts: seq<string>, optarg: map<nat, string>)
      requires Ranked(options, rank) && 1 <= i0 <= |args| && Fits(opts0, optarg0)
      requires opterr.None? ==> Midway(options, args, rank, all, i0, opts0, optarg0)
      modifies this
      ensures turn.GoOn? ==> i0 < i <= |args| + 1 && opterr == old(opterr) == None
      ensures turn.Stop? ==> opterr == old(opterr)
      ensures old(opterr).None? && turn.GoOn? ==> Midway(options, args, rank, all, i, opts, optarg)
      ensures old(opterr).None? && turn.Stop? ==> Reflects(all, true, opterr, i, Collect(opts, optarg))
      ensures old(opterr).None? && turn.Fail? ==> Reflects(all, false, opterr, i, Collect(opts, optarg))
      ensures 1 <= i
      ensures old(opterr).Some? ==> opterr.Some? && (turn.Stop? <==> !IsLong(args[i0 - 1]) && !IsShort(args[i0 - 1]))
    {
      hide Parse, Collect, OneArg, Fits, IsLong, IsShort, Ranked;
      i, opts, optarg := i0, opts0, optarg0;
      ParseStep(options, args, i - 1, Collect(opts, optarg), rank);
      DashesEnd();
      var a := args[i - 1];
      if a == "--" {
        return Stop, i + 1, opts, optarg;
      } else if a == "-" || (!IsLong(a) && !IsShort(a)) {
        return Stop, i, opts, optarg;
      }
      var ok;
      ok, i, opts, optarg := TakeOne(options, args, i, opts, optarg, rank);
      if !ok {
        return Fail, i0, opts, optarg;
      }
      return GoOn, i + 1, opts, optarg;
    }
  }

  /** What get_opts returns: the options with the values given last and the index of the first
      operand, or an error. */
  datatype Answer = Opts(ret: map<string, Option<string>>, optind: nat) | Err(msg: Option<string>)

  /** How a turn of the loop ends. */
  datatype Turned = GoOn | Stop | Fail

  ghost predicate Midway(options: Table, args: seq<string>, rank: string -> nat, all: Parsed,
                         i: nat, opts: seq<string>, optarg: map<nat, string>)
    requires Ranked(options, rank)
  {
    && 1 <= i <= |args| + 1 && Fits(opts, optarg)
    && all == Prepend(Collect(opts, optarg), Parse(options, args, i - 1, rank))
  }

  lemma MidwayEnd(options: Table, args: seq<string>, rank: string -> nat, all: Parsed,
                  i: nat, opts: seq<string>, optarg: map<nat, string>)
    requires Ranked(options, rank) && Midway(options, args, rank, all, i, opts, optarg) && i > |args|
    ensures Reflects(all, true, None, i, Collect(opts, optarg))
  {
    ParseStep(options, args, i - 1, Collect(opts, optarg), rank);
  }

  /** Neither of the two arguments that end the options is an option. */
  lemma DashesEnd()
    ensures !IsLong("--") && !IsShort("--") && !IsLong("-") && !IsShort("-")
  {
  }

  /** What the program returns, against what parsing means. */
  ghost predicate Reflects(p: Parsed, ok: bool, err: Option<string>, i: nat, found: seq<Found>) {
    match p
    case Failed(m) => !ok && err == Some(m)
    case Parsed(f, k) => ok && err.None? && i == k + 1 && found == f
  }
}
