/** What src/gnu/getopt.c means by an option: how a long name is looked up, how one option element is decoded, and how
    a whole argument vector splits into options with their arguments and operands. */
module GetoptSpec {

  datatype Option<+T> = None | Some(value: T)

  /** struct option; a flag is the variable it designates. */
  datatype LongOption = LongOption(name: string, hasArg: int, flag: Option<int>, val: int)

  /** The tables a scan works with; shorts is the option string behind its ordering prefix. */
  datatype Config = Config(shorts: string, longs: Option<seq<LongOption>>, longOnly: bool)

  // ---------------------------------------------------------------- long names

  datatype Choice = Unique(index: nat) | Ambiguous | Unknown

  predicate Agree(p: LongOption, q: LongOption) {
    p.hasArg == q.hasArg && p.flag == q.flag && p.val == q.val
  }

  /** The first option from i on with exactly this name, or the number of options. */
  function FirstExact(opts: seq<LongOption>, name: string, i: nat): (r: nat)
    requires i <= |opts|
    ensures i <= r <= |opts| && (r < |opts| ==> opts[r].name == name)
    ensures forall j :: i <= j < r ==> opts[j].name != name
    decreases |opts| - i
  {
    if i == |opts| || opts[i].name == name then i else FirstExact(opts, name, i + 1)
  }

  /** The first option from i on that the name abbreviates, or the number of options. */
  function FirstPrefix(opts: seq<LongOption>, name: string, i: nat): (r: nat)
    requires i <= |opts|
    ensures i <= r <= |opts| && (r < |opts| ==> name <= opts[r].name)
    ensures forall j :: i <= j < r ==> !(name <= opts[j].name)
    decreases |opts| - i
  {
    if i == |opts| || name <= opts[i].name then i else FirstPrefix(opts, name, i + 1)
  }

  /** Option j is another reading of the abbreviation than option f. */
  predicate Clashes(opts: seq<LongOption>, name: string, longOnly: bool, f: nat, j: nat)
    requires f < |opts| && j < |opts|
  {
    j > f && name <= opts[j].name && (longOnly || !Agree(opts[f], opts[j]))
  }

  function Choose(opts: seq<LongOption>, name: string, longOnly: bool): Choice {
    var e, f := FirstExact(opts, name, 0), FirstPrefix(opts, name, 0);
    if e < |opts| then Unique(e)
    else if f == |opts| then Unknown
    else if exists j :: 0 <= j < |opts| && Clashes(opts, name, longOnly, f, j) then Ambiguous
    else Unique(f)
  }

  /** What a lookup promises, said without the order of the search: an exact name wins wherever it stands; an
      abbreviation needs every option it could mean to be the same one, or, outside long-only mode, interchangeable. */
  ghost predicate Promised(opts: seq<LongOption>, name: string, longOnly: bool, c: Choice) {
    match c
    case Unique(i) =>
      && i < |opts| && name <= opts[i].name
      && (opts[i].name == name
          || forall j :: 0 <= j < |opts| && name <= opts[j].name ==>
            opts[j].name != name && (j == i || (i < j && !longOnly && Agree(opts[i], opts[j]))))
      && (opts[i].name == name ==> forall j :: 0 <= j < i ==> opts[j].name != name)
    case Ambiguous =>
      && (forall j :: 0 <= j < |opts| ==> opts[j].name != name)
      && exists i, j :: 0 <= i < j < |opts| && name <= opts[i].name && name <= opts[j].name
           && (longOnly || !Agree(opts[i], opts[j]))
    case Unknown => forall j :: 0 <= j < |opts| ==> !(name <= opts[j].name)
  }

  lemma LookupKeepsPromise(opts: seq<LongOption>, name: string, longOnly: bool)
    ensures Promised(opts, name, longOnly, Choose(opts, name, longOnly))
  {
    var f := FirstPrefix(opts, name, 0);
    if f < |opts| && FirstExact(opts, name, 0) == |opts| && Choose(opts, name, longOnly) == Unique(f) {
      forall j | 0 <= j < |opts| && name <= opts[j].name
        ensures opts[j].name != name && (j == f || (f < j && !longOnly && Agree(opts[f], opts[j])))
      {
        assert !Clashes(opts, name, longOnly, f, j);
      }
    }
  }

  // ---------------------------------------------------------------- one option element

  /** What one call reports and leaves behind: the value returned, the argument, the rest of the element, how far
      optind moves, the offending option of an error, and the long option found. */
  datatype Step = Step(
    ret: int, optarg: Option<string>, rest: string, advance: nat, optopt: Option<int>, longind: Option<nat>)

  predicate NonOption(elem: string) {
    |elem| < 2 || elem[0] != '-'
  }

  /** The text of an option element behind its punctuation. */
  function Start(cfg: Config, elem: string): (r: string)
    requires !NonOption(elem) && elem != "--"
    ensures r != "" && |r| < |elem|
  {
    if cfg.longs.Some? && elem[1] == '-' then elem[2..] else elem[1..]
  }

  function NameEnd(s: string): (n: nat)
    ensures n <= |s| && '=' !in s[..n] && (n < |s| ==> s[n] == '=')
  {
    if s == "" || s[0] == '=' then 0 else
      assert forall m: nat :: m <= |s| - 1 ==> s[..m + 1] == [s[0]] + s[1..][..m];
      1 + NameEnd(s[1..])
  }

  predicate TryLong(cfg: Config, elem: string)
    requires |elem| >= 2
  {
    cfg.longs.Some? && (elem[1] == '-' || (cfg.longOnly && (|elem| > 2 || elem[1] !in cfg.shorts)))
  }

  function MissingArgument(cfg: Config): int {
    if cfg.shorts != "" && cfg.shorts[0] == ':' then ':' as int else '?' as int
  }

  function LongFound(cfg: Config, o: LongOption, index: nat, rest: string, next: Option<string>): Step {
    var n := NameEnd(rest);
    var ret := if o.flag.Some? then 0 else o.val;
    if n < |rest| then
      if o.hasArg != 0 then Step(ret, Some(rest[n + 1..]), "", 1, None, Some(index))
      else Step('?' as int, None, "", 1, Some(o.val), None)
    else if o.hasArg == 1 then
      if next.Some? then Step(ret, next, "", 2, None, Some(index))
      else Step(MissingArgument(cfg), None, "", 1, Some(o.val), None)
    else Step(ret, None, "", 1, None, Some(index))
  }

  /** Reading the element as a long option; None when it is to be read as a short one after all. */
  function DecodeLong(cfg: Config, elem: string, rest: string, next: Option<string>): Option<Step>
    requires cfg.longs.Some? && |elem| >= 2 && rest != ""
  {
    var choice := Choose(cfg.longs.value, rest[..NameEnd(rest)], cfg.longOnly);
    LookupKeepsPromise(cfg.longs.value, rest[..NameEnd(rest)], cfg.longOnly);
    match choice
    case Unique(i) => Some(LongFound(cfg, cfg.longs.value[i], i, rest, next))
    case Ambiguous => Some(Step('?' as int, None, "", 1, Some(0), None))
    case Unknown =>
      if !cfg.longOnly || elem[1] == '-' || rest[0] !in cfg.shorts then
        Some(Step('?' as int, None, "", 1, Some(0), None))
      else
        None
  }

  /** The option string from the first occurrence of c on; empty when there is none. */
  function From(shorts: string, c: char): (r: string)
    ensures c in shorts ==> r != "" && r[0] == c
    ensures c !in shorts ==> r == ""
  {
    if shorts == "" then "" else if shorts[0] == c then shorts else From(shorts[1..], c)
  }

  datatype Arity = NotAnOption | NoArgument | Required | Optionally

  function ArityOf(cfg: Config, c: char): Arity {
    var t := From(cfg.shorts, c);
    if t == "" || c == ':' || c == ';' then NotAnOption
    else if |t| < 2 || t[1] != ':' then NoArgument
    else if |t| < 3 || t[2] != ':' then Required
    else Optionally
  }

  /** The option string does not ask for -W foo to be read as --foo. */
  predicate NoLongByW(shorts: string) {
    var t := From(shorts, 'W');
    |t| < 2 || t[1] != ';'
  }

  function DecodeShort(cfg: Config, rest: string, next: Option<string>): Step
    requires rest != ""
  {
    var c, tail := rest[0] as int, rest[1..];
    var last := if tail == "" then 1 else 0;
    match ArityOf(cfg, rest[0])
    case NotAnOption => Step('?' as int, None, tail, last, Some(c), None)
    case NoArgument => Step(c, None, tail, last, None, None)
    case Optionally => Step(c, if tail == "" then None else Some(tail), "", 1, None, None)
    case Required =>
      if tail != "" then Step(c, Some(tail), "", 1, None, None)
      else if next.Some? then Step(c, next, "", 2, None, None)
      else Step(MissingArgument(cfg), None, "", 1, Some(c), None)
  }

  function Decode(cfg: Config, elem: string, rest: string, next: Option<string>): (d: Step)
    requires |elem| >= 2 && rest != ""
    ensures d.advance <= 2
    ensures d.advance == 0 ==> d.rest != "" && |d.rest| < |rest|
    ensures d.advance > 0 ==> d.rest == ""
    ensures d.advance == 2 ==> next.Some? && d.optarg == next
  {
    var long := if TryLong(cfg, elem) then DecodeLong(cfg, elem, rest, next) else None;
    if long.Some? then long.value else DecodeShort(cfg, rest, next)
  }

  /** No long option returns the value that means the end of the scan; one with a flag returns 0. */
  predicate Distinguishable(cfg: Config) {
    cfg.longs.Some? ==>
      forall i :: 0 <= i < |cfg.longs.value| && cfg.longs.value[i].flag.None? ==> cfg.longs.value[i].val != -1
  }

  lemma OptionIsNotTheEnd(cfg: Config, elem: string, rest: string, next: Option<string>)
    requires |elem| >= 2 && rest != "" && Distinguishable(cfg)
    ensures Decode(cfg, elem, rest, next).ret != -1
  {
    ShortIsNotTheEnd(cfg, rest, next);
    hide Distinguishable, DecodeShort, DecodeLong;
    if TryLong(cfg, elem) {
      LongIsNotTheEnd(cfg, elem, rest, next);
    }
  }

  lemma ShortIsNotTheEnd(cfg: Config, rest: string, next: Option<string>)
    requires rest != ""
    ensures DecodeShort(cfg, rest, next).ret != -1
  {
    hide ArityOf;
  }

  lemma LongIsNotTheEnd(cfg: Config, elem: string, rest: string, next: Option<string>)
    requires cfg.longs.Some? && |elem| >= 2 && rest != "" && Distinguishable(cfg)
    ensures var d := DecodeLong(cfg, elem, rest, next); d.Some? ==> d.value.ret != -1
  {
    hide Choose, From;
    LookupIsInTable(cfg.longs.value, rest[..NameEnd(rest)], cfg.longOnly);
  }

  lemma LookupIsInTable(opts: seq<LongOption>, name: string, longOnly: bool)
    ensures var c := Choose(opts, name, longOnly); c.Unique? ==> c.index < |opts|
  {
  }

  // ---------------------------------------------------------------- a whole argument vector

  /** What the caller sees of one call. */
  datatype Report = Report(ret: int, optarg: Option<string>)

  datatype Split = Split(options: seq<string>, operands: seq<string>, reports: seq<Report>)

  /** How many reports a caller sees that stops at the first -1. */
  function BeforeEnd(reports: seq<Report>): (k: nat)
    ensures k <= |reports| && (k < |reports| ==> reports[k].ret == -1)
    ensures forall j :: 0 <= j < k ==> reports[j].ret != -1
  {
    if reports == [] || reports[0].ret == -1 then 0 else 1 + BeforeEnd(reports[1..])
  }

  function Second(args: seq<string>): Option<string> {
    if |args| > 1 then Some(args[1]) else None
  }

  /** The split of arguments whose first element is an option element that has been read up to `rest`: the element
      and the argument it takes are options. */
  function Resume(cfg: Config, args: seq<string>, rest: string): Split
    requires args != [] && |args[0]| >= 2 && rest != ""
    decreases |args|, |rest|
  {
    var d := Decode(cfg, args[0], rest, Second(args));
    var report := Report(d.ret, d.optarg);
    if d.advance == 0 then
      var s := Resume(cfg, args, d.rest);
      s.(reports := [report] + s.reports)
    else
      var s := Partition(cfg, args[d.advance..]);
      Split(args[..d.advance] + s.options, s.operands, [report] + s.reports)
  }

  /** The split of an argument vector: read from left to right, without moving anything. */
  function Partition(cfg: Config, args: seq<string>): Split
    decreases |args|, if args == [] then 0 else |args[0]|
  {
    if args == [] then Split([], [], [])
    else if NonOption(args[0]) then
      var s := Partition(cfg, args[1..]);
      s.(operands := [args[0]] + s.operands)
    else if args[0] == "--" then Split(["--"], args[1..], [])
    else Resume(cfg, args, Start(cfg, args[0]))
  }

  /** s2 read after a part that has already given options and operands. */
  function Joined(options: seq<string>, operands: seq<string>, reports: seq<Report>, s: Split): Split {
    Split(options + s.options, operands + s.operands, reports + s.reports)
  }

  /** A scan that does not permute: what it reports, and how many arguments it takes before it stops. */
  datatype Course = Course(reports: seq<Report>, taken: nat)

  function Along(reports: seq<Report>, taken: nat, c: Course): Course {
    Course(reports + c.reports, taken + c.taken)
  }

  /** Reading in place, in the middle of the first argument. */
  function ResumeInPlace(cfg: Config, stopAtOperand: bool, args: seq<string>, rest: string): Course
    requires args != [] && |args[0]| >= 2 && rest != ""
    decreases |args|, |rest|
  {
    var d := Decode(cfg, args[0], rest, Second(args));
    Along([Report(d.ret, d.optarg)], d.advance,
      if d.advance == 0 then ResumeInPlace(cfg, stopAtOperand, args, d.rest)
      else ReadInPlace(cfg, stopAtOperand, args[d.advance..]))
  }

  /** Reading in place: an operand stops the scan, or is reported like the argument of an option with the value 1. */
  function ReadInPlace(cfg: Config, stopAtOperand: bool, args: seq<string>): Course
    decreases |args|, if args == [] then 0 else |args[0]|
  {
    if args == [] then Course([], 0)
    else if NonOption(args[0]) then
      if stopAtOperand then Course([], 0)
      else Along([Report(1, Some(args[0]))], 1, ReadInPlace(cfg, stopAtOperand, args[1..]))
    else if args[0] == "--" then Course([], 1)
    else ResumeInPlace(cfg, stopAtOperand, args, Start(cfg, args[0]))
  }

  /** The elements of s that a mask selects, in order. */
  function Select(s: seq<string>, mask: seq<bool>, which: bool): seq<string>
    requires |s| == |mask|
  {
    if s == [] then [] else (if mask[0] == which then [s[0]] else []) + Select(s[1..], mask[1..], which)
  }

  lemma {:induction false} SelectAppend(s: seq<string>, t: seq<string>, m: seq<bool>, k: seq<bool>, which: bool)
    requires |s| == |m| && |t| == |k|
    ensures Select(s + t, m + k, which) == Select(s, m, which) + Select(t, k, which)
    decreases |s|
  {
    if s == [] {
      assert s + t == t && m + k == k;
    } else {
      var h := if m[0] == which then [s[0]] else [];
      calc {
        Select(s + t, m + k, which);
        h + Select((s + t)[1..], (m + k)[1..], which);
        { assert (s + t)[1..] == s[1..] + t && (m + k)[1..] == m[1..] + k; }
        h + Select(s[1..] + t, m[1..] + k, which);
        { SelectAppend(s[1..], t, m[1..], k, which); }
        h + (Select(s[1..], m[1..], which) + Select(t, k, which));
        Select(s, m, which) + Select(t, k, which);
      }
    }
  }

  lemma {:induction false} SelectAll(s: seq<string>, m: seq<bool>, which: bool)
    requires |s| == |m| && forall i :: 0 <= i < |m| ==> m[i] == which
    ensures Select(s, m, which) == s && Select(s, m, !which) == []
    decreases |s|
  {
    if s != [] {
      SelectAll(s[1..], m[1..], which);
      assert s == [s[0]] + s[1..];
    }
  }

  /** A split is a stable partition: every argument goes to exactly one side and keeps its place there. */
  lemma {:induction false} PartitionIsStable(cfg: Config, args: seq<string>) returns (mask: seq<bool>)
    ensures |mask| == |args|
    ensures Select(args, mask, true) == Partition(cfg, args).options
    ensures Select(args, mask, false) == Partition(cfg, args).operands
    decreases |args|, if args == [] then 0 else |args[0]|
  {
    if args == [] {
      mask := [];
    } else if NonOption(args[0]) {
      var m := PartitionIsStable(cfg, args[1..]);
      mask := [false] + m;
      assert mask[1..] == m;
    } else if args[0] == "--" {
      var m := seq(|args| - 1, _ => false);
      mask := [true] + m;
      assert mask[1..] == m;
      SelectAll(args[1..], m, false);
    } else {
      mask := ResumeIsStable(cfg, args, Start(cfg, args[0]));
    }
  }

  lemma {:induction false} ResumeIsStable(cfg: Config, args: seq<string>, rest: string) returns (mask: seq<bool>)
    requires args != [] && |args[0]| >= 2 && rest != ""
    ensures |mask| == |args|
    ensures Select(args, mask, true) == Resume(cfg, args, rest).options
    ensures Select(args, mask, false) == Resume(cfg, args, rest).operands
    decreases |args|, |rest|
  {
    var d := Decode(cfg, args[0], rest, Second(args));
    if d.advance == 0 {
      mask := ResumeIsStable(cfg, args, d.rest);
    } else {
      var m := PartitionIsStable(cfg, args[d.advance..]);
      var taken := seq(d.advance, _ => true);
      mask := taken + m;
      assert args == args[..d.advance] + args[d.advance..];
      SelectAppend(args[..d.advance], args[d.advance..], taken, m, true);
      SelectAppend(args[..d.advance], args[d.advance..], taken, m, false);
      SelectAll(args[..d.advance], taken, true);
    }
  }

  /** The first character of a cluster that takes an argument, or its length. */
  function ArgumentTaker(cfg: Config, cluster: string): (i: nat)
    ensures i <= |cluster|
  {
    if cluster == "" || ArityOf(cfg, cluster[0]).Required? || ArityOf(cfg, cluster[0]).Optionally? then 0
    else 1 + ArgumentTaker(cfg, cluster[1..])
  }

  /** Unless it is tried as a long option, an option element takes the following argument just when the first character
      in it that takes an argument is its last one and requires it. */
  lemma {:induction false} ClusterTakesNext(cfg: Config, args: seq<string>, rest: string)
    requires args != [] && |args[0]| >= 2 && rest != "" && !TryLong(cfg, args[0])
    ensures var i := ArgumentTaker(cfg, rest);
      var k := if i + 1 == |rest| && ArityOf(cfg, rest[i]).Required? && |args| > 1 then 2 else 1;
      var s, t := Resume(cfg, args, rest), Partition(cfg, args[k..]);
      s.options == args[..k] + t.options && s.operands == t.operands
    decreases |rest|
  {
    var d := Decode(cfg, args[0], rest, Second(args));
    assert d == DecodeShort(cfg, rest, Second(args));
    if d.advance == 0 {
      ClusterTakesNext(cfg, args, d.rest);
      assert d.rest == rest[1..];
    }
  }
}
