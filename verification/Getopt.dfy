/** The permuting option scanner of src/gnu/getopt.c: a state machine that is resumed by every call and rotates blocks
    of the argument vector in place while it scans. */
module Getopt {
  import opened GetoptSpec
  import opened Exchange

  /** The search of _getopt_internal_r for a long option; the ambiguity list is built with malloc, whose failures do
      not change the outcome. */
  method FindLong(opts: seq<LongOption>, name: string, longOnly: bool, mallocs: seq<bool>) returns (choice: Choice)
    ensures choice == Choose(opts, name, longOnly)
  {
    var found, exact, ambig, ambigList, mem, i := -1, false, false, [], mallocs, 0;
    while i < |opts| && !exact
      invariant 0 <= i <= |opts| && -1 <= found < |opts|
      invariant exact ==> found == i < |opts| && opts[i].name == name
      invariant forall j :: 0 <= j < i ==> opts[j].name != name
      invariant !exact ==> found < i
      invariant !exact && found == -1 ==> forall j :: 0 <= j < i ==> !(name <= opts[j].name)
      invariant !exact && found >= 0 ==>
        name <= opts[found].name && forall j :: 0 <= j < found ==> !(name <= opts[j].name)
      invariant !exact && found == -1 ==> !ambig && ambigList == []
      invariant !exact && found >= 0 ==>
        (ambig || ambigList != [] <==> exists j :: 0 <= j < i && Clashes(opts, name, longOnly, found, j))
      decreases |opts| - i, !exact
    {
      if name <= opts[i].name {
        if |name| == |opts[i].name| {
          found, exact := i, true;
        } else if found == -1 {
          found := i;
        } else if ambig {
        } else if longOnly || !Agree(opts[found], opts[i]) {
          assert Clashes(opts, name, longOnly, found, i);
          var granted := mem != [] && mem[0];
          mem := if mem == [] then [] else mem[1..];
          if granted {
            ambigList := [i] + ambigList;
          } else {
            ambigList, ambig := [], true;
          }
        }
      }
      if !exact {
        i := i + 1;
      }
    }
    if (ambig || ambigList != []) && !exact {
      choice := Ambiguous;
    } else if found != -1 {
      choice := Unique(found);
    } else {
      choice := Unknown;
    }
  }

  // ---------------------------------------------------------------- the vector during a permuting scan

  /** The given vector has been read up to optind: its operands are in [first, last), its options before and after
      them, and the rest is where it was. */
  ghost predicate Placed(
    a: seq<string>, given: seq<string>, first: int, last: int, optind: int, options: seq<string>, operands: seq<string>)
  {
    && |a| == |given| && 1 <= first <= last <= optind <= |a|
    && a[..first] + a[last..optind] == options
    && a[first..last] == operands
    && a[optind..] == given[optind..]
  }

  lemma ExchangePlaced(
    a: seq<string>, given: seq<string>, first: int, last: int, optind: int, options: seq<string>, operands: seq<string>)
    requires Placed(a, given, first, last, optind, options, operands)
    ensures Placed(Exchanged(a, first, last, optind), given, first + (optind - last), optind, optind, options, operands)
  {
    var b := Exchanged(a, first, last, optind);
    var f := first + (optind - last);
    assert b[..f] == a[..first] + a[last..optind];
    assert b[f..optind] == a[first..last];
    assert b[optind..] == a[optind..];
  }

  lemma NoOperandsPlaced(
    a: seq<string>, given: seq<string>, first: int, last: int, optind: int, options: seq<string>, operands: seq<string>)
    requires Placed(a, given, first, last, optind, options, operands) && first == last
    ensures Placed(a, given, optind, optind, optind, options, operands)
  {
    assert a[..first] + a[last..optind] == a[..optind];
  }

  lemma OperandPlaced(
    a: seq<string>, given: seq<string>, first: int, optind: int, options: seq<string>, operands: seq<string>)
    requires Placed(a, given, first, optind, optind, options, operands) && optind < |a|
    ensures Placed(a, given, first, optind + 1, optind + 1, options, operands + [given[optind]])
    ensures a[optind] == given[optind] && |a| == |given|
  {
    assert a[optind] == a[optind..][0] == given[optind..][0];
    assert a[first..optind + 1] == a[first..optind] + [a[optind]];
    assert a[optind + 1..] == a[optind..][1..] && given[optind + 1..] == given[optind..][1..];
  }

  lemma OptionsPlaced(
    a: seq<string>, given: seq<string>, first: int, last: int, optind: int, options: seq<string>, operands: seq<string>,
    k: nat)
    requires Placed(a, given, first, last, optind, options, operands) && optind + k <= |a|
    ensures Placed(a, given, first, last, optind + k, options + given[optind..optind + k], operands)
  {
    assert a[optind..][..k] == a[optind..optind + k] && given[optind..][..k] == given[optind..optind + k];
    assert a[last..optind + k] == a[last..optind] + a[optind..optind + k];
    assert a[optind + k..] == a[optind..][k..] && given[optind + k..] == given[optind..][k..];
    assert a[..first] + a[last..optind + k] == (a[..first] + a[last..optind]) + a[optind..optind + k];
  }

  /** At the end of a scan the options come first, then the operands. */
  lemma EverythingPlaced(
    a: seq<string>, given: seq<string>, first: int, optind: int, options: seq<string>, operands: seq<string>)
    requires Placed(a, given, first, optind, optind, options, operands)
    ensures a == options + (operands + given[optind..]) && first == |options|
  {
    assert a == a[..first] + (a[first..optind] + a[optind..]);
  }

  lemma JoinOperand(cfg: Config, options: seq<string>, operands: seq<string>, reports: seq<Report>, args: seq<string>)
    requires args != [] && NonOption(args[0])
    ensures Joined(options, operands, reports, Partition(cfg, args))
         == Joined(options, operands + [args[0]], reports, Partition(cfg, args[1..]))
  {
    var s := Partition(cfg, args[1..]);
    assert operands + ([args[0]] + s.operands) == (operands + [args[0]]) + s.operands;
  }

  lemma JoinDashes(cfg: Config, options: seq<string>, operands: seq<string>, reports: seq<Report>, args: seq<string>)
    requires args != [] && args[0] == "--"
    ensures Joined(options, operands, reports, Partition(cfg, args))
         == Split(options + ["--"], operands + args[1..], reports)
  {
  }

  lemma ElementStarts(cfg: Config, args: seq<string>)
    requires args != [] && !NonOption(args[0]) && args[0] != "--"
    ensures Partition(cfg, args) == Resume(cfg, args, Start(cfg, args[0]))
  {
  }

  lemma JoinStep(
    cfg: Config, options: seq<string>, operands: seq<string>, reports: seq<Report>, args: seq<string>, rest: string)
    requires args != [] && |args[0]| >= 2 && rest != ""
    ensures var d := Decode(cfg, args[0], rest, Second(args));
      && d.advance <= |args|
      && Joined(options, operands, reports, Resume(cfg, args, rest))
         == Joined(options + args[..d.advance], operands, reports + [Report(d.ret, d.optarg)],
                   if d.rest == "" then Partition(cfg, args[d.advance..]) else Resume(cfg, args, d.rest))
  {
    var d := Decode(cfg, args[0], rest, Second(args));
    var r := [Report(d.ret, d.optarg)];
    if d.advance == 0 {
      var s := Resume(cfg, args, d.rest);
      assert reports + (r + s.reports) == (reports + r) + s.reports;
      assert options + args[..0] == options;
    } else {
      var s := Partition(cfg, args[d.advance..]);
      assert reports + (r + s.reports) == (reports + r) + s.reports;
      assert options + (args[..d.advance] + s.options) == (options + args[..d.advance]) + s.options;
    }
  }

  // ---------------------------------------------------------------- the scanner

  datatype Ordering = RequireOrder | Permute | ReturnInOrder

  function ShortsOf(optstring: string): string {
    if optstring != "" && (optstring[0] == '-' || optstring[0] == '+') then optstring[1..] else optstring
  }

  function OrderingOf(optstring: string, posixlyCorrect: bool): Ordering {
    if optstring != "" && optstring[0] == '-' then ReturnInOrder
    else if optstring != "" && optstring[0] == '+' then RequireOrder
    else if posixlyCorrect then RequireOrder
    else Permute
  }

  /** The split of a whole argument vector; its first element, the program name, counts with the options. */
  ghost function Whole(cfg: Config, given: seq<string>): Split
    requires given != []
  {
    Joined([given[0]], [], [], Partition(cfg, given[1..]))
  }

  /** What is still to come: the rest of the element being read, or the next element. */
  ghost function Remaining(cfg: Config, args: seq<string>, nextchar: string): Split
    requires nextchar != "" ==> args != [] && |args[0]| >= 2
  {
    if nextchar == "" then Partition(cfg, args) else Resume(cfg, args, nextchar)
  }

  /** The same for the orders that do not permute. */
  ghost function WholeInPlace(cfg: Config, stopAtOperand: bool, given: seq<string>): Course
    requires given != []
  {
    Along([], 1, ReadInPlace(cfg, stopAtOperand, given[1..]))
  }

  ghost function RemainingInPlace(cfg: Config, stopAtOperand: bool, args: seq<string>, nextchar: string): Course
    requires nextchar != "" ==> args != [] && |args[0]| >= 2
  {
    if nextchar == "" then ReadInPlace(cfg, stopAtOperand, args) else ResumeInPlace(cfg, stopAtOperand, args, nextchar)
  }

  lemma AlongTwice(reports: seq<Report>, taken: nat, more: seq<Report>, n: nat, c: Course)
    ensures Along(reports, taken, Along(more, n, c)) == Along(reports + more, taken + n, c)
  {
  }

  /** What the first argument makes of the course of a scan. */
  lemma InPlaceCases(cfg: Config, stopAtOperand: bool, args: seq<string>, reports: seq<Report>, taken: nat)
    ensures var c := Along(reports, taken, ReadInPlace(cfg, stopAtOperand, args));
      if args == [] then c == Course(reports, taken)
      else if NonOption(args[0]) then
        if stopAtOperand then c == Course(reports, taken)
        else c == Along(reports + [Report(1, Some(args[0]))], taken + 1, ReadInPlace(cfg, stopAtOperand, args[1..]))
      else if args[0] == "--" then c == Course(reports, taken + 1)
      else c == Along(reports, taken, ResumeInPlace(cfg, stopAtOperand, args, Start(cfg, args[0])))
  {
    if args != [] && NonOption(args[0]) && !stopAtOperand {
      AlongTwice(reports, taken, [Report(1, Some(args[0]))], 1, ReadInPlace(cfg, stopAtOperand, args[1..]));
    }
  }

  /** One option read in place. */
  lemma StepInPlace(
    cfg: Config, stopAtOperand: bool, given: seq<string>, optind: nat, rest: string, reports: seq<Report>)
    requires optind < |given| && |given[optind]| >= 2 && rest != ""
    ensures var d := Decode(cfg, given[optind], rest, Second(given[optind..]));
      && optind + d.advance <= |given|
      && Along(reports, optind, RemainingInPlace(cfg, stopAtOperand, given[optind..], rest))
         == Along(reports + [Report(d.ret, d.optarg)], optind + d.advance,
                  RemainingInPlace(cfg, stopAtOperand, given[optind + d.advance..], d.rest))
  {
    hide Decode, Along;
    var args := given[optind..];
    var d := Decode(cfg, given[optind], rest, Second(args));
    assert args[d.advance..] == given[optind + d.advance..];
    AlongTwice(reports, optind, [Report(d.ret, d.optarg)], d.advance,
      RemainingInPlace(cfg, stopAtOperand, args[d.advance..], d.rest));
  }

  /** One option read in a permuting scan. */
  lemma StepPermuted(
    cfg: Config, a: seq<string>, given: seq<string>, first: int, last: int, optind: int, options: seq<string>,
    operands: seq<string>, reports: seq<Report>, rest: string)
    requires Placed(a, given, first, last, optind, options, operands)
    requires 0 <= optind < |given| && |given[optind]| >= 2 && rest != ""
    ensures var d := Decode(cfg, given[optind], rest, Second(given[optind..]));
      && optind + d.advance <= |given|
      && var more := options + given[optind..optind + d.advance];
      && Placed(a, given, first, last, optind + d.advance, more, operands)
      && Joined(options, operands, reports, Remaining(cfg, given[optind..], rest))
         == Joined(more, operands, reports + [Report(d.ret, d.optarg)],
                   Remaining(cfg, given[optind + d.advance..], d.rest))
  {
    var args := given[optind..];
    var d := Decode(cfg, given[optind], rest, Second(args));
    assert optind + d.advance <= |a|;
    hide Decode, Joined, Partition, Resume, Placed;
    assert args[d.advance..] == given[optind + d.advance..] && args[..d.advance] == given[optind..optind + d.advance];
    JoinStep(cfg, options, operands, reports, args, rest);
    OptionsPlaced(a, given, first, last, optind, options, operands, d.advance);
  }

  /** struct _getopt_data together with the vector it scans; an empty nextchar stands for a null one as well.  The
      ghost fields hold the vector as given and what has been read of it. */
  class Scanner {
    const argv: array<string>
    const cfg: Config
    const ordering: Ordering
    var optind: int
    var optopt: int
    var optarg: Option<string>
    var nextchar: string
    var first: int
    var last: int
    var longind: Option<nat>
    var mallocs: seq<bool>

    ghost var given: seq<string>
    ghost var options: seq<string>
    ghost var operands: seq<string>
    ghost var reports: seq<Report>
    ghost var finished: bool

    /** _getopt_initialize, for a scan that starts behind the program name. */
    constructor (argv: array<string>, optstring: string, longs: Option<seq<LongOption>>, longOnly: bool,
                 posixlyCorrect: bool, mallocs: seq<bool>)
      requires argv.Length > 0 && NoLongByW(ShortsOf(optstring))
      ensures this.argv == argv && cfg == Config(ShortsOf(optstring), longs, longOnly)
      ensures ordering == OrderingOf(optstring, posixlyCorrect)
      ensures given == argv[..] && reports == [] && !finished && optind == 1
      ensures Valid()
    {
      this.argv, cfg, ordering :=
        argv, Config(ShortsOf(optstring), longs, longOnly), OrderingOf(optstring, posixlyCorrect);
      optind, optopt, optarg, nextchar, first, last := 1, '?' as int, None, "", 1, 1;
      longind, this.mallocs := None, mallocs;
      given, options, operands, reports, finished := argv[..], [argv[0]], [], [], false;
      new;
      assert argv[..1] + argv[1..1] == [argv[0]];
    }

    /** In a permuting scan the vector is placed, and what has been read together with what remains is the split of
        the vector as given; in the other orders it is not touched. */
    ghost predicate Valid()
      reads this, argv
    {
      && given != [] && |given| == argv.Length && NoLongByW(cfg.shorts)
      && 1 <= first <= last <= optind <= argv.Length
      && argv[optind..] == given[optind..]
      && (nextchar != "" ==> optind < argv.Length && !NonOption(argv[optind]))
      && (!ordering.Permute? ==> argv[..] == given && first == last && InStep())
      && (ordering.Permute? ==>
        && Placed(argv[..], given, first, last, optind, options, operands)
        && Joined(options, operands, reports, Remaining(cfg, given[optind..], nextchar)) == Whole(cfg, given))
    }

    /** The end of a permuting scan: options first, operands behind them, and optind at the first operand. */
    ghost predicate Finished()
      reads this, argv
    {
      && given != [] && ordering.Permute?
      && var whole := Whole(cfg, given);
        argv[..] == whole.options + whole.operands && optind == |whole.options| && reports == whole.reports
    }

    /** In the other orders, what has been reported together with what remains is the course of the whole scan. */
    ghost predicate InStep()
      reads `given, `optind, `nextchar, `reports
    {
      && given != [] && 1 <= optind <= |given|
      && (nextchar != "" ==> optind < |given| && !NonOption(given[optind]))
      && var stop := ordering.RequireOrder?;
        Along(reports, optind, RemainingInPlace(cfg, stop, given[optind..], nextchar)) == WholeInPlace(cfg, stop, given)
    }

    /** In the other orders, the state of a scan that has stopped: the vector is as it was given, and optind at what has
        not been read. */
    ghost predicate Stopped()
      reads this, argv
    {
      && given != [] && !ordering.Permute? && argv[..] == given && 1 <= optind <= argv.Length
      && Course(reports, optind) == WholeInPlace(cfg, ordering.RequireOrder?, given)
    }

    /** getopt.c exchange: the options behind the skipped operands come before them. */
    method ExchangeOperands()
      requires ordering.Permute? && Placed(argv[..], given, first, last, optind, options, operands)
      requires argv.Length == |given|
      modifies argv, `first, `last
      ensures Placed(argv[..], given, first, optind, optind, options, operands) && last == optind
      ensures first == old(first) + (optind - old(last))
    {
      ExchangePlaced(argv[..], given, first, last, optind, options, operands);
      ExchangeBlocks(argv, first, last, optind);
      first := first + (optind - last);
      last := optind;
    }

    /** Brings the options read so far to the front. */
    method GatherOptions()
      requires ordering.Permute? && argv.Length == |given|
      requires Placed(argv[..], given, first, last, optind, options, operands)
      modifies argv, `first, `last
      ensures 1 <= first <= optind <= argv.Length
      ensures Placed(argv[..], given, first, optind, optind, options, operands)
    {
      if first != last && last != optind {
        ExchangeOperands();
      } else if last != optind {
        NoOperandsPlaced(argv[..], given, first, last, optind, options, operands);
        first := optind;
      }
    }

    /** Skips operands, extending the range of those skipped before. */
    method SkipOperands(ghost goal: Split)
      requires 1 <= first <= optind <= argv.Length == |given|
      requires Placed(argv[..], given, first, optind, optind, options, operands)
      requires Joined(options, operands, reports, Partition(cfg, given[optind..])) == goal
      modifies `last, `optind, `operands
      ensures first <= last == optind <= argv.Length
      ensures Placed(argv[..], given, first, optind, optind, options, operands)
      ensures Joined(options, operands, reports, Partition(cfg, given[optind..])) == goal
      ensures optind < argv.Length ==> !NonOption(argv[optind])
    {
      hide Placed, Partition, Joined;
      while optind < argv.Length && NonOption(argv[optind])
        invariant first <= optind <= argv.Length
        invariant Placed(argv[..], given, first, optind, optind, options, operands)
        invariant Joined(options, operands, reports, Partition(cfg, given[optind..])) == goal
      {
        OperandPlaced(argv[..], given, first, optind, options, operands);
        assert given[optind..][0] == given[optind] && given[optind..][1..] == given[optind + 1..];
        JoinOperand(cfg, options, operands, reports, given[optind..]);
        operands := operands + [given[optind]];
        optind := optind + 1;
      }
      last := optind;
    }

    /** Takes "--" like an option and exchanges it with the operands skipped before it. */
    method TakeDashes()
      requires ordering.Permute? && argv.Length == |given| && last == optind < argv.Length
      requires Placed(argv[..], given, first, last, optind, options, operands) && given[optind] == "--"
      modifies argv, `first, `last, `optind, `options
      ensures optind == old(optind) + 1 <= argv.Length && options == old(options) + ["--"]
      ensures Placed(argv[..], given, first, optind, optind, options, operands)
    {
      assert given[optind..optind + 1] == ["--"];
      OptionsPlaced(argv[..], given, first, last, optind, options, operands, 1);
      options := options + ["--"];
      optind := optind + 1;
      if first != last && last != optind {
        ExchangeOperands();
      } else if first == last {
        NoOperandsPlaced(argv[..], given, first, last, optind, options, operands);
        first := optind;
      }
    }

    /** Stops the scan, with everything from optind on taken as operands, and lets optind point at the operands. */
    method Stop()
      requires ordering.Permute? && given != [] && argv.Length == |given| && 1 <= first <= optind <= argv.Length
      requires Placed(argv[..], given, first, optind, optind, options, operands)
      requires Split(options, operands + given[optind..], reports) == Whole(cfg, given)
      modifies `last, `optind, `finished
      ensures Finished() && finished
    {
      hide Placed, Whole;
      EverythingPlaced(argv[..], given, first, optind, options, operands);
      last := argv.Length;
      optind := argv.Length;
      if first != last {
        optind := first;
      }
      finished := true;
    }

    /** The premature end of a permuting scan: "--" is exchanged like an option, and everything behind it is an
        operand. */
    method EndAtDashes()
      requires Valid() && ordering.Permute? && nextchar == "" && last == optind < argv.Length && argv[optind] == "--"
      modifies argv, `first, `last, `optind, `options, `finished
      ensures Finished() && finished
    {
      hide Partition, Joined, Whole;
      assert argv[optind] == argv[optind..][0] == given[optind..][0];
      JoinDashes(cfg, options, operands, reports, given[optind..]);
      assert given[optind..][1..] == given[optind + 1..];
      TakeDashes();
      Stop();
    }

    /** The end of the vector in a permuting scan. */
    method EndOfVector()
      requires Valid() && ordering.Permute? && nextchar == "" && last == optind == argv.Length
      modifies `last, `optind, `finished
      ensures Finished() && finished
    {
      assert given[optind..] == [];
      Stop();
    }

    /** Advances a permuting scan to its next option element.  The source first moves `first` and `last` back if the
        caller has lowered optind below them, which a caller that leaves optind alone never does. */
    method NextElement() returns (found: bool)
      requires Valid() && ordering.Permute? && nextchar == "" && !finished
      modifies argv, `first, `last, `optind, `options, `operands, `nextchar, `finished
      ensures found ==> Valid() && nextchar != "" && !finished
      ensures !found ==> Finished() && finished
    {
      hide Partition, Joined, Whole;
      GatherOptions();
      SkipOperands(Whole(cfg, given));
      if optind != argv.Length && argv[optind] == "--" {
        EndAtDashes();
        return false;
      }
      if optind == argv.Length {
        EndOfVector();
        return false;
      }
      nextchar := Start(cfg, argv[optind]);
      assert argv[optind] == argv[..][optind..][0] == given[optind..][0];
      ElementStarts(cfg, given[optind..]);
      found := true;
    }

    ghost function Following(): Option<string>
      reads this, argv
    {
      if 0 <= optind && optind + 1 < argv.Length then Some(argv[optind + 1]) else None
    }

    /** The fields after a call that decodes as d from optind `start`. */
    ghost predicate Shows(d: Step, ret: int, start: int)
      reads this
    {
      && ret == d.ret && optarg == d.optarg && nextchar == d.rest && optind == start + d.advance
      && (d.optopt.Some? ==> optopt == d.optopt.value) && (d.longind.Some? ==> longind == d.longind)
    }

    /** Reads the next character of a cluster of short options. */
    method ReadShort() returns (ret: int)
      requires 1 <= optind < argv.Length && nextchar != "" && optarg == None && NoLongByW(cfg.shorts)
      modifies `optind, `optopt, `optarg, `nextchar
      ensures Shows(DecodeShort(cfg, old(nextchar), old(Following())), ret, old(optind))
    {
      var c := nextchar[0];
      nextchar := nextchar[1..];
      var temp := From(cfg.shorts, c);
      if nextchar == "" {
        optind := optind + 1;
      }
      if temp == "" || c == ':' || c == ';' {
        optopt := c as int;
        return '?' as int;
      }
      ret := c as int;
      if |temp| > 1 && temp[1] == ':' {
        if |temp| > 2 && temp[2] == ':' {
          if nextchar != "" {
            optarg := Some(nextchar);
            optind := optind + 1;
          } else {
            optarg := None;
          }
        } else if nextchar != "" {
          optarg := Some(nextchar);
          optind := optind + 1;
        } else if optind == argv.Length {
          optopt := c as int;
          ret := MissingArgument(cfg);
        } else {
          optarg := Some(argv[optind]);
          optind := optind + 1;
        }
        nextchar := "";
      }
    }

    /** Reads the element as a long option, if that is what it is. */
    method ReadLong() returns (handled: bool, ret: int)
      requires 1 <= optind < argv.Length && |argv[optind]| >= 2 && nextchar != "" && optarg == None && cfg.longs.Some?
      modifies `optind, `optopt, `optarg, `nextchar, `longind
      ensures var d := DecodeLong(cfg, argv[old(optind)], old(nextchar), old(Following()));
        handled == d.Some? && if handled then Shows(d.value, ret, old(optind)) else unchanged(this)
    {
      var nameend := 0;
      while nameend < |nextchar| && nextchar[nameend] != '='
        invariant 0 <= nameend <= |nextchar| && '=' !in nextchar[..nameend]
      {
        nameend := nameend + 1;
      }
      NameEndIsFirst(nextchar, nameend);
      handled, ret := true, '?' as int;
      LookupKeepsPromise(cfg.longs.value, nextchar[..nameend], cfg.longOnly);
      var choice := FindLong(cfg.longs.value, nextchar[..nameend], cfg.longOnly, mallocs);
      match choice {
        case Ambiguous =>
          nextchar := "";
          optind := optind + 1;
          optopt := 0;
        case Unique(index) =>
          ret := TakeLong(cfg.longs.value[index], index, nameend);
        case Unknown =>
          if !cfg.longOnly || argv[optind][1] == '-' || nextchar[0] !in cfg.shorts {
            nextchar := "";
            optind := optind + 1;
            optopt := 0;
          } else {
            handled := false;
          }
      }
    }

    /** A long option has been found: take its argument and report it. */
    method TakeLong(found: LongOption, index: nat, nameend: nat) returns (ret: int)
      requires 1 <= optind < argv.Length && nextchar != "" && optarg == None && nameend == NameEnd(nextchar)
      modifies `optind, `optopt, `optarg, `nextchar, `longind
      ensures Shows(LongFound(cfg, found, index, old(nextchar), old(Following())), ret, old(optind))
    {
      optind := optind + 1;
      if nameend < |nextchar| {
        if found.hasArg != 0 {
          optarg := Some(nextchar[nameend + 1..]);
        } else {
          nextchar := "";
          optopt := found.val;
          return '?' as int;
        }
      } else if found.hasArg == 1 {
        if optind < argv.Length {
          optarg := Some(argv[optind]);
          optind := optind + 1;
        } else {
          nextchar := "";
          optopt := found.val;
          return MissingArgument(cfg);
        }
      }
      nextchar := "";
      longind := Some(index);
      ret := if found.flag.Some? then 0 else found.val;
    }

    static lemma {:induction false} NameEndIsFirst(s: string, n: nat)
      requires n <= |s| && '=' !in s[..n] && (n < |s| ==> s[n] == '=')
      ensures NameEnd(s) == n
    {
    }

    /** Decodes one option of the current element. */
    method ReadOption() returns (ret: int)
      requires 1 <= optind < argv.Length && |argv[optind]| >= 2 && nextchar != "" && NoLongByW(cfg.shorts)
      modifies `optind, `optopt, `optarg, `nextchar, `longind
      ensures Shows(Decode(cfg, argv[old(optind)], old(nextchar), old(Following())), ret, old(optind))
      ensures Distinguishable(cfg) ==> ret != -1
    {
      if Distinguishable(cfg) {
        OptionIsNotTheEnd(cfg, argv[optind], nextchar, Following());
      }
      optarg := None;
      if TryLong(cfg, argv[optind]) {
        var handled;
        handled, ret := ReadLong();
        if handled {
          return;
        }
      }
      ret := ReadShort();
    }

    /** What is read next is the vector as given. */
    lemma ReadsAsGiven()
      requires 0 <= optind < argv.Length == |given| && argv[optind..] == given[optind..]
      ensures argv[optind] == given[optind] && Following() == Second(given[optind..])
    {
      assert argv[optind] == argv[optind..][0];
      assert optind + 1 < argv.Length ==> argv[optind + 1] == argv[optind..][1];
    }

    /** A call in a permuting scan that is in the middle of an element. */
    method ReadPermuted() returns (ret: int)
      requires Valid() && ordering.Permute? && nextchar != ""
      modifies `optind, `optopt, `optarg, `nextchar, `longind, `options, `reports
      ensures Valid() && reports == old(reports) + [Report(ret, optarg)]
      ensures Distinguishable(cfg) ==> ret != -1
    {
      hide Partition, Resume, Decode, Distinguishable, Placed, Joined;
      ReadsAsGiven();
      StepPermuted(cfg, argv[..], given, first, last, optind, options, operands, reports, nextchar);
      ret := ReadOption();
      options := options + given[old(optind)..optind];
      reports := reports + [Report(ret, optarg)];
    }

    /** A call in one of the orders that do not permute. */
    method NextInPlace() returns (ret: int)
      requires Valid() && !ordering.Permute? && !finished
      modifies `optind, `optopt, `optarg, `nextchar, `longind, `first, `last, `reports, `finished
      ensures if finished then ret == -1 && Stopped() else Valid() && (Distinguishable(cfg) ==> ret != -1)
      ensures reports == old(reports) + if finished then [] else [Report(ret, optarg)]
    {
      hide Distinguishable, InStep, Placed, Partition, Resume;
      optarg := None;
      if nextchar == "" {
        var found;
        found, ret := AdvanceInPlace();
        if !found {
          return;
        }
      }
      ret := ReadInStep();
    }

    /** Advances a scan in place to its next option element, unless it stops or has an operand to report. */
    method AdvanceInPlace() returns (found: bool, ret: int)
      requires Valid() && !ordering.Permute? && !finished && nextchar == ""
      modifies `optind, `optarg, `nextchar, `first, `last, `reports, `finished
      ensures found ==> Valid() && nextchar != "" && !finished && reports == old(reports)
      ensures !found ==> if finished then ret == -1 && Stopped() else Valid() && ret == 1
      ensures !found ==> reports == old(reports) + if finished then [] else [Report(ret, optarg)]
    {
      hide ReadInPlace, ResumeInPlace, Placed, Partition, Resume, Along;
      ghost var args, stop := given[optind..], ordering.RequireOrder?;
      InPlaceCases(cfg, stop, args, reports, optind);
      assert args != [] ==> args[0] == argv[optind] && args[1..] == given[optind + 1..];
      if optind != argv.Length && argv[optind] == "--" {
        optind := optind + 1;
        first, last := optind, argv.Length;
        optind := argv.Length;
      }
      if optind == argv.Length {
        if first != last {
          optind := first;
        }
        finished := true;
        return false, -1;
      }
      if NonOption(argv[optind]) {
        if ordering == RequireOrder {
          finished := true;
          return false, -1;
        }
        optarg := Some(argv[optind]);
        optind := optind + 1;
        reports := reports + [Report(1, optarg)];
        return false, 1;
      }
      nextchar := Start(cfg, argv[optind]);
      return true, 0;
    }

    /** A call in place that is in the middle of an element. */
    method ReadInStep() returns (ret: int)
      requires Valid() && !ordering.Permute? && nextchar != ""
      modifies `optind, `optopt, `optarg, `nextchar, `longind, `reports
      ensures Valid() && reports == old(reports) + [Report(ret, optarg)]
      ensures Distinguishable(cfg) ==> ret != -1
    {
      hide Partition, Resume, Decode, Distinguishable, Along, RemainingInPlace;
      ReadsAsGiven();
      StepInPlace(cfg, ordering.RequireOrder?, given, optind, nextchar, reports);
      ret := ReadOption();
      reports := reports + [Report(ret, optarg)];
    }

    /** src/gnu/getopt.c _getopt_internal_r, after initialization. */
    method Next() returns (ret: int)
      requires Valid() && !finished
      modifies argv, `optind, `optopt, `optarg, `nextchar, `longind, `first, `last
      modifies `options, `operands, `reports, `finished
      ensures finished ==> ret == -1 && (if ordering.Permute? then Finished() else Stopped())
      ensures !finished ==> Valid() && (Distinguishable(cfg) ==> ret != -1)
      ensures reports == old(reports) + if finished then [] else [Report(ret, optarg)]
      ensures !ordering.Permute? ==> argv[..] == old(argv[..])
    {
      hide Placed, Partition, Resume, Distinguishable;
      if !ordering.Permute? {
        ret := NextInPlace();
        return;
      }
      if nextchar == "" {
        var found := NextElement();
        if !found {
          return -1;
        }
      }
      ret := ReadPermuted();
    }

    /** What reading the whole vector as given reports. */
    ghost function AllReports(): seq<Report>
      reads `given
    {
      if given == [] then []
      else if ordering.Permute? then Whole(cfg, given).reports
      else WholeInPlace(cfg, ordering.RequireOrder?, given).reports
    }

    lemma ReportsArePrefix()
      requires Valid()
      ensures reports <= AllReports()
    {
      hide Placed, Partition, Resume, ReadInPlace, ResumeInPlace;
    }

    /** Calls the scanner until it returns -1. A permuted vector is then a stable partition of the one given, options
        with their arguments before operands; in the other orders it is untouched and optind is where the scan stopped.
        The calls have reported what reading the vector as given reports. A caller that gave a long option without a
        flag the value -1 stops at that option instead. */
    method ScanAll() returns (calls: seq<Report>)
      requires Valid() && !finished && reports == []
      modifies this, argv
      ensures given == old(given) && calls == AllReports()[..BeforeEnd(AllReports())]
      ensures finished <==> BeforeEnd(AllReports()) == |AllReports()|
      ensures Distinguishable(cfg) ==> finished
      ensures finished && ordering.Permute? ==>
        var whole := Whole(cfg, given);
        argv[..] == whole.options + whole.operands && optind == |whole.options| && calls == whole.reports
      ensures finished && !ordering.Permute? ==>
        argv[..] == given && optind > 0 && Course(calls, optind) == WholeInPlace(cfg, ordering.RequireOrder?, given)
      ensures !finished ==> Valid()
    {
      hide Placed, Partition, Resume, ReadInPlace, ResumeInPlace, Distinguishable, InStep;
      calls := [];
      ReportsArePrefix();
      while true
        invariant Valid() && !finished && given == old(given) && calls == reports <= AllReports()
        invariant forall j :: 0 <= j < |calls| ==> calls[j].ret != -1
        decreases |AllReports()| - |calls|
      {
        var ret := Next();
        if !finished {
          ReportsArePrefix();
          assert reports[|calls|] == Report(ret, optarg);
        }
        if ret == -1 {
          if finished {
            EndsAll(AllReports(), calls);
          } else {
            EndsAt(AllReports(), calls);
          }
          return;
        }
        calls := calls + [Report(ret, optarg)];
      }
    }
  }

  /** A caller that stops at a -1 has seen what comes before the first one. */
  lemma {:induction false} EndsAt(all: seq<Report>, calls: seq<Report>)
    requires calls <= all && |calls| < |all| && all[|calls|].ret == -1
    requires forall j :: 0 <= j < |calls| ==> calls[j].ret != -1
    ensures BeforeEnd(all) == |calls| && calls == all[..|calls|]
  {
    assert forall j :: 0 <= j < |calls| ==> all[j] == calls[j];
  }

  lemma EndsAll(all: seq<Report>, calls: seq<Report>)
    requires calls == all && forall j :: 0 <= j < |calls| ==> calls[j].ret != -1
    ensures BeforeEnd(all) == |all| && calls == all[..|all|]
  {
  }

  /** A whole run of a caller that leaves optind alone, an empty vector included: it ends at once. A leading minus of
      the option string asks for operands to be reported in order, a leading plus or else POSIXLY_CORRECT for the scan
      to stop at the first one; without them the vector is permuted. */
  method ScanVector(argv: array<string>, optstring: string, longs: Option<seq<LongOption>>, longOnly: bool,
                    posixlyCorrect: bool, mallocs: seq<bool>) returns (calls: seq<Report>, stop: int)
    requires NoLongByW(ShortsOf(optstring))
    modifies argv
    ensures argv.Length == 0 ==> calls == [] && stop == 0
    ensures argv.Length > 0 ==>
      var minus, plus := optstring != "" && optstring[0] == '-', optstring != "" && optstring[0] == '+';
      var cfg := Config(if minus || plus then optstring[1..] else optstring, longs, longOnly);
      if !minus && !plus && !posixlyCorrect then
        var whole := Whole(cfg, old(argv[..]));
        var k := BeforeEnd(whole.reports);
        && calls == whole.reports[..k]
        && (k == |whole.reports| ==> argv[..] == whole.options + whole.operands && stop == |whole.options|)
      else
        var whole := WholeInPlace(cfg, !minus, old(argv[..]));
        var k := BeforeEnd(whole.reports);
        calls == whole.reports[..k] && argv[..] == old(argv[..]) && (k == |whole.reports| ==> stop == whole.taken)
    ensures argv.Length > 0 && Distinguishable(Config(ShortsOf(optstring), longs, longOnly)) ==>
      var minus, plus := optstring != "" && optstring[0] == '-', optstring != "" && optstring[0] == '+';
      var cfg := Config(if minus || plus then optstring[1..] else optstring, longs, longOnly);
      calls == if !minus && !plus && !posixlyCorrect then Whole(cfg, old(argv[..])).reports
        else WholeInPlace(cfg, !minus, old(argv[..])).reports
  {
    hide Partition, ReadInPlace, Distinguishable;
    calls, stop := [], 0;
    if argv.Length < 1 {
      return;
    }
    var scanner := new Scanner(argv, optstring, longs, longOnly, posixlyCorrect, mallocs);
    calls := scanner.ScanAll();
    stop := scanner.optind;
  }
}
