/** What the elements of an argument vector mean to getopt (src/gnu/getopt.c), said of their text: operands, the double
    dash, long options with and without an argument, and clusters of short options. These rules fix every report of a
    scan. */
module GetoptMeaning {
  import opened GetoptSpec

  /** Reading the first element, and the next one if it is taken as an argument, makes one report and goes on behind
      them, in a permuting scan as well as in place. */
  ghost predicate ReadsAs(cfg: Config, args: seq<string>, report: Report, k: nat)
    requires k <= |args|
  {
    var rest := Partition(cfg, args[k..]);
    && Partition(cfg, args) == Split(args[..k] + rest.options, rest.operands, [report] + rest.reports)
    && forall stop :: ReadInPlace(cfg, stop, args) == Along([report], k, ReadInPlace(cfg, stop, args[k..]))
  }

  /** The same for the rest of a cluster. */
  ghost predicate ClusterReadsAs(cfg: Config, args: seq<string>, rest: string, report: Report, k: nat)
    requires args != [] && |args[0]| >= 2 && rest != "" && k <= |args|
  {
    var behind := Partition(cfg, args[k..]);
    && Resume(cfg, args, rest) == Split(args[..k] + behind.options, behind.operands, [report] + behind.reports)
    && forall stop :: ResumeInPlace(cfg, stop, args, rest) == Along([report], k, ReadInPlace(cfg, stop, args[k..]))
  }

  /** The call that reads this text sets optopt and the index of the long option so, or leaves them alone. */
  ghost predicate Sets(cfg: Config, args: seq<string>, rest: string, optopt: Option<int>, longind: Option<nat>)
    requires args != [] && |args[0]| >= 2 && rest != ""
  {
    var d := Decode(cfg, args[0], rest, Second(args));
    d.optopt == optopt && d.longind == longind
  }

  /** One option of a cluster is reported, and the cluster goes on with the tail. */
  ghost predicate ClusterGoesOn(cfg: Config, args: seq<string>, rest: string, report: Report, tail: string)
    requires args != [] && |args[0]| >= 2 && rest != "" && tail != ""
  {
    && Resume(cfg, args, rest).options == Resume(cfg, args, tail).options
    && Resume(cfg, args, rest).operands == Resume(cfg, args, tail).operands
    && Resume(cfg, args, rest).reports == [report] + Resume(cfg, args, tail).reports
    && forall stop :: ResumeInPlace(cfg, stop, args, rest) == Along([report], 0, ResumeInPlace(cfg, stop, args, tail))
  }

  // ---------------------------------------------------------------- operands and the double dash

  /** What does not start with a dash, and a dash alone, is an operand. */
  lemma OperandMeans(cfg: Config, args: seq<string>)
    requires args != [] && (args[0] == "" || args[0] == "-" || args[0][0] != '-')
    ensures var rest := Partition(cfg, args[1..]);
      Partition(cfg, args) == Split(rest.options, [args[0]] + rest.operands, rest.reports)
    ensures ReadInPlace(cfg, true, args) == Course([], 0)
    ensures ReadInPlace(cfg, false, args) == Along([Report(1, Some(args[0]))], 1, ReadInPlace(cfg, false, args[1..]))
  {
  }

  /** A double dash is taken like an option, and ends the scan. */
  lemma DashesMean(cfg: Config, args: seq<string>, stop: bool)
    requires args != [] && args[0] == "--"
    ensures Partition(cfg, args) == Split(["--"], args[1..], []) && ReadInPlace(cfg, stop, args) == Course([], 1)
  {
  }

  /** Everything else is an option element, read behind its dash, or behind two if there are long options. */
  lemma OptionMeans(cfg: Config, args: seq<string>, stop: bool)
    requires args != [] && |args[0]| >= 2 && args[0][0] == '-' && args[0] != "--"
    ensures var rest := if cfg.longs.Some? && args[0][1] == '-' then args[0][2..] else args[0][1..];
      rest != "" && Partition(cfg, args) == Resume(cfg, args, rest)
      && ReadInPlace(cfg, stop, args) == ResumeInPlace(cfg, stop, args, rest)
  {
  }

  /** A step that ends its element. */
  lemma StepReads(cfg: Config, args: seq<string>, rest: string, d: Step)
    requires args != [] && |args[0]| >= 2 && rest != "" && d == Decode(cfg, args[0], rest, Second(args))
    requires d.advance > 0
    ensures d.advance <= |args| && ClusterReadsAs(cfg, args, rest, Report(d.ret, d.optarg), d.advance)
  {
  }

  // ---------------------------------------------------------------- long options

  /** The promise of the lookup decides it. */
  lemma PromiseDecides(opts: seq<LongOption>, name: string, longOnly: bool, c: Choice)
    requires Promised(opts, name, longOnly, c)
    ensures c == Choose(opts, name, longOnly)
  {
    var e, f := FirstExact(opts, name, 0), FirstPrefix(opts, name, 0);
    match c
    case Unique(i) =>
      if opts[i].name == name {
        assert e == i;
      } else {
        assert e == |opts| && f == i;
      }
    case Ambiguous =>
      var i, j :| 0 <= i < j < |opts| && name <= opts[i].name && name <= opts[j].name
        && (longOnly || !Agree(opts[i], opts[j]));
      assert e == |opts| && f <= i;
      assert Clashes(opts, name, longOnly, f, i) || Clashes(opts, name, longOnly, f, j);
    case Unknown =>
  }

  /** Options agree when they differ in nothing but the name. */
  lemma AgreeMeans(p: LongOption, q: LongOption)
    ensures Agree(p, q) <==> p.(name := q.name) == q
  {
  }

  /** The element is read as a long option: it has two dashes or, in long-only mode, one, unless it is one character
      that is a short option. */
  predicate LongElement(cfg: Config, elem: string) {
    && cfg.longs.Some? && |elem| >= 2 && elem[0] == '-' && elem != "--"
    && (elem[1] == '-' || (cfg.longOnly && (|elem| > 2 || elem[1] !in cfg.shorts)))
  }

  /** The element is dashes, a name and perhaps an argument behind an equals sign. */
  predicate Spells(elem: string, name: string, arg: Option<string>) {
    && |elem| >= 2 && '=' !in name
    && elem == (if elem[1] == '-' then "--" else "-") + name + (if arg.Some? then "=" + arg.value else "")
  }

  lemma NameEndIs(s: string, name: string, arg: Option<string>)
    requires '=' !in name && s == name + (if arg.Some? then "=" + arg.value else "")
    ensures NameEnd(s) == |name| && s[..|name|] == name && (arg.Some? ==> |name| < |s| && s[|name| + 1..] == arg.value)
    ensures arg.None? ==> s == name
  {
    var n := NameEnd(s);
    assert forall k :: 0 <= k < |name| ==> s[k] == name[k] && name[k] in name;
    assert arg.Some? ==> s[|name|] == '=';
  }

  lemma SpelledRest(elem: string, name: string, arg: Option<string>)
    requires Spells(elem, name, arg) && elem[0] == '-'
    ensures (if elem[1] == '-' then elem[2..] else elem[1..]) == name + (if arg.Some? then "=" + arg.value else "")
  {
  }

  /** What a long option reports: its value, or 0 if it has a flag, with the argument behind the equals sign or, if it
      requires one and has none there, the next element. */
  function LongReport(cfg: Config, o: LongOption, arg: Option<string>, next: Option<string>): (Report, nat) {
    var value := if o.flag.Some? then 0 else o.val;
    if arg.Some? then (if o.hasArg == 0 then Report('?' as int, None) else Report(value, arg), 1)
    else if o.hasArg != 1 then (Report(value, None), 1)
    else if next.Some? then (Report(value, next), 2)
    else (Report(if cfg.shorts != "" && cfg.shorts[0] == ':' then ':' as int else '?' as int, None), 1)
  }

  /** A long option that the name selects. */
  lemma LongMeans(cfg: Config, args: seq<string>, name: string, arg: Option<string>, i: nat)
    requires args != [] && LongElement(cfg, args[0]) && Spells(args[0], name, arg)
    requires Promised(cfg.longs.value, name, cfg.longOnly, Unique(i))
    ensures var next := if |args| > 1 then Some(args[1]) else None;
      var (report, k) := LongReport(cfg, cfg.longs.value[i], arg, next);
      k <= |args| && ReadsAs(cfg, args, report, k)
    ensures var rest := name + (if arg.Some? then "=" + arg.value else "");
      var o := cfg.longs.value[i];
      var wrong := if arg.Some? then o.hasArg == 0 else o.hasArg == 1 && |args| == 1;
      rest != "" && Sets(cfg, args, rest, if wrong then Some(o.val) else None, if wrong then None else Some(i))
  {
    hide Partition, ReadInPlace, Resume, ResumeInPlace, Choose, Promised, ReadsAs, Decode;
    var rest := if args[0][1] == '-' then args[0][2..] else args[0][1..];
    SpelledRest(args[0], name, arg);
    LongDecodes(cfg, args[0], rest, name, arg, i, Second(args));
    ElementReads(cfg, args, rest, Decode(cfg, args[0], rest, Second(args)));
  }

  lemma LongDecodes(
    cfg: Config, elem: string, rest: string, name: string, arg: Option<string>, i: nat, next: Option<string>)
    requires LongElement(cfg, elem) && Promised(cfg.longs.value, name, cfg.longOnly, Unique(i))
    requires '=' !in name && rest == name + (if arg.Some? then "=" + arg.value else "") && rest != ""
    ensures var d := Decode(cfg, elem, rest, next);
      var (report, k) := LongReport(cfg, cfg.longs.value[i], arg, next);
      Report(d.ret, d.optarg) == report && d.advance == k
    ensures var d, o := Decode(cfg, elem, rest, next), cfg.longs.value[i];
      var wrong := if arg.Some? then o.hasArg == 0 else o.hasArg == 1 && next.None?;
      d.optopt == (if wrong then Some(o.val) else None) && d.longind == if wrong then None else Some(i)
  {
    NameEndIs(rest, name, arg);
    PromiseDecides(cfg.longs.value, name, cfg.longOnly, Unique(i));
    hide Choose, Promised, DecodeShort;
  }

  /** An element that is decoded in one step. */
  lemma ElementReads(cfg: Config, args: seq<string>, rest: string, d: Step)
    requires args != [] && |args[0]| >= 2 && args[0][0] == '-' && args[0] != "--"
    requires rest == if cfg.longs.Some? && args[0][1] == '-' then args[0][2..] else args[0][1..]
    requires rest != "" && d == Decode(cfg, args[0], rest, Second(args)) && d.advance > 0
    ensures d.advance <= |args| && ReadsAs(cfg, args, Report(d.ret, d.optarg), d.advance)
  {
    hide Partition, ReadInPlace, Resume, ResumeInPlace, Decode;
    StepReads(cfg, args, rest, d);
    OptionMeans(cfg, args, true);
    OptionMeans(cfg, args, false);
  }

  /** A name that could mean several options, or none, is an error; in long-only mode, one that is none and starts with
      a short option is read as a cluster instead. */
  lemma NoLongMeans(cfg: Config, args: seq<string>, name: string, arg: Option<string>, c: Choice)
    requires args != [] && LongElement(cfg, args[0]) && Spells(args[0], name, arg)
    requires Promised(cfg.longs.value, name, cfg.longOnly, c) && !c.Unique?
    requires c.Unknown? ==> args[0][1] == '-' || !cfg.longOnly || args[0][1] !in cfg.shorts
    ensures ReadsAs(cfg, args, Report('?' as int, None), 1)
    ensures var rest := name + (if arg.Some? then "=" + arg.value else "");
      rest != "" && Sets(cfg, args, rest, Some(0), None)
  {
    var rest := if args[0][1] == '-' then args[0][2..] else args[0][1..];
    SpelledRest(args[0], name, arg);
    NameEndIs(rest, name, arg);
    PromiseDecides(cfg.longs.value, name, cfg.longOnly, c);
    hide Partition, ReadInPlace, Resume, ResumeInPlace, Choose, ReadsAs;
    ElementReads(cfg, args, rest, Decode(cfg, args[0], rest, Second(args)));
  }

  // ---------------------------------------------------------------- short options

  /** The rest of the element is read as short options: it is no long element, or in long-only mode its name is none. */
  ghost predicate ShortElement(cfg: Config, elem: string, rest: string) {
    && |elem| >= 2 && rest != ""
    && (LongElement(cfg, elem) ==>
      && elem[1] != '-' && rest[0] in cfg.shorts
      && Promised(cfg.longs.value, rest[..NameEnd(rest)], cfg.longOnly, Unknown))
  }

  /** The option string lists the character with these marks behind it. */
  ghost predicate Lists(shorts: string, c: char, marks: string) {
    && c != ':' && c != ';' && (marks == "" || marks == ":" || marks == "::")
    && exists i :: 0 <= i < |shorts| && shorts[i] == c && c !in shorts[..i] && Marked(shorts[i + 1..], marks)
  }

  /** The text starts with the marks; what follows is no further mark. */
  predicate Marked(t: string, marks: string) {
    marks <= t && (|marks| < 2 ==> |t| == |marks| || t[|marks|] != ':')
  }

  lemma {:induction false} FromAt(shorts: string, c: char, i: nat)
    requires i < |shorts| && shorts[i] == c && c !in shorts[..i]
    ensures From(shorts, c) == shorts[i..]
  {
    if i > 0 {
      assert shorts[0] in shorts[..i];
      assert forall d :: d in shorts[1..][..i - 1] ==> d in shorts[..i];
      FromAt(shorts[1..], c, i - 1);
      assert shorts[1..][i - 1..] == shorts[i..];
    }
  }

  lemma ListsMeans(cfg: Config, c: char, marks: string)
    requires Lists(cfg.shorts, c, marks)
    ensures ArityOf(cfg, c) == if marks == "" then NoArgument else if marks == ":" then Required else Optionally
  {
    var i :| 0 <= i < |cfg.shorts| && cfg.shorts[i] == c && c !in cfg.shorts[..i] && Marked(cfg.shorts[i + 1..], marks);
    hide From, Marked;
    FromAt(cfg.shorts, c, i);
    assert cfg.shorts[i..][1..] == cfg.shorts[i + 1..];
    MarksMean(cfg.shorts[i..], marks);
  }

  lemma {:induction false} FirstIndex(s: string, c: char) returns (i: nat)
    requires c in s
    ensures i < |s| && s[i] == c && c !in s[..i]
  {
    i := 0;
    while s[i] != c
      invariant i < |s| && c !in s[..i] && exists j :: i <= j < |s| && s[j] == c
      decreases |s| - i
    {
      assert s[..i + 1] == s[..i] + [s[i]];
      i := i + 1;
    }
  }

  /** And the other way round: every short option is listed with the marks for its argument. */
  lemma ArityLists(cfg: Config, c: char)
    requires ArityOf(cfg, c) != NotAnOption
    ensures Lists(cfg.shorts, c,
      match ArityOf(cfg, c) case Required => ":" case Optionally => "::" case _ => "")
  {
    var marks := match ArityOf(cfg, c) case Required => ":" case Optionally => "::" case _ => "";
    var i := FirstIndex(cfg.shorts, c);
    FromAt(cfg.shorts, c, i);
    var t, u := cfg.shorts[i..], cfg.shorts[i + 1..];
    assert |u| > 0 ==> u[0] == t[1];
    assert |u| > 1 ==> u[1] == t[2];
    assert Marked(u, marks);
  }

  lemma MarksMean(t: string, marks: string)
    requires t != "" && Marked(t[1..], marks) && (marks == "" || marks == ":" || marks == "::")
    ensures (|t| < 2 || t[1] != ':') <==> marks == ""
    ensures (|t| < 3 || t[1] != ':' || t[2] != ':') <==> marks == "" || marks == ":"
  {
    var u := t[1..];
    assert |u| > 0 ==> u[0] == t[1];
    assert |u| > 1 ==> u[1] == t[2];
  }

  lemma ShortDecodes(cfg: Config, elem: string, rest: string, next: Option<string>)
    requires ShortElement(cfg, elem, rest) && (elem[0] == '-' && elem != "--")
    ensures Decode(cfg, elem, rest, next) == DecodeShort(cfg, rest, next)
  {
    if TryLong(cfg, elem) {
      PromiseDecides(cfg.longs.value, rest[..NameEnd(rest)], cfg.longOnly, Unknown);
    }
  }

  /** A short option without an argument is reported, and the cluster goes on behind it. A character that is none is
      reported as an error in its place. */
  lemma PlainShortMeans(cfg: Config, args: seq<string>, c: char, tail: string)
    requires args != [] && ShortElement(cfg, args[0], [c] + tail) && args[0][0] == '-' && args[0] != "--"
    requires c == ':' || c == ';' || c !in cfg.shorts || Lists(cfg.shorts, c, "")
    ensures var known := c != ':' && c != ';' && c in cfg.shorts;
      var report := Report(if known then c as int else '?' as int, None);
      if tail == "" then ClusterReadsAs(cfg, args, [c], report, 1)
      else ClusterGoesOn(cfg, args, [c] + tail, report, tail)
    ensures var known := c != ':' && c != ';' && c in cfg.shorts;
      Sets(cfg, args, [c] + tail, if known then None else Some(c as int), None)
  {
    var rest := [c] + tail;
    assert rest[1..] == tail && rest[0] == c;
    ShortDecodes(cfg, args[0], rest, Second(args));
    if c != ':' && c != ';' && c in cfg.shorts {
      ListsMeans(cfg, c, "");
    }
    var d := Decode(cfg, args[0], rest, Second(args));
    if tail == "" {
      assert rest == [c];
      StepReads(cfg, args, rest, d);
    } else {
      GoesOn(cfg, args, rest, d);
    }
  }

  lemma GoesOn(cfg: Config, args: seq<string>, rest: string, d: Step)
    requires args != [] && |args[0]| >= 2 && rest != "" && d == Decode(cfg, args[0], rest, Second(args))
    requires d.advance == 0
    ensures ClusterGoesOn(cfg, args, rest, Report(d.ret, d.optarg), d.rest)
  {
  }

  /** A short option that requires an argument takes the rest of the element, or else the next one; one that may have an
      argument takes the rest of the element if there is any. */
  lemma ArgumentShortMeans(cfg: Config, args: seq<string>, c: char, tail: string, marks: string)
    requires args != [] && ShortElement(cfg, args[0], [c] + tail) && args[0][0] == '-' && args[0] != "--"
    requires Lists(cfg.shorts, c, marks) && marks != ""
    ensures tail != "" ==> ClusterReadsAs(cfg, args, [c] + tail, Report(c as int, Some(tail)), 1)
    ensures tail == "" && marks == "::" ==> ClusterReadsAs(cfg, args, [c], Report(c as int, None), 1)
    ensures tail == "" && marks == ":" && |args| > 1 ==>
      ClusterReadsAs(cfg, args, [c], Report(c as int, Some(args[1])), 2)
    ensures tail == "" && marks == ":" && |args| == 1 ==>
      ClusterReadsAs(cfg, args, [c], Report(if cfg.shorts[0] == ':' then ':' as int else '?' as int, None), 1)
    ensures var missing := tail == "" && marks == ":" && |args| == 1;
      Sets(cfg, args, [c] + tail, if missing then Some(c as int) else None, None)
  {
    var rest := [c] + tail;
    assert rest[1..] == tail && rest[0] == c && (tail == "" ==> rest == [c]);
    ShortDecodes(cfg, args[0], rest, Second(args));
    ListsMeans(cfg, c, marks);
    StepReads(cfg, args, rest, Decode(cfg, args[0], rest, Second(args)));
  }
}
