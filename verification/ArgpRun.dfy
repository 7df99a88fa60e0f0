/** Parsing an argument vector with a tree of option tables: getopt runs over the flattened tables, and every option it
    reports is dispatched to its group (src/gnu/argp-parse.c). */
module ArgpRun {
  import opened GetoptSpec
  import opened ArgpTree
  import opened ArgpParse
  import opened GetoptMeaning
  import Getopt

  /** KEY_ARG and KEY_ERR: what getopt returns for an operand it reports, and for an error. */
  const OPERAND := 1
  const ERROR := '?' as int

  /** The tables that getopt gets. */
  function TableConfig(gs: seq<Argp>, longOnly: bool): Config {
    Config(Text(AllSites(gs)), Some(Longs(AllSites(gs))), longOnly)
  }

  /** The keys that argp can tell apart: short ones that getopt does not reserve, long ones of 24 bits, and few
      groups. */
  ghost predicate Fitting(gs: seq<Argp>) {
    && NoReservedKeys(AllSites(gs)) && |gs| < 128
    && forall i :: 0 <= i < |AllSites(gs)| && Long(AllSites(gs)[i]) ==>
      -(USER / 2) <= KeyOf(AllSites(gs)[i]) < USER / 2
  }

  // ---------------------------------------------------------------- first declarations

  lemma IndexOrder(gs: seq<Argp>, h: nat, bt: nat, g: nat, at: nat)
    requires IsSite(gs, h, bt) && IsSite(gs, g, at) && Earlier(h, bt, g, at)
    ensures NumOptions(gs[..h]) + bt < NumOptions(gs[..g]) + at
  {
    hide NumOptions;
    SiteIndex(gs, h, bt);
    if h < g {
      FewerOptions(gs, h + 1, g);
    }
  }

  /** The first entry to declare a character is its first declaration in the tree. */
  lemma FirstShortIs(gs: seq<Argp>, c: char, i: nat)
    requires i < |AllSites(gs)| && FirstToDeclare(AllSites(gs), c, i)
    ensures var s := AllSites(gs)[i]; FirstShort(gs, c, s.group, s.at)
  {
    hide NumOptions, AllSites, SiteAt, GivesShort, GivesLong, HasKey;
    SiteOrigin(gs, i);
    var s := AllSites(gs)[i];
    SiteMeans(gs, s.group, s.at, c, "");
    forall h: nat, bt: nat | IsSite(gs, h, bt) && Earlier(h, bt, s.group, s.at)
      ensures !GivesShort(Table(gs[h]), bt, c)
    {
      IndexOrder(gs, h, bt, s.group, s.at);
      SiteIndex(gs, h, bt);
      SiteMeans(gs, h, bt, c, "");
    }
  }

  lemma FirstLongIs(gs: seq<Argp>, name: string, i: nat)
    requires i < |AllSites(gs)| && FirstNaming(AllSites(gs), name) == i
    ensures var s := AllSites(gs)[i]; FirstLong(gs, name, s.group, s.at)
  {
    hide NumOptions, AllSites, SiteAt, GivesShort, GivesLong, HasKey;
    SiteOrigin(gs, i);
    var s := AllSites(gs)[i];
    SiteMeans(gs, s.group, s.at, ' ', name);
    forall h: nat, bt: nat | IsSite(gs, h, bt) && Earlier(h, bt, s.group, s.at)
      ensures !GivesLong(Table(gs[h]), bt, name)
    {
      IndexOrder(gs, h, bt, s.group, s.at);
      SiteIndex(gs, h, bt);
      SiteMeans(gs, h, bt, ' ', name);
    }
  }

  // ---------------------------------------------------------------- what getopt can report

  /** The value of a declared short option, with its first declaration. */
  ghost predicate ShortCode(gs: seq<Argp>, ret: int, g: nat, at: nat) {
    ' ' as int <= ret <= '~' as int && FirstShort(gs, ret as char, g, at)
  }

  /** The value of a long option, with its first declaration and the key that this has. */
  ghost predicate LongCode(gs: seq<Argp>, ret: int, name: string, g: nat, at: nat, key: int) {
    FirstLong(gs, name, g, at) && HasKey(Table(gs[g]), at, key) && ret == Encode(key, g)
  }

  /** The value stands for an option of the tree, an operand or an error. */
  ghost predicate Accounted(gs: seq<Argp>, ret: int) {
    || ret == OPERAND || ret == ERROR
    || (exists g: nat, at: nat :: ShortCode(gs, ret, g, at))
    || (exists name, g: nat, at: nat, key :: LongCode(gs, ret, name, g, at, key))
  }

  lemma ShortIsAccounted(gs: seq<Argp>, longOnly: bool, c: char)
    requires ArityOf(TableConfig(gs, longOnly), c) != NotAnOption
    ensures Accounted(gs, c as int)
  {
    hide Text, AllSites;
    var sites := AllSites(gs);
    TextHolds(sites, c);
    var k :| 0 <= k < |sites| && Declares(sites[k], c);
    DeclaredHasFirst(gs, c, c as int, k);
  }

  lemma DeclaredHasFirst(gs: seq<Argp>, c: char, ret: int, k: nat)
    requires k < |AllSites(gs)| && Declares(AllSites(gs)[k], c) && ret == c as int
    ensures exists g: nat, at: nat :: ShortCode(gs, ret, g, at)
  {
    hide AllSites;
    var sites := AllSites(gs);
    var i := FirstDeclaring(sites, c, k);
    FirstShortIs(gs, c, i);
    assert ShortCode(gs, ret, sites[i].group, sites[i].at);
  }

  lemma {:induction false} FirstDeclaring(sites: seq<Site>, c: char, k: nat) returns (i: nat)
    requires k < |sites| && Declares(sites[k], c)
    ensures i <= k && FirstToDeclare(sites, c, i)
  {
    i := 0;
    while !Declares(sites[i], c)
      invariant i <= k && forall j :: 0 <= j < i ==> !Declares(sites[j], c)
      decreases k - i
    {
      i := i + 1;
    }
  }

  lemma FirstExactIs(ls: seq<LongOption>, i: nat)
    requires i < |ls| && forall j, k :: 0 <= j < k < |ls| ==> ls[j].name != ls[k].name
    ensures FirstExact(ls, ls[i].name, 0) == i
  {
  }

  lemma LongIsAccounted(gs: seq<Argp>, i: nat)
    requires i < |Longs(AllSites(gs))|
    ensures Accounted(gs, Longs(AllSites(gs))[i].val) && Longs(AllSites(gs))[i].flag == None
    ensures Fitting(gs) ==> Longs(AllSites(gs))[i].val >= USER
  {
    hide Longs, AllSites;
    var sites, ls := AllSites(gs), Longs(AllSites(gs));
    var name := ls[i].name;
    LongsAreDistinct(sites);
    FirstExactIs(ls, i);
    LongIsFirst(sites, name);
    var k := FirstNaming(sites, name);
    FirstLongIs(gs, name, k);
    SiteOrigin(gs, k);
    SiteMeans(gs, sites[k].group, sites[k].at, ' ', name);
    assert LongCode(gs, ls[i].val, name, sites[k].group, sites[k].at, KeyOf(sites[k]));
    if Fitting(gs) {
      EncodingIsExact(KeyOf(sites[k]), sites[k].group);
      GroupKeyIsPositive(ls[i].val);
    }
  }

  lemma GroupKeyIsPositive(val: int)
    ensures GroupKey(val) >= 1 ==> val >= USER
  {
  }

  /** The tables never make getopt return -1 for an option. */
  lemma TablesAreDistinguishable(gs: seq<Argp>, longOnly: bool)
    requires Fitting(gs)
    ensures Distinguishable(TableConfig(gs, longOnly))
  {
    hide Longs, AllSites, Fitting;
    var ls := Longs(AllSites(gs));
    forall i | 0 <= i < |ls|
      ensures ls[i].val != -1
    {
      LongIsAccounted(gs, i);
    }
  }

  /** Whatever element getopt decodes, it returns an option of the tree or an error. */
  lemma DecodedIsAccounted(gs: seq<Argp>, longOnly: bool, elem: string, rest: string, next: Option<string>)
    requires |elem| >= 2 && rest != "" && Fitting(gs)
    ensures Accounted(gs, Decode(TableConfig(gs, longOnly), elem, rest, next).ret)
  {
    hide Accounted, Fitting, ArityOf, Text, Longs, AllSites, Choose;
    var cfg := TableConfig(gs, longOnly);
    MissingIsError(gs, longOnly);
    ErrorIsAccounted(gs);
    if ArityOf(cfg, rest[0]) != NotAnOption {
      ShortIsAccounted(gs, longOnly, rest[0]);
    }
    if TryLong(cfg, elem) {
      LookupIsInTable(cfg.longs.value, rest[..NameEnd(rest)], longOnly);
      var choice := Choose(cfg.longs.value, rest[..NameEnd(rest)], longOnly);
      if choice.Unique? {
        LongIsAccounted(gs, choice.index);
      }
    }
  }

  lemma ErrorIsAccounted(gs: seq<Argp>)
    ensures Accounted(gs, ERROR) && Accounted(gs, OPERAND)
  {
  }

  lemma MissingIsError(gs: seq<Argp>, longOnly: bool)
    requires Fitting(gs)
    ensures MissingArgument(TableConfig(gs, longOnly)) == ERROR
  {
    hide Text, AllSites;
    TextStart(AllSites(gs));
  }

  // ---------------------------------------------------------------- whole scans

  ghost predicate AllAccounted(gs: seq<Argp>, reports: seq<Report>) {
    forall i :: 0 <= i < |reports| ==> Accounted(gs, reports[i].ret)
  }

  lemma AccountedPrepend(gs: seq<Argp>, r: Report, reports: seq<Report>)
    requires Accounted(gs, r.ret) && AllAccounted(gs, reports)
    ensures AllAccounted(gs, [r] + reports)
  {
    hide Accounted;
  }

  /** Every report of a permuting scan is accounted for. */
  lemma {:induction false} PartitionIsAccounted(gs: seq<Argp>, longOnly: bool, args: seq<string>)
    requires Fitting(gs)
    ensures AllAccounted(gs, Partition(TableConfig(gs, longOnly), args).reports)
    decreases |args|, if args == [] then 0 else |args[0]|
  {
    hide Accounted, Fitting, Decode, TableConfig;
    var cfg := TableConfig(gs, longOnly);
    if args != [] {
      if NonOption(args[0]) {
        PartitionIsAccounted(gs, longOnly, args[1..]);
      } else if args[0] != "--" {
        ResumeIsAccounted(gs, longOnly, args, Start(cfg, args[0]));
      }
    }
  }

  lemma {:induction false} ResumeIsAccounted(gs: seq<Argp>, longOnly: bool, args: seq<string>, rest: string)
    requires Fitting(gs) && args != [] && |args[0]| >= 2 && rest != ""
    ensures AllAccounted(gs, Resume(TableConfig(gs, longOnly), args, rest).reports)
    decreases |args|, |rest|
  {
    hide Accounted, Fitting, Decode, TableConfig, AllAccounted;
    var cfg := TableConfig(gs, longOnly);
    var d := Decode(cfg, args[0], rest, Second(args));
    DecodedIsAccounted(gs, longOnly, args[0], rest, Second(args));
    if d.advance == 0 {
      ResumeIsAccounted(gs, longOnly, args, d.rest);
      AccountedPrepend(gs, Report(d.ret, d.optarg), Resume(cfg, args, d.rest).reports);
    } else {
      PartitionIsAccounted(gs, longOnly, args[d.advance..]);
      AccountedPrepend(gs, Report(d.ret, d.optarg), Partition(cfg, args[d.advance..]).reports);
    }
  }

  /** Every report of a scan in place is accounted for. */
  lemma {:induction false} InPlaceIsAccounted(gs: seq<Argp>, longOnly: bool, stop: bool, args: seq<string>)
    requires Fitting(gs)
    ensures AllAccounted(gs, ReadInPlace(TableConfig(gs, longOnly), stop, args).reports)
    decreases |args|, if args == [] then 0 else |args[0]|
  {
    hide Accounted, Fitting, Decode, TableConfig;
    var cfg := TableConfig(gs, longOnly);
    if args != [] {
      if NonOption(args[0]) {
        if !stop {
          InPlaceIsAccounted(gs, longOnly, stop, args[1..]);
          ErrorIsAccounted(gs);
          AccountedPrepend(gs, Report(OPERAND, Some(args[0])), ReadInPlace(cfg, stop, args[1..]).reports);
        }
      } else if args[0] != "--" {
        ResumedInPlaceIsAccounted(gs, longOnly, stop, args, Start(cfg, args[0]));
      }
    }
  }

  lemma {:induction false} ResumedInPlaceIsAccounted(
    gs: seq<Argp>, longOnly: bool, stop: bool, args: seq<string>, rest: string)
    requires Fitting(gs) && args != [] && |args[0]| >= 2 && rest != ""
    ensures AllAccounted(gs, ResumeInPlace(TableConfig(gs, longOnly), stop, args, rest).reports)
    decreases |args|, |rest|
  {
    hide Accounted, Fitting, Decode, TableConfig, AllAccounted;
    var cfg := TableConfig(gs, longOnly);
    var d := Decode(cfg, args[0], rest, Second(args));
    DecodedIsAccounted(gs, longOnly, args[0], rest, Second(args));
    if d.advance == 0 {
      ResumedInPlaceIsAccounted(gs, longOnly, stop, args, d.rest);
      AccountedPrepend(gs, Report(d.ret, d.optarg), ResumeInPlace(cfg, stop, args, d.rest).reports);
    } else {
      InPlaceIsAccounted(gs, longOnly, stop, args[d.advance..]);
      AccountedPrepend(gs, Report(d.ret, d.optarg), ReadInPlace(cfg, stop, args[d.advance..]).reports);
    }
  }

  /** What a scan of the vector with the tables reports: in order with the operands under ARGP_IN_ORDER, up to the first
      operand under ARGP_NO_ARGS or POSIXLY_CORRECT, and all options otherwise. */
  ghost function Scanned(
    gs: seq<Argp>, longOnly: bool, inOrder: bool, noArgs: bool, posixlyCorrect: bool, argv: seq<string>): seq<Report>
  {
    var cfg := TableConfig(gs, longOnly);
    if argv == [] then []
    else if inOrder then ReadInPlace(cfg, false, argv[1..]).reports
    else if noArgs || posixlyCorrect then ReadInPlace(cfg, true, argv[1..]).reports
    else Partition(cfg, argv[1..]).reports
  }

  lemma ScanIsAccounted(
    gs: seq<Argp>, longOnly: bool, inOrder: bool, noArgs: bool, posixlyCorrect: bool, argv: seq<string>)
    requires Fitting(gs)
    ensures AllAccounted(gs, Scanned(gs, longOnly, inOrder, noArgs, posixlyCorrect, argv))
  {
    hide AllAccounted, Fitting, TableConfig;
    NoReports(gs);
    if argv != [] {
      PartitionIsAccounted(gs, longOnly, argv[1..]);
      InPlaceIsAccounted(gs, longOnly, true, argv[1..]);
      InPlaceIsAccounted(gs, longOnly, false, argv[1..]);
    }
  }

  lemma NoReports(gs: seq<Argp>)
    ensures AllAccounted(gs, [])
  {
  }

  // ---------------------------------------------------------------- dispatch

  /** The value reported by getopt reaches this group with this key: the first group in preorder that declares it, and
      the key declared there. An error is no option unless it is declared as one, and operands go elsewhere. */
  ghost predicate Reaches(gs: seq<Argp>, ret: int, group: Option<nat>, key: int) {
    || ret == OPERAND
    || (ret == ERROR && group == None && forall g: nat, at: nat :: !ShortCode(gs, ret, g, at))
    || (exists g: nat, at: nat :: ShortCode(gs, ret, g, at) && group == Some(g) && key == ret)
    || (exists name, g: nat, at: nat :: LongCode(gs, ret, name, g, at, key) && group == Some(g))
  }

  /** Where a short value goes. */
  lemma ShortReaches(gs: seq<Argp>, inOrder: bool, noArgs: bool, ret: int, g: nat, at: nat)
    requires Fitting(gs) && ShortCode(gs, ret, g, at)
    ensures var prefix := Prefix(inOrder, noArgs);
      ShortGroup(prefix + Text(AllSites(gs)), ShortEnds(prefix, gs), ret as char) == Some(g)
  {
    hide Text, AllSites, ShortGroup, ShortEnds, NumOptions, GivesShort, GivesLong, HasKey;
    var prefix, c := Prefix(inOrder, noArgs), ret as char;
    SiteIndex(gs, g, at);
    SiteMeans(gs, g, at, c, "");
    assert !Reserved(c);
    var r := RealIs(Table(gs[g]), at);
    ShortDispatch(gs, inOrder, noArgs, Config(Getopt.ShortsOf(prefix + Text(AllSites(gs))), None, false), c, g, at, r);
  }

  lemma UndeclaredReachesNothing(gs: seq<Argp>, inOrder: bool, noArgs: bool, ret: int)
    requires ret == ERROR && forall g: nat, at: nat :: !ShortCode(gs, ret, g, at)
    ensures var prefix := Prefix(inOrder, noArgs);
      ShortGroup(prefix + Text(AllSites(gs)), ShortEnds(prefix, gs), ret as char) == None
  {
    hide Text, AllSites, ShortEnds;
    var prefix, c, sites := Prefix(inOrder, noArgs), ret as char, AllSites(gs);
    TextHolds(sites, c);
    if k :| 0 <= k < |sites| && Declares(sites[k], c) {
      DeclaredHasFirst(gs, c, ret, k);
    }
    assert c !in prefix + Text(sites);
  }

  /** Where a long value goes. */
  lemma LongReaches(gs: seq<Argp>, ret: int, name: string, g: nat, at: nat, key: int)
    requires Fitting(gs) && LongCode(gs, ret, name, g, at, key)
    ensures GroupKey(ret) == g + 1 && UserKey(ret) == key && ret >= USER
  {
    hide AllSites, NumOptions, Encode, GroupKey, UserKey, HasKey, GivesShort, GivesLong;
    SiteIndex(gs, g, at);
    SiteMeans(gs, g, at, ' ', name);
    EncodingIsExact(key, g);
    GroupKeyIsPositive(ret);
  }

  lemma ShortGroupKey(ret: int)
    ensures 0 < ret < 256 ==> GroupKey(ret) == 0
  {
  }

  /** What parser_parse_opt may assume of a value that getopt reports. */
  lemma AccountedIsDispatchable(gs: seq<Argp>, ret: int)
    requires Fitting(gs) && Accounted(gs, ret)
    ensures 0 < ret < 256 || 0 < GroupKey(ret) <= |gs|
  {
    hide Fitting, FirstShort, FirstLong, GroupKey;
    if !(0 < ret < 256) {
      var name, g: nat, at: nat, key :| LongCode(gs, ret, name, g, at, key);
      LongReaches(gs, ret, name, g, at, key);
      FirstIsSite(gs, name, g, at);
    }
  }

  lemma FirstIsSite(gs: seq<Argp>, name: string, g: nat, at: nat)
    requires FirstLong(gs, name, g, at)
    ensures IsSite(gs, g, at)
  {
  }

  /** Dispatching a reported option leads to the group that declares it first. */
  method Dispatch(p: Parser, inOrder: bool, noArgs: bool, ret: int) returns (group: Option<nat>, key: int)
    requires p.Settled() && p.prefix == Prefix(inOrder, noArgs) && Fitting(p.done) && Accounted(p.done, ret)
    ensures Reaches(p.done, ret, group, key)
  {
    hide Fitting, FirstShort, FirstLong, GroupKey, UserKey, Text, AllSites, ShortGroup, ShortEnds, Encode;
    AccountedIsDispatchable(p.done, ret);
    group, key := p.ParseOpt(ret);
    ShortGroupKey(ret);
    ghost var gs := p.done;
    if name, g: nat, at: nat, k :| LongCode(gs, ret, name, g, at, k) {
      FirstIsSite(gs, name, g, at);
      LongReaches(gs, ret, name, g, at, k);
      assert LongCode(gs, ret, name, g, at, key) && group == Some(g);
    } else if g: nat, at: nat :| ShortCode(gs, ret, g, at) {
      ShortReaches(gs, inOrder, noArgs, ret, g, at);
      assert ShortCode(gs, ret, g, at) && group == Some(g) && key == ret;
    } else if ret == ERROR {
      UndeclaredReachesNothing(gs, inOrder, noArgs, ret);
    }
  }

  /** The long options that getopt is given. */
  method LongTable(p: Parser) returns (ls: seq<LongOption>)
    requires p.Settled()
    ensures ls == Longs(AllSites(p.done))
  {
    hide Longs, AllSites, Text, Slots;
    ls := [];
    var i := 0;
    while p.longOpts[i] != Null
      invariant i <= p.longEnd && ls == Longs(p.sites)[..i]
      decreases p.longEnd - i
    {
      ls, i := ls + [p.longOpts[i].option], i + 1;
    }
  }

  /** getopt scans the vector with the flattened tables; everything it reports is accounted for. */
  method ScanWithTables(p: Parser, inOrder: bool, noArgs: bool, argv: array<string>, longOnly: bool,
                        posixlyCorrect: bool, mallocs: seq<bool>) returns (calls: seq<Report>)
    requires p.Settled() && p.prefix == Prefix(inOrder, noArgs) && Fitting(p.done)
    modifies argv
    ensures calls == Scanned(p.done, longOnly, inOrder, noArgs, posixlyCorrect, old(argv[..]))
    ensures AllAccounted(p.done, calls)
  {
    hide Fitting, Longs, AllSites, Text, AllAccounted, Parser.Settled, Distinguishable, BeforeEnd;
    hide Partition, ReadInPlace;
    var optstring := ShortString(p);
    var ls := LongTable(p);
    TextForGetopt(p.done, inOrder, noArgs);
    TablesAreDistinguishable(p.done, longOnly);
    var stop;
    calls, stop := Getopt.ScanVector(argv, optstring, Some(ls), longOnly, posixlyCorrect, mallocs);
    ScanIsAccounted(p.done, longOnly, inOrder, noArgs, posixlyCorrect, old(argv[..]));
  }

  /** A whole run over a vector: getopt scans it with the flattened tables, every report it makes meets what
      parser_parse_opt asks for, and every option reaches the group in preorder that declares it first, with the key
      declared there. */
  method ParseAll(p: Parser, inOrder: bool, noArgs: bool, argv: array<string>, longOnly: bool, posixlyCorrect: bool,
                  mallocs: seq<bool>) returns (calls: seq<Report>, targets: seq<(Option<nat>, int)>)
    requires p.Settled() && p.prefix == Prefix(inOrder, noArgs) && Fitting(p.done)
    modifies argv
    ensures calls == Scanned(p.done, longOnly, inOrder, noArgs, posixlyCorrect, old(argv[..]))
    ensures |targets| == |calls|
    ensures forall i :: 0 <= i < |calls| ==> Reaches(p.done, calls[i].ret, targets[i].0, targets[i].1)
  {
    hide Fitting, AllSites, Text, Reaches, Accounted, Parser.Settled, Prefix, Scanned;
    calls := ScanWithTables(p, inOrder, noArgs, argv, longOnly, posixlyCorrect, mallocs);
    targets := [];
    for i := 0 to |calls|
      invariant |targets| == i
      invariant forall j :: 0 <= j < i ==> Reaches(p.done, calls[j].ret, targets[j].0, targets[j].1)
    {
      var group, key := Dispatch(p, inOrder, noArgs, calls[i].ret);
      targets := targets + [(group, key)];
    }
  }

  lemma TextForGetopt(gs: seq<Argp>, inOrder: bool, noArgs: bool)
    requires Fitting(gs)
    ensures var t := Text(AllSites(gs)); Getopt.ShortsOf(Prefix(inOrder, noArgs) + t) == t && NoLongByW(t)
    ensures var t := Text(AllSites(gs)); t != "" ==> t[0] != '-' && t[0] != '+'
  {
    hide Text, AllSites;
    TextIsForGetopt(inOrder, noArgs, AllSites(gs));
    TextStart(AllSites(gs));
  }

  /** The option string that getopt is given. */
  method ShortString(p: Parser) returns (s: string)
    requires p.Settled()
    ensures s == p.prefix + Text(AllSites(p.done))
  {
    s := p.shortOpts[..p.shortEnd];
  }

  // ---------------------------------------------------------------- from the text of an argument to the key

  /** An argument that spells a long option is reported with the value that leads to its first declaration, the key
      included, and with an argument just as the option that the declaration stands for asks. */
  lemma LongArgumentMeans(
    gs: seq<Argp>, longOnly: bool, args: seq<string>, name: string, arg: Option<string>, g: nat, at: nat, r: nat)
    requires FirstLong(gs, name, g, at) && StandsFor(Table(gs[g]), at, r)
    requires args != [] && LongElement(TableConfig(gs, longOnly), args[0]) && Spells(args[0], name, arg)
    ensures var table := Table(gs[g]);
      var o, key := table[r], if table[at].key != 0 then table[at].key else table[r].key;
      var long := LongOption(name, if !o.arg then 0 else if o.argOptional then 2 else 1, None, Encode(key, g));
      var next := if |args| > 1 then Some(args[1]) else None;
      var (report, k) := LongReport(TableConfig(gs, longOnly), long, arg, next);
      k <= |args| && ReadsAs(TableConfig(gs, longOnly), args, report, k)
  {
    hide Longs, AllSites, Text, Choose, Promised, ReadsAs, Encode, GroupKey, UserKey, FirstLong, Spells;
    var ls := Longs(AllSites(gs));
    LongDispatch(gs, longOnly, name, g, at, r);
    FirstIsSite(gs, name, g, at);
    LookupKeepsPromise(ls, name, longOnly);
    var f := Choose(ls, name, longOnly).index;
    LongMeans(TableConfig(gs, longOnly), args, name, arg, f);
  }

  /** getopt sees a short option listed with the marks that the option its first declaration stands for asks for. */
  lemma ShortArgumentMeans(gs: seq<Argp>, longOnly: bool, c: char, g: nat, at: nat, r: nat)
    requires Fitting(gs) && FirstShort(gs, c, g, at) && StandsFor(Table(gs[g]), at, r)
    ensures var o := Table(gs[g])[r];
      Lists(Text(AllSites(gs)), c, if !o.arg then "" else if o.argOptional then "::" else ":")
  {
    hide Text, AllSites, Longs, ArityOf, Lists, GivesShort, GivesLong, HasKey, NumOptions;
    var cfg := TableConfig(gs, longOnly);
    SiteIndex(gs, g, at);
    SiteMeans(gs, g, at, c, "");
    assert !Reserved(c);
    TextForGetopt(gs, false, false);
    ShortDispatch(gs, false, false, cfg, c, g, at, r);
    ArityLists(cfg, c);
  }
}
