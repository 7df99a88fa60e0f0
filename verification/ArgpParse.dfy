/** Flattening a tree of option tables into the tables of getopt, and finding the group of an option again:
    src/gnu/argp-parse.c. */
module ArgpParse {
  import opened GetoptSpec
  import opened ArgpTree
  import Getopt

  // ---------------------------------------------------------------- dispatch

  /** Entry `at` of group g stands before entry bt of group h. */
  predicate Earlier(g: nat, at: nat, h: nat, bt: nat) {
    g < h || (g == h && at < bt)
  }

  predicate IsSite(gs: seq<Argp>, g: nat, at: nat) {
    g < |gs| && at < |Table(gs[g])|
  }

  function SiteOf(gs: seq<Argp>, g: nat, at: nat): Site
    requires IsSite(gs, g, at)
  {
    SiteAt(Table(gs[g]), at, g)
  }

  lemma FewerOptions(gs: seq<Argp>, m: nat, n: nat)
    requires m <= n <= |gs|
    ensures NumOptions(gs[..m]) <= NumOptions(gs[..n])
  {
    SitesPrefix(gs[..n], m);
    assert gs[..n][..m] == gs[..m];
  }

  /** An entry's place among all entries follows its place in the tree. */
  lemma EarlierInList(gs: seq<Argp>, g: nat, at: nat, i: nat)
    requires IsSite(gs, g, at) && i < NumOptions(gs[..g]) + at
    ensures i < NumOptions(gs)
    ensures var s := AllSites(gs)[i];
      IsSite(gs, s.group, s.at) && s == SiteOf(gs, s.group, s.at) && Earlier(s.group, s.at, g, at)
  {
    hide NumOptions, AllSites;
    SiteIndex(gs, g, at);
    SiteOrigin(gs, i);
    var s := AllSites(gs)[i];
    if s.group > g {
      FewerOptions(gs, g + 1, s.group);
    }
  }

  /** Entry `at` of group g is the first in the tree that gives the short option. */
  ghost predicate FirstShort(gs: seq<Argp>, c: char, g: nat, at: nat) {
    && IsSite(gs, g, at) && GivesShort(Table(gs[g]), at, c)
    && forall h: nat, bt: nat :: IsSite(gs, h, bt) && Earlier(h, bt, g, at) ==> !GivesShort(Table(gs[h]), bt, c)
  }

  ghost predicate FirstLong(gs: seq<Argp>, name: string, g: nat, at: nat) {
    && IsSite(gs, g, at) && GivesLong(Table(gs[g]), at, name)
    && forall h: nat, bt: nat :: IsSite(gs, h, bt) && Earlier(h, bt, g, at) ==> !GivesLong(Table(gs[h]), bt, name)
  }

  /** An entry gives what its site declares and names. */
  lemma SiteMeans(gs: seq<Argp>, g: nat, at: nat, c: char, name: string)
    requires IsSite(gs, g, at)
    ensures Declares(SiteOf(gs, g, at), c) <==> GivesShort(Table(gs[g]), at, c)
    ensures Names(SiteOf(gs, g, at), name) <==> GivesLong(Table(gs[g]), at, name)
    ensures HasKey(Table(gs[g]), at, KeyOf(SiteOf(gs, g, at)))
    ensures forall key :: HasKey(Table(gs[g]), at, key) ==> key == KeyOf(SiteOf(gs, g, at))
  {
    var table := Table(gs[g]);
    var r := RealIs(table, at);
    EntryMeans(table, at, g, r, c, name);
    forall key | HasKey(table, at, key)
      ensures key == KeyOf(SiteOf(gs, g, at))
    {
      var q: nat :| StandsFor(table, at, q) && key == if table[at].key != 0 then table[at].key else table[q].key;
      StandsForOne(table, at, r, q);
    }
  }

  /** No entry has a short option that is a mark in getopt's option strings. */
  predicate NoReservedKeys(sites: seq<Site>) {
    forall i :: 0 <= i < |sites| && Short(sites[i]) ==> !Reserved(sites[i].opt.key as char)
  }

  predicate Reserved(c: char) {
    c == ':' || c == ';' || c == '+' || c == '-'
  }

  /** The string that orders the scan. */
  function Prefix(inOrder: bool, noArgs: bool): string {
    if inOrder then "-" else if noArgs then "+" else ""
  }

  lemma {:induction false} TextStart(sites: seq<Site>)
    requires NoReservedKeys(sites)
    ensures Text(sites) != "" ==> !Reserved(Text(sites)[0])
  {
    if sites != [] {
      TextStart(sites[..|sites| - 1]);
    }
  }

  /** getopt reads the flattened option string as it was meant: the prefix orders the scan and what follows is the
      table, which does not ask for -W foo. */
  lemma TextIsForGetopt(inOrder: bool, noArgs: bool, sites: seq<Site>)
    requires NoReservedKeys(sites)
    ensures Getopt.ShortsOf(Prefix(inOrder, noArgs) + Text(sites)) == Text(sites) && NoLongByW(Text(sites))
  {
    hide Text;
    var prefix, t := Prefix(inOrder, noArgs), Text(sites);
    TextStart(sites);
    assert prefix != "" ==> (prefix + t)[1..] == t;
    assert prefix == "" ==> prefix + t == t;
    TextHolds(sites, ';');
    FromIsPart(t, 'W');
  }

  lemma {:induction false} FromIsPart(s: string, c: char)
    ensures forall d :: d in From(s, c) ==> d in s
  {
    if s != "" && s[0] != c {
      FromIsPart(s[1..], c);
    }
  }

  /** Every short option but the colon and the prefix reaches the first group in preorder that declares it; if no entry
      uses a mark of getopt, it does so with the argument that its first declaration there asks for. */
  lemma ShortDispatch(gs: seq<Argp>, inOrder: bool, noArgs: bool, cfg: Config, c: char, g: nat, at: nat, r: nat)
    requires FirstShort(gs, c, g, at) && StandsFor(Table(gs[g]), at, r) && c != ':' && c !in Prefix(inOrder, noArgs)
    requires cfg.shorts == Getopt.ShortsOf(Prefix(inOrder, noArgs) + Text(AllSites(gs)))
    ensures var o := Table(gs[g])[r];
      NoReservedKeys(AllSites(gs)) ==>
        ArityOf(cfg, c) == if !o.arg then NoArgument else if o.argOptional then Optionally else Required
    ensures var prefix := Prefix(inOrder, noArgs);
      ShortGroup(prefix + Text(AllSites(gs)), ShortEnds(prefix, gs), c) == Some(g)
  {
    hide Text, AllSites, NumOptions, ShortGroup, ShortEnds, Getopt.ShortsOf, GivesShort, GivesLong, HasKey;
    var sites, i := AllSites(gs), NumOptions(gs[..g]) + at;
    SiteIndex(gs, g, at);
    EntryMeans(Table(gs[g]), at, g, r, c, "");
    forall j | 0 <= j < i
      ensures !Declares(sites[j], c)
    {
      EarlierInList(gs, g, at, j);
      SiteMeans(gs, sites[j].group, sites[j].at, c, "");
    }
    assert Declares(sites[i], c);
    if NoReservedKeys(sites) {
      TextIsForGetopt(inOrder, noArgs, sites);
      ArityIsDeclared(sites, cfg.longs, cfg.longOnly, c, i);
    }
    ShortGoesToFirst(Prefix(inOrder, noArgs), gs, c, i);
  }

  /** Every long option is found by its name as its first declaration in preorder says, and its value leads back to
      that group and to the key, sign included, just when key and group number fit. */
  lemma LongDispatch(gs: seq<Argp>, longOnly: bool, name: string, g: nat, at: nat, r: nat)
    requires FirstLong(gs, name, g, at) && StandsFor(Table(gs[g]), at, r)
    ensures var ls, table := Longs(AllSites(gs)), Table(gs[g]);
      var o, key := table[r], if table[at].key != 0 then table[at].key else table[r].key;
      exists f :: 0 <= f < |ls| && Choose(ls, name, longOnly) == Unique(f)
        && ls[f] == LongOption(name, if !o.arg then 0 else if o.argOptional then 2 else 1, None, Encode(key, g))
        && (GroupKey(ls[f].val) == g + 1 && UserKey(ls[f].val) == key
          <==> -(USER / 2) <= key < USER / 2 && g + 1 < 128)
  {
    hide AllSites, NumOptions, Longs, Encode, GroupKey, UserKey, Choose, GivesShort, GivesLong, HasKey, Names;
    var sites, i := AllSites(gs), NumOptions(gs[..g]) + at;
    SiteIndex(gs, g, at);
    EntryMeans(Table(gs[g]), at, g, r, ' ', name);
    var first := FirstNaming(sites, name);
    if first < i {
      EarlierInList(gs, g, at, first);
      SiteMeans(gs, sites[first].group, sites[first].at, ' ', name);
    }
    assert first == i;
    LongIsFirst(sites, name);
    LongEntryIs(sites[i], name);
    EncodingIsExact(KeyOf(sites[i]), g);
    ExactIsChosen(Longs(sites), name, longOnly);
  }

  lemma LongEntryIs(s: Site, name: string)
    requires Names(s, name)
    ensures Long(s) && LongEntry(s) == LongOption(name, HasArg(SiteArity(s)), None, Encode(KeyOf(s), s.group))
  {
  }

  lemma ExactIsChosen(ls: seq<LongOption>, name: string, longOnly: bool)
    ensures var f := FirstExact(ls, name, 0); f < |ls| ==> Choose(ls, name, longOnly) == Unique(f)
  {
  }

  // ---------------------------------------------------------------- counting the space

  /** struct parser_sizes. */
  datatype Sizes = Sizes(shortLen: nat, longLen: nat, groups: nat, childInputs: nat)

  /** What a list of groups, and the argps below some, add to the counts. */
  function Grown(szs: Sizes, gs: seq<Argp>, below: nat): Sizes {
    var n := NumOptions(gs);
    Sizes(szs.shortLen + 3 * n, szs.longLen + n, szs.groups + |gs|, szs.childInputs + below)
  }

  lemma GrownTwice(szs: Sizes, gs: seq<Argp>, m: nat, hs: seq<Argp>, n: nat)
    ensures Grown(Grown(szs, gs, m), hs, n) == Grown(szs, gs + hs, m + n)
  {
    CountsAdd(gs, hs);
  }

  lemma OptionsOfOne(a: Argp)
    ensures NumOptions([a]) == |Table(a)|
  {
    assert [a][..0] == [];
  }

  /** calc_sizes: three characters and one long option for every entry, one group for every argp that needs one, and
      one input for every argp below. */
  method CalcSizes(a: Argp, szs: Sizes) returns (r: Sizes)
    ensures r == Grown(szs, Preorder(a), Descendants(a))
    decreases a
  {
    hide Grown, NumOptions;
    r := CountOwn(a, szs);
    ghost var own := if IsGroup(a) then [a] else [];
    var i := 0;
    GrownByNone(r);
    while i < |a.children|
      invariant i <= |a.children|
      invariant r == Grown(Grown(szs, own, 0), PreorderBelow(a, i), DescendantsIn(a, i))
    {
      ghost var base := Grown(szs, own, 0);
      r := CalcSizes(a.children[i], r);
      r := r.(childInputs := r.childInputs + 1);
      OneMore(base, PreorderBelow(a, i), DescendantsIn(a, i), Preorder(a.children[i]), Descendants(a.children[i]));
      i := i + 1;
    }
    GrownTwice(szs, own, 0, PreorderBelow(a, i), DescendantsIn(a, i));
  }

  lemma GrownByNone(szs: Sizes)
    ensures Grown(szs, [], 0) == szs
  {
  }

  lemma OneMore(szs: Sizes, gs: seq<Argp>, m: nat, hs: seq<Argp>, n: nat)
    ensures var r := Grown(Grown(szs, gs, m), hs, n);
      r.(childInputs := r.childInputs + 1) == Grown(szs, gs + hs, m + n + 1)
  {
    CountsAdd(gs, hs);
  }

  /** The part of calc_sizes before the children. */
  method CountOwn(a: Argp, szs: Sizes) returns (r: Sizes)
    ensures r == Grown(szs, if IsGroup(a) then [a] else [], 0)
  {
    r := szs;
    OptionsOfOne(a);
    if IsGroup(a) {
      r := r.(groups := r.groups + 1);
      if a.options.Some? {
        var n := 0;
        while n < |a.options.value|
          invariant n <= |a.options.value|
        {
          n := n + 1;
        }
        r := r.(shortLen := r.shortLen + n * 3, longLen := r.longLen + n);
      }
    }
  }

  /** The sizes parser_init starts from. */
  function InitialSizes(noArgs: bool): Sizes {
    Sizes(if noArgs then 0 else 1, 0, 0, 0)
  }

  /** The space that flattening needs, end markers included, is there. */
  predicate Room(prefix: string, gs: seq<Argp>, szs: Sizes) {
    && |prefix| + |Text(AllSites(gs))| < szs.shortLen + 1
    && |Longs(AllSites(gs))| < szs.longLen + 1
    && |gs| < szs.groups + 1
    && Slots(gs) <= szs.childInputs
  }

  /** The counted space is enough, except that under ARGP_NO_ARGS nothing is counted for the prefix: it is too small by
      one character just when every entry uses all its three. */
  lemma SpaceSuffices(a: Argp, inOrder: bool, noArgs: bool)
    ensures var gs := Preorder(a);
      Room(Prefix(inOrder, noArgs), gs, Grown(InitialSizes(noArgs), gs, Descendants(a)))
      <==> !(noArgs && |Text(AllSites(gs))| == 3 * NumOptions(gs))
  {
    var gs := Preorder(a);
    TextBound(AllSites(gs));
    SlotsSuffice(a);
  }

  /** An argp with a parser but no options is one that overflows. */
  lemma NoArgsCanOverflow()
    ensures var a := Argp(Some([]), true, []);
      var gs := Preorder(a);
      !Room("+", gs, Grown(InitialSizes(true), gs, Descendants(a)))
  {
    var a := Argp(Some([]), true, []);
    assert Preorder(a) == [a];
    OptionsOfOne(a);
    SpaceSuffices(a, false, true);
  }

  lemma RoomForPrefix(prefix: string, gs: seq<Argp>, n: nat, szs: Sizes)
    requires Room(prefix, gs, szs) && n <= |gs|
    ensures Room(prefix, gs[..n], szs)
  {
    hide Text, AllSites, NumOptions, Longs, Slots;
    SitesPrefix(gs, n);
    TextOfPrefix(AllSites(gs), NumOptions(gs[..n]));
    LongsOfPrefix(AllSites(gs), NumOptions(gs[..n]));
  }

  // ---------------------------------------------------------------- conversion

  /** An element of the long-option vector, which a null name ends. */
  datatype LongSlot = Null | Named(option: LongOption)

  /** struct group: child_inputs is an offset into the common space. */
  datatype Group = Group(argp: Argp, parent: int, parentIndex: nat, shortEnd: nat, childInputs: nat)

  function GroupRecord(prefix: string, gs: seq<Argp>, ls: seq<Link>, i: nat): Group
    requires i < |gs| == |ls|
  {
    Group(gs[i], ls[i].parent, ls[i].index, ShortEnd(prefix, gs, i), Slots(gs[..i]))
  }

  /** find_long_option. */
  method FindLongOption(longs: array<LongSlot>, name: string, ghost ls: seq<LongOption>) returns (i: int)
    requires |ls| < longs.Length && longs[|ls|] == Null
    requires forall k :: 0 <= k < |ls| ==> longs[k] == Named(ls[k])
    ensures i == if Listed(ls, name) then FirstExact(ls, name, 0) else -1
  {
    i := 0;
    while longs[i] != Null
      invariant 0 <= i <= |ls|
      invariant FirstExact(ls, name, 0) == FirstExact(ls, name, i)
      invariant forall k :: 0 <= k < i ==> ls[k].name != name
      decreases |ls| - i
    {
      if longs[i].option.name == name {
        return;
      }
      i := i + 1;
    }
    return -1;
  }

  lemma LongsStep(sites: seq<Site>, s: Site)
    ensures var ls := Longs(sites);
      Longs(sites + [s]) == if Long(s) && !Listed(ls, s.opt.name.value) then ls + [LongEntry(s)] else ls
  {
    assert (sites + [s])[..|sites|] == sites;
  }

  lemma SitesStep(gs: seq<Argp>, a: Argp)
    ensures AllSites(gs + [a]) == AllSites(gs) + SitesOf(Table(a), |Table(a)|, |gs|)
  {
    assert (gs + [a])[..|gs|] == gs;
  }

  lemma SlotsStep(gs: seq<Argp>, a: Argp)
    ensures Slots(gs + [a]) == Slots(gs) + |a.children|
  {
    assert (gs + [a])[..|gs|] == gs;
  }

  lemma SiteIs(opts: seq<Opt>, i: nat, group: nat)
    requires i < |opts|
    ensures SiteAt(opts, i, group) == Site(opts[i], Real(opts, i), group, i)
    ensures Real(opts, i) == if i == 0 || !opts[i].alias then opts[i] else Real(opts, i - 1)
  {
  }

  lemma RoomForSites(prefix: string, sites: seq<Site>, n: nat, szs: Sizes)
    requires |prefix| + |Text(sites)| <= szs.shortLen && |Longs(sites)| <= szs.longLen && n < |sites|
    ensures sites[..n] + [sites[n]] == sites[..n + 1]
    ensures |prefix| + |Text(sites[..n + 1])| <= szs.shortLen && |Longs(sites[..n + 1])| <= szs.longLen
  {
    hide Text, Longs;
    TextOfPrefix(sites, n + 1);
    LongsOfPrefix(sites, n + 1);
  }

  lemma RecordsKept(prefix: string, gs: seq<Argp>, ls: seq<Link>, a: Argp, l: Link)
    requires |ls| == |gs|
    ensures forall i :: 0 <= i < |gs| ==> GroupRecord(prefix, gs + [a], ls + [l], i) == GroupRecord(prefix, gs, ls, i)
  {
    forall i | 0 <= i < |gs|
      ensures GroupRecord(prefix, gs + [a], ls + [l], i) == GroupRecord(prefix, gs, ls, i)
    {
      assert (gs + [a])[..i + 1] == gs[..i + 1] && (gs + [a])[..i] == gs[..i];
    }
  }

  lemma RoomForPart(prefix: string, gs: seq<Argp>, part: seq<Argp>, rest: seq<Argp>, szs: Sizes)
    requires Room(prefix, gs + (part + rest), szs)
    ensures Room(prefix, gs + part, szs)
  {
    hide Room;
    RoomForPrefix(prefix, gs + (part + rest), |gs + part|, szs);
    assert (gs + (part + rest))[..|gs + part|] == gs + part;
  }

  lemma {:induction false} BelowIsPrefix(a: Argp, i: nat, k: nat)
    requires i <= k <= |a.children|
    ensures PreorderBelow(a, i) <= PreorderBelow(a, k)
  {
    if i < k {
      BelowIsPrefix(a, i, k - 1);
    }
  }

  function Own(a: Argp): seq<Argp> {
    if IsGroup(a) then [a] else []
  }

  function OwnLink(a: Argp, parent: int, index: nat): seq<Link> {
    if IsGroup(a) then [Link(parent, index)] else []
  }

  lemma RoomForOwn(prefix: string, gs: seq<Argp>, a: Argp, szs: Sizes)
    requires Room(prefix, gs + Preorder(a), szs)
    ensures Room(prefix, gs + Own(a), szs)
  {
    hide Room;
    RoomForPart(prefix, gs, Own(a), PreorderBelow(a, |a.children|), szs);
  }

  lemma RoomForNext(
    prefix: string, gs: seq<Argp>, own: seq<Argp>, part: seq<Argp>, next: seq<Argp>, all: seq<Argp>, szs: Sizes)
    requires part + next <= all && Room(prefix, gs + (own + all), szs)
    ensures Room(prefix, gs + own + part + next, szs)
  {
    hide Room;
    var rest := all[|part + next|..];
    assert all == (part + next) + rest;
    assert own + all == (own + (part + next)) + rest;
    RoomForPart(prefix, gs, own + (part + next), rest, szs);
    assert gs + (own + (part + next)) == gs + own + part + next;
  }

  lemma RoomForChild(prefix: string, gs: seq<Argp>, a: Argp, i: nat, szs: Sizes)
    requires i < |a.children| && Room(prefix, gs + Preorder(a), szs)
    ensures Room(prefix, gs + Own(a) + PreorderBelow(a, i) + Preorder(a.children[i]), szs)
  {
    hide Room;
    BelowIsPrefix(a, i + 1, |a.children|);
    RoomForNext(prefix, gs, Own(a), PreorderBelow(a, i), Preorder(a.children[i]), PreorderBelow(a, |a.children|), szs);
  }

  lemma NoneBelow(a: Argp, parent: int, gs: seq<Argp>, ls: seq<Link>)
    ensures gs + PreorderBelow(a, 0) == gs && ls + LinksBelow(a, parent, |gs|, 0) == ls
  {
  }

  lemma OneMoreBelow(a: Argp, parent: int, gs: seq<Argp>, ls: seq<Link>, i: nat)
    requires i < |a.children|
    ensures gs + PreorderBelow(a, i) + Preorder(a.children[i]) == gs + PreorderBelow(a, i + 1)
    ensures ls + LinksBelow(a, parent, |gs|, i) + Links(a.children[i], parent, i, |gs + PreorderBelow(a, i)|)
      == ls + LinksBelow(a, parent, |gs|, i + 1)
  {
    var c, n := a.children[i], |gs|;
    assert PreorderBelow(a, i + 1) == PreorderBelow(a, i) + Preorder(c);
    assert LinksBelow(a, parent, n, i + 1)
      == LinksBelow(a, parent, n, i) + Links(c, parent, i, n + |PreorderBelow(a, i)|);
    hide PreorderBelow, Preorder, LinksBelow, Links;
    Associates(gs, PreorderBelow(a, i), Preorder(c));
    Associates(ls, LinksBelow(a, parent, n, i), Links(c, parent, i, n + |PreorderBelow(a, i)|));
  }

  lemma Associates<T>(a: seq<T>, b: seq<T>, c: seq<T>)
    ensures a + b + c == a + (b + c)
  {
  }

  lemma AllBelow(a: Argp, parent: int, index: nat, gs: seq<Argp>, ls: seq<Link>)
    ensures var n, next := |a.children|, if IsGroup(a) then |gs| else -1;
      && gs + Own(a) + PreorderBelow(a, n) == gs + Preorder(a)
      && ls + OwnLink(a, parent, index) + LinksBelow(a, next, |gs + Own(a)|, n)
        == ls + Links(a, parent, index, |gs|)
  {
  }

  /** A parser's cursors, from its invariant. */
  lemma CountIs(p: Parser)
    requires p.Valid()
    ensures p.groupEnd == |p.done|
  {
  }

  lemma LastEnd(prefix: string, gs: seq<Argp>)
    requires gs != []
    ensures ShortEnd(prefix, gs, |gs| - 1) == |prefix| + |Text(AllSites(gs))|
  {
    assert gs[..|gs|] == gs;
  }

  /** No character ends the string early. */
  predicate Clean(s: string) {
    '\0' !in s
  }

  /** No short option is the null character, which would end the string. */
  lemma NoNull(sites: seq<Site>)
    ensures '\0' !in Text(sites)
  {
    hide Text;
    TextHolds(sites, '\0');
  }

  lemma EndIs(p: Parser)
    requires p.Valid()
    ensures p.shortEnd == |p.prefix| + |Text(p.sites)|
  {
  }

  /** struct parser and the cursors of struct parser_convert_state. */
  class Parser {
    const szs: Sizes
    const shortOpts: array<char>
    const longOpts: array<LongSlot>
    const groups: array<Group>
    var shortEnd: nat
    var longEnd: nat
    var groupEnd: nat
    var childInputsEnd: nat
    ghost const prefix: string
    ghost var sites: seq<Site>
    ghost var done: seq<Argp>
    ghost var links: seq<Link>

    /** The storage parser_init allocates, and the start of parser_convert. */
    constructor (szs: Sizes, prefix: string)
      requires |prefix| <= szs.shortLen && '\0' !in prefix
      ensures this.szs == szs && this.prefix == prefix && sites == [] && done == [] && links == []
      ensures Valid() && fresh(shortOpts) && fresh(longOpts) && fresh(groups)
    {
      this.szs, this.prefix := szs, prefix;
      var short := new char[szs.shortLen + 1](i requires 0 <= i => if i < |prefix| then prefix[i] else '\0');
      shortOpts, shortEnd := short, |prefix|;
      longOpts, longEnd := new LongSlot[szs.longLen + 1](_ => Null), 0;
      groups, groupEnd := new Group[szs.groups + 1], 0;
      childInputsEnd := 0;
      sites, done, links := [], [], [];
      new;
      assert shortOpts[..shortEnd] == prefix + Text([]);
    }

    ghost predicate Shaped() {
      && shortOpts.Length == szs.shortLen + 1 && Clean(prefix)
      && longOpts.Length == szs.longLen + 1
      && groups.Length == szs.groups + 1
    }

    ghost predicate ShortsAre(text: string)
      reads this`shortEnd, shortOpts
    {
      shortEnd < shortOpts.Length && shortOpts[..shortEnd] == text && shortOpts[shortEnd] == '\0'
    }

    ghost predicate LongsAre(ls: seq<LongOption>)
      reads this`longEnd, longOpts
    {
      && longEnd == |ls| < longOpts.Length && longOpts[longEnd] == Null
      && forall i :: 0 <= i < |ls| ==> longOpts[i] == Named(ls[i])
    }

    ghost predicate GroupsAre(gs: seq<Argp>, ls: seq<Link>)
      reads this`groupEnd, this`childInputsEnd, groups
    {
      && groupEnd == |gs| == |ls| < groups.Length
      && childInputsEnd == Slots(gs) <= szs.childInputs
      && forall i :: 0 <= i < |gs| ==> groups[i] == GroupRecord(prefix, gs, ls, i)
    }

    /** What has been converted so far is in the tables, which are ended properly. */
    ghost predicate Valid()
      reads this, shortOpts, longOpts, groups
    {
      Shaped() && ShortsAre(prefix + Text(sites)) && LongsAre(Longs(sites)) && GroupsAre(done, links)
    }

    method Put(c: char)
      requires shortEnd < shortOpts.Length
      modifies this`shortEnd, shortOpts
      ensures shortEnd == old(shortEnd) + 1
      ensures shortOpts[..shortEnd] == old(shortOpts[..shortEnd]) + [c]
    {
      shortOpts[shortEnd] := c;
      shortEnd := shortEnd + 1;
    }

    /** Adds the short option of an entry, and marks for its argument. */
    method AddShort(site: Site, ghost text: string)
      requires ShortsAre(text) && |text| + |ShortText(site)| < shortOpts.Length
      modifies this`shortEnd, shortOpts
      ensures ShortsAre(text + ShortText(site))
    {
      if !site.of.doc && IsShort(site.opt) {
        Put(site.opt.key as char);
        if site.of.arg {
          Put(':');
          if site.of.argOptional {
            Put(':');
          }
        }
        shortOpts[shortEnd] := '\0';
      }
      assert shortOpts[..shortEnd] == text + ShortText(site);
    }

    /** Adds the long option of an entry unless the name is taken. */
    method AddLong(site: Site, ghost ls: seq<LongOption>)
      requires LongsAre(ls)
      requires Long(site) && !Listed(ls, site.opt.name.value) ==> |ls| + 1 < longOpts.Length
      modifies this`longEnd, longOpts
      ensures LongsAre(if Long(site) && !Listed(ls, site.opt.name.value) then ls + [LongEntry(site)] else ls)
    {
      if !site.of.doc && site.opt.name.Some? {
        var i := FindLongOption(longOpts, site.opt.name.value, ls);
        if i < 0 {
          var hasArg := if site.of.arg then (if site.of.argOptional then 2 else 1) else 0;
          var key := if site.opt.key != 0 then site.opt.key else site.of.key;
          longOpts[longEnd] := Named(LongOption(site.opt.name.value, hasArg, None, Encode(key, site.group)));
          longEnd := longEnd + 1;
          longOpts[longEnd] := Null;
        }
      }
    }

    /** One turn of the loop over an option table. */
    method AddSite(site: Site)
      requires Valid() && |prefix| + |Text(sites + [site])| <= szs.shortLen && |Longs(sites + [site])| <= szs.longLen
      modifies this`shortEnd, this`longEnd, this`sites, shortOpts, longOpts
      ensures Valid() && sites == old(sites) + [site]
    {
      hide Text, ShortText, LongEntry, Listed;
      ghost var was := sites;
      TextAdds(sites, [site]);
      TextOfOne(site);
      LongsStep(sites, site);
      AddShort(site, prefix + Text(sites));
      AddLong(site, Longs(sites));
      sites := sites + [site];
      Reassociate(prefix, Text(was), ShortText(site));
    }

    /** All that has been converted belongs to groups that are finished. */
    ghost predicate Settled()
      reads this, shortOpts, longOpts, groups
    {
      Valid() && sites == AllSites(done)
    }

    /** The loop over an option table, with the most recent option that is not an alias. */
    method ConvertTable(a: Argp)
      requires Settled() && Room(prefix, done + [a], szs)
      modifies this`shortEnd, this`longEnd, this`sites, shortOpts, longOpts
      ensures Valid() && sites == AllSites(done + [a])
    {
      hide Text, Longs, AllSites, NumOptions, SiteAt, GroupsAre, ShortsAre, LongsAre, Slots;
      ghost var table, n, all := Table(a), |done|, AllSites(done + [a]);
      SitesStep(done, a);
      var i := 0;
      if a.options.Some? && a.options.value != [] {
        var opts := a.options.value;
        var last := opts[0];
        while i < |opts|
          invariant i <= |opts| && last == if i == 0 then opts[0] else Real(opts, i - 1)
          invariant Valid() && sites == all[..|all| - |opts| + i]
        {
          if !opts[i].alias {
            last := opts[i];
          }
          RoomForSites(prefix, all, |all| - |opts| + i, szs);
          SiteIs(opts, i, groupEnd);
          assert groupEnd == n by {
            CountIs(this);
          }
          AddSite(Site(opts[i], last, groupEnd, i));
          i := i + 1;
        }
      }
    }

    /** Fills in the next group. */
    method PushGroup(a: Argp, parent: int, index: nat)
      requires Valid() && sites == AllSites(done + [a]) && Room(prefix, done + [a], szs)
      modifies this`groupEnd, this`childInputsEnd, this`done, this`links, groups
      ensures Settled() && done == old(done) + [a] && links == old(links) + [Link(parent, index)]
    {
      hide Text, Longs, AllSites, NumOptions, ShortsAre, LongsAre, Clean, ShortEnd;
      ghost var gs, ls := done + [a], links + [Link(parent, index)];
      SlotsStep(done, a);
      EndIs(this);
      groups[groupEnd] := Group(a, parent, index, shortEnd, childInputsEnd);
      RecordsKept(prefix, done, links, a, Link(parent, index));
      LastEnd(prefix, gs);
      assert gs[..|done| + 1] == gs && gs[..|done|] == done;
      groupEnd, childInputsEnd := groupEnd + 1, childInputsEnd + |a.children|;
      done, links := gs, ls;
    }

    /** The part of convert_options before the children; the result is the parent group for them. */
    method ConvertOwn(a: Argp, parent: int, index: nat) returns (next: int)
      requires Settled() && Room(prefix, done + Own(a), szs)
      modifies this, shortOpts, longOpts, groups
      ensures Settled() && done == old(done) + Own(a)
      ensures links == old(links) + OwnLink(a, parent, index)
      ensures next == if IsGroup(a) then |old(done)| else -1
    {
      hide Valid, Room, AllSites;
      next := -1;
      if IsGroup(a) {
        next := groupEnd;
        CountIs(this);
        ConvertTable(a);
        PushGroup(a, parent, index);
      }
    }

    /** convert_options: the tree is walked once and all tables are filled in its preorder. */
    method ConvertOptions(a: Argp, parent: int, index: nat)
      requires Settled() && Room(prefix, done + Preorder(a), szs)
      modifies this, shortOpts, longOpts, groups
      ensures Settled() && done == old(done) + Preorder(a)
      ensures links == old(links) + Links(a, parent, index, |old(done)|)
      decreases a
    {
      hide Settled, Room, Preorder, PreorderBelow, Links, LinksBelow, Own, OwnLink;
      ghost var gs, ls := done, links;
      RoomForOwn(prefix, gs, a, szs);
      var next := ConvertOwn(a, parent, index);
      ghost var gs1, ls1 := done, links;
      var i := 0;
      NoneBelow(a, next, gs1, ls1);
      while i < |a.children|
        invariant i <= |a.children|
        invariant Settled() && done == gs1 + PreorderBelow(a, i)
        invariant links == ls1 + LinksBelow(a, next, |gs1|, i)
      {
        RoomForChild(prefix, gs, a, i, szs);
        OneMoreBelow(a, next, gs1, ls1, i);
        ConvertOptions(a.children[i], next, i);
        i := i + 1;
      }
      AllBelow(a, parent, index, gs, ls);
    }

    /** strchr in the option string. */
    method FindChar(c: char) returns (position: nat, found: bool)
      requires Valid() && c != '\0'
      ensures var text := prefix + Text(sites); var t := From(text, c);
        found == (t != "") && (found ==> |t| <= |text| && position == |text| - |t|)
    {
      hide Text, Longs, Slots;
      position := 0;
      ghost var text := prefix + Text(sites);
      EndIs(this);
      NoNull(sites);
      assert text[0..] == text;
      while shortOpts[position] != '\0' && shortOpts[position] != c
        invariant position <= |text| && From(text, c) == From(text[position..], c)
        decreases |text| - position
      {
        assert shortOpts[position] == text[position] && text[position..][1..] == text[position + 1..];
        position := position + 1;
      }
      assert position < |text| ==> shortOpts[position] == text[position];
      found := shortOpts[position] == c;
    }

    /** The dispatch of parser_parse_opt: the group to call and the key to call it with. */
    method ParseOpt(opt: int) returns (group: Option<nat>, key: int)
      requires Settled()
      requires 0 < opt < 256 || 0 < GroupKey(opt) <= |done|
      ensures GroupKey(opt) == 0 ==> key == opt
      ensures GroupKey(opt) == 0 ==>
        group == ShortGroup(prefix + Text(AllSites(done)), ShortEnds(prefix, done), opt as char)
      ensures GroupKey(opt) != 0 ==> group == Some(GroupKey(opt) - 1) && key == UserKey(opt)
    {
      hide Text, Longs, Slots, AllSites, ShortEnd;
      group, key := None, opt;
      var groupKey := GroupKey(opt);
      if groupKey != 0 {
        return Some(groupKey - 1), UserKey(opt);
      }
      var position, found := FindChar(opt as char);
      if found {
        ghost var ends := ShortEnds(prefix, done);
        var g := 0;
        while g < groupEnd
          invariant g <= groupEnd == |ends| && FirstBehind(ends, position, 0) == FirstBehind(ends, position, g)
        {
          assert groups[g].shortEnd == ends[g];
          if groups[g].shortEnd > position {
            return Some(g), opt;
          }
          g := g + 1;
        }
      }
    }
  }

  lemma NothingLinked()
    ensures Text([]) == "" && AllSites([]) == [] && NumOptions([]) == 0 && AllLinked([], [])
  {
  }

  /** parser_init up to the calls of the parsers: the space is counted, allocated and filled, and suffices but for the
      case in which the prefix has no room. */
  method ParserInit(argp: Option<Argp>, inOrder: bool, noArgs: bool) returns (p: Parser)
    requires var gs := if argp.Some? then Preorder(argp.value) else [];
      !(noArgs && |Text(AllSites(gs))| == 3 * NumOptions(gs))
    ensures fresh(p) && p.Settled() && p.prefix == Prefix(inOrder, noArgs)
    ensures p.done == (if argp.Some? then Preorder(argp.value) else [])
    ensures AllLinked(p.done, p.links) && Apart(p.links)
  {
    hide Text, AllSites, NumOptions, Preorder, Links, Longs, Slots, AllLinked;
    var szs := InitialSizes(noArgs);
    ghost var gs := if argp.Some? then Preorder(argp.value) else [];
    if argp.Some? {
      szs := CalcSizes(argp.value, szs);
      SpaceSuffices(argp.value, inOrder, noArgs);
    }
    NothingLinked();
    p := new Parser(szs, if inOrder then "-" else if noArgs then "+" else "");
    if argp.Some? {
      assert p.done + gs == gs;
      p.ConvertOptions(argp.value, -1, 0);
      ParentsAreLinked(argp.value, -1, 0, [], []);
      LinksAreApart(argp.value, -1, 0, 0);
      assert [] + gs == gs && [] + Links(argp.value, -1, 0, 0) == Links(argp.value, -1, 0, 0);
    }
  }
}
