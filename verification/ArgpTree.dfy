/** Trees of option tables, and what flattening one into getopt tables means: src/gnu/argp-parse.c. */
module ArgpTree {
  import opened GetoptSpec

  /** struct argp_option, without the fields that only help texts use. */
  datatype Opt = Opt(name: Option<string>, key: int, arg: bool, argOptional: bool, alias: bool, doc: bool)

  /** struct argp: the option table up to its end marker if there is one, whether there is a parser, and the
      children. */
  datatype Argp = Argp(options: Option<seq<Opt>>, parser: bool, children: seq<Argp>)

  function Table(a: Argp): seq<Opt> {
    if a.options.Some? then a.options.value else []
  }

  /** The argps that get a group of their own. */
  predicate IsGroup(a: Argp) {
    a.options.Some? || a.parser
  }

  /** __option_is_short, in the C locale. */
  predicate IsShort(o: Opt) {
    !o.doc && ' ' as int <= o.key <= '~' as int
  }

  // ---------------------------------------------------------------- the groups of a tree

  /** The groups of a tree, each before those below it. */
  function Preorder(a: Argp): seq<Argp>
    decreases a, |a.children| + 1
  {
    (if IsGroup(a) then [a] else []) + PreorderBelow(a, |a.children|)
  }

  /** The groups of the first k children. */
  function PreorderBelow(a: Argp, k: nat): seq<Argp>
    requires k <= |a.children|
    decreases a, k
  {
    if k == 0 then [] else PreorderBelow(a, k - 1) + Preorder(a.children[k - 1])
  }

  /** A group's parent group, or -1, and its place among the children of that. */
  datatype Link = Link(parent: int, index: nat)

  /** The links of the groups of a tree whose first group gets the number `base`. */
  function Links(a: Argp, parent: int, index: nat, base: nat): (ls: seq<Link>)
    ensures |ls| == |Preorder(a)|
    decreases a, |a.children| + 1
  {
    if IsGroup(a) then [Link(parent, index)] + LinksBelow(a, base, base + 1, |a.children|)
    else LinksBelow(a, -1, base, |a.children|)
  }

  function LinksBelow(a: Argp, parent: int, base: nat, k: nat): (ls: seq<Link>)
    requires k <= |a.children|
    ensures |ls| == |PreorderBelow(a, k)|
    decreases a, k
  {
    if k == 0 then []
    else
      LinksBelow(a, parent, base, k - 1)
        + Links(a.children[k - 1], parent, k - 1, base + |PreorderBelow(a, k - 1)|)
  }

  predicate LeadsTo(gs: seq<Argp>, l: Link, a: Argp) {
    0 <= l.parent < |gs| && l.index < |gs[l.parent].children| && gs[l.parent].children[l.index] == a
  }

  /** A link leads to an earlier group that has this one as the child of that number. */
  predicate Linked(gs: seq<Argp>, ls: seq<Link>, i: nat)
    requires |ls| == |gs| && i < |gs|
  {
    ls[i].parent == -1 || (ls[i].parent < i && LeadsTo(gs, ls[i], gs[i]))
  }

  predicate AllLinked(gs: seq<Argp>, ls: seq<Link>) {
    |ls| == |gs| && forall i :: 0 <= i < |gs| ==> Linked(gs, ls, i)
  }

  lemma LinkOne(gs: seq<Argp>, ls: seq<Link>, a: Argp, l: Link)
    requires AllLinked(gs, ls)
    requires l.parent == -1 || LeadsTo(gs, l, a)
    ensures AllLinked(gs + [a], ls + [l])
  {
    forall i | 0 <= i < |gs + [a]|
      ensures Linked(gs + [a], ls + [l], i)
    {
      if i < |gs| {
        assert Linked(gs, ls, i);
      }
    }
  }

  /** Every parent link is right: the input of a child is looked for in the child's own slot of an earlier group. */
  lemma {:induction false} ParentsAreLinked(a: Argp, parent: int, index: nat, gs: seq<Argp>, ls: seq<Link>)
    requires AllLinked(gs, ls)
    requires parent == -1 || (0 <= parent < |gs| && index < |gs[parent].children| && gs[parent].children[index] == a)
    ensures AllLinked(gs + Preorder(a), ls + Links(a, parent, index, |gs|))
    decreases a, |a.children| + 1
  {
    hide AllLinked;
    var n := |gs|;
    assert |ls| == n by {
      LinkCount(gs, ls);
    }
    if IsGroup(a) {
      var gs1, ls1 := gs + [a], ls + [Link(parent, index)];
      LinkOne(gs, ls, a, Link(parent, index));
      ParentsBelowAreLinked(a, n, gs1, ls1, |a.children|);
      assert gs1 + PreorderBelow(a, |a.children|) == gs + Preorder(a);
      assert ls1 + LinksBelow(a, n, n + 1, |a.children|) == ls + Links(a, parent, index, n);
    } else {
      ParentsBelowAreLinked(a, -1, gs, ls, |a.children|);
      assert Preorder(a) == PreorderBelow(a, |a.children|);
      assert Links(a, parent, index, n) == LinksBelow(a, -1, n, |a.children|);
    }
  }

  lemma LinkCount(gs: seq<Argp>, ls: seq<Link>)
    requires AllLinked(gs, ls)
    ensures |ls| == |gs|
  {
  }

  lemma {:induction false} ParentsBelowAreLinked(a: Argp, parent: int, gs: seq<Argp>, ls: seq<Link>, k: nat)
    requires AllLinked(gs, ls) && k <= |a.children|
    requires parent == -1 || (0 <= parent < |gs| && gs[parent] == a)
    ensures AllLinked(gs + PreorderBelow(a, k), ls + LinksBelow(a, parent, |gs|, k))
    decreases a, k
  {
    hide AllLinked;
    if k == 0 {
      assert gs + PreorderBelow(a, k) == gs && ls + LinksBelow(a, parent, |gs|, k) == ls;
    } else {
      var gs1, ls1 := gs + PreorderBelow(a, k - 1), ls + LinksBelow(a, parent, |gs|, k - 1);
      var c := a.children[k - 1];
      ParentsBelowAreLinked(a, parent, gs, ls, k - 1);
      ParentsAreLinked(c, parent, k - 1, gs1, ls1);
      assert gs1 + Preorder(c) == gs + PreorderBelow(a, k);
      assert ls1 + Links(c, parent, k - 1, |gs1|) == ls + LinksBelow(a, parent, |gs|, k);
    }
  }

  /** No two groups have the same place below the same parent. */
  predicate Apart(ls: seq<Link>) {
    forall i, j :: 0 <= i < j < |ls| && ls[i].parent != -1 ==> ls[i] != ls[j]
  }

  predicate Within(l: Link, low: nat, high: nat) {
    l.parent == -1 || low <= l.parent < high
  }

  lemma {:induction false} LinksAreApart(a: Argp, parent: int, index: nat, base: nat)
    requires parent < base
    ensures var ls := Links(a, parent, index, base);
      Apart(ls) && forall i :: 0 <= i < |ls| ==> ls[i] == Link(parent, index) || Within(ls[i], base, base + |ls|)
    decreases a, |a.children| + 1
  {
    if IsGroup(a) {
      LinksBelowAreApart(a, base, base + 1, |a.children|);
    } else {
      LinksBelowAreApart(a, -1, base, |a.children|);
    }
  }

  lemma {:induction false} LinksBelowAreApart(a: Argp, parent: int, base: nat, k: nat)
    requires k <= |a.children| && -1 <= parent < base
    ensures var ls := LinksBelow(a, parent, base, k);
      && Apart(ls)
      && forall i :: 0 <= i < |ls| ==>
        (ls[i].parent == parent && ls[i].index < k) || Within(ls[i], base, base + |ls|)
    decreases a, k
  {
    if k > 0 {
      LinksBelowAreApart(a, parent, base, k - 1);
      LinksAreApart(a.children[k - 1], parent, k - 1, base + |PreorderBelow(a, k - 1)|);
    }
  }

  // ---------------------------------------------------------------- counting

  function NumOptions(gs: seq<Argp>): nat {
    if gs == [] then 0 else NumOptions(gs[..|gs| - 1]) + |Table(gs[|gs| - 1])|
  }

  /** The child-input slots the groups use. */
  function Slots(gs: seq<Argp>): nat {
    if gs == [] then 0 else Slots(gs[..|gs| - 1]) + |gs[|gs| - 1].children|
  }

  /** The argps below a. */
  function Descendants(a: Argp): nat
    decreases a, |a.children| + 1
  {
    DescendantsIn(a, |a.children|)
  }

  function DescendantsIn(a: Argp, k: nat): nat
    requires k <= |a.children|
    decreases a, k
  {
    if k == 0 then 0 else DescendantsIn(a, k - 1) + Descendants(a.children[k - 1]) + 1
  }

  lemma {:induction false} CountsAdd(gs: seq<Argp>, hs: seq<Argp>)
    ensures NumOptions(gs + hs) == NumOptions(gs) + NumOptions(hs) && Slots(gs + hs) == Slots(gs) + Slots(hs)
  {
    if hs == [] {
      assert gs + hs == gs;
    } else {
      var init := hs[..|hs| - 1];
      CountsAdd(gs, init);
      assert (gs + hs)[..|gs + hs| - 1] == gs + init;
    }
  }

  /** The groups' slots are among those counted, one for every argp below the root. */
  lemma {:induction false} SlotsSuffice(a: Argp)
    ensures Slots(Preorder(a)) <= Descendants(a)
    decreases a, |a.children| + 1
  {
    SlotsBelow(a, |a.children|);
    if IsGroup(a) {
      CountsAdd([a], PreorderBelow(a, |a.children|));
      assert [a][..0] == [];
    } else {
      assert Preorder(a) == PreorderBelow(a, |a.children|);
    }
  }

  lemma {:induction false} SlotsBelow(a: Argp, k: nat)
    requires k <= |a.children|
    ensures Slots(PreorderBelow(a, k)) + k <= DescendantsIn(a, k)
    decreases a, k
  {
    if k > 0 {
      SlotsBelow(a, k - 1);
      SlotsSuffice(a.children[k - 1]);
      CountsAdd(PreorderBelow(a, k - 1), Preorder(a.children[k - 1]));
    }
  }

  lemma {:induction false} FewerSlots(gs: seq<Argp>, m: nat, n: nat)
    requires m <= n <= |gs|
    ensures Slots(gs[..m]) <= Slots(gs[..n])
  {
    if m < n {
      FewerSlots(gs, m, n - 1);
      assert gs[..n][..n - 1] == gs[..n - 1];
    }
  }

  /** The slot in which a group looks for its input: the one that its parent has for it. */
  function InputSlot(gs: seq<Argp>, l: Link): nat
    requires 0 <= l.parent < |gs|
  {
    Slots(gs[..l.parent]) + l.index
  }

  lemma SlotOfParent(gs: seq<Argp>, l: Link)
    requires 0 <= l.parent < |gs| && l.index < |gs[l.parent].children|
    ensures InputSlot(gs, l) < Slots(gs[..l.parent + 1]) <= Slots(gs)
  {
    FewerSlots(gs, l.parent + 1, |gs|);
    assert gs[..|gs|] == gs && gs[..l.parent + 1][..l.parent] == gs[..l.parent];
  }

  /** Every group with a parent has an input slot of its own. */
  lemma InputSlotsAreApart(gs: seq<Argp>, ls: seq<Link>, i: nat, j: nat)
    requires AllLinked(gs, ls) && Apart(ls) && i < j < |gs| && ls[i].parent != -1 && ls[j].parent != -1
    ensures Linked(gs, ls, i) && InputSlot(gs, ls[i]) < Slots(gs)
    ensures Linked(gs, ls, j) && InputSlot(gs, ls[j]) < Slots(gs)
    ensures InputSlot(gs, ls[i]) != InputSlot(gs, ls[j])
  {
    hide Slots;
    var l, m := ls[i], ls[j];
    assert Linked(gs, ls, i) && Linked(gs, ls, j);
    SlotOfParent(gs, l);
    SlotOfParent(gs, m);
    if l.parent < m.parent {
      FewerSlots(gs, l.parent + 1, m.parent);
    } else if m.parent < l.parent {
      FewerSlots(gs, m.parent + 1, l.parent);
    }
  }

  // ---------------------------------------------------------------- the options of a tree

  /** The option that entry i of a table is an alias of, which is itself if it is not an alias. */
  function Real(table: seq<Opt>, i: nat): Opt
    requires i < |table|
  {
    if i == 0 || !table[i].alias then table[i] else Real(table, i - 1)
  }

  /** An entry of an option table: the entry, what it is an alias of, and where it stands. */
  datatype Site = Site(opt: Opt, of: Opt, group: nat, at: nat)

  function SiteAt(table: seq<Opt>, at: nat, group: nat): Site
    requires at < |table|
  {
    Site(table[at], Real(table, at), group, at)
  }

  function SitesOf(table: seq<Opt>, k: nat, group: nat): seq<Site>
    requires k <= |table|
  {
    seq(k, i requires 0 <= i < k => SiteAt(table, i, group))
  }

  /** All entries of all groups, in order. */
  function AllSites(gs: seq<Argp>): (s: seq<Site>)
    ensures |s| == NumOptions(gs)
  {
    if gs == [] then []
    else
      var g := gs[|gs| - 1];
      AllSites(gs[..|gs| - 1]) + SitesOf(Table(g), |Table(g)|, |gs| - 1)
  }

  lemma SitesEnd(gs: seq<Argp>)
    requires gs != []
    ensures var init, g := gs[..|gs| - 1], gs[|gs| - 1];
      && AllSites(gs) == AllSites(init) + SitesOf(Table(g), |Table(g)|, |init|)
      && NumOptions(gs) == NumOptions(init) + |Table(g)|
  {
  }

  /** Where the entries of a group stand among all entries. */
  lemma {:induction false} SiteIndex(gs: seq<Argp>, g: nat, at: nat)
    requires g < |gs| && at < |Table(gs[g])|
    ensures var i := NumOptions(gs[..g]) + at;
      i < NumOptions(gs[..g + 1]) <= NumOptions(gs) && AllSites(gs)[i] == SiteAt(Table(gs[g]), at, g)
  {
    hide SiteAt, AllSites, NumOptions;
    var init := gs[..|gs| - 1];
    SitesEnd(gs);
    if g < |init| {
      SiteIndex(init, g, at);
      assert init[..g] == gs[..g];
      assert init[..g + 1] == gs[..g + 1];
    } else {
      assert gs[..g] == init;
      assert gs[..g + 1] == gs;
    }
  }

  lemma {:induction false} SiteOrigin(gs: seq<Argp>, i: nat)
    requires i < NumOptions(gs)
    ensures var s := AllSites(gs)[i];
      && s.group < |gs| && s.at < |Table(gs[s.group])| && s == SiteAt(Table(gs[s.group]), s.at, s.group)
      && i == NumOptions(gs[..s.group]) + s.at
  {
    var init := gs[..|gs| - 1];
    if i < NumOptions(init) {
      SiteOrigin(init, i);
      var s := AllSites(init)[i];
      assert init[..s.group] == gs[..s.group];
    }
  }

  /** The entries of the first groups are the first entries. */
  lemma {:induction false} SitesPrefix(gs: seq<Argp>, n: nat)
    requires n <= |gs|
    ensures NumOptions(gs[..n]) <= NumOptions(gs) && AllSites(gs[..n]) == AllSites(gs)[..NumOptions(gs[..n])]
    ensures Slots(gs[..n]) <= Slots(gs)
  {
    if n == |gs| {
      assert gs[..n] == gs;
    } else {
      var init := gs[..|gs| - 1];
      SitesPrefix(init, n);
      assert init[..n] == gs[..n];
    }
  }

  lemma GroupOfSite(gs: seq<Argp>, i: nat, n: nat)
    requires i < NumOptions(gs) && n <= |gs|
    ensures AllSites(gs)[i].group < n <==> i < NumOptions(gs[..n])
  {
    hide AllSites, NumOptions, SiteAt, Slots;
    SiteOrigin(gs, i);
    var s := AllSites(gs)[i];
    SiteIndex(gs, s.group, s.at);
    if s.group < n {
      SitesPrefix(gs[..n], s.group + 1);
      assert gs[..n][..s.group + 1] == gs[..s.group + 1];
    } else {
      SitesPrefix(gs[..s.group], n);
      assert gs[..s.group][..n] == gs[..n];
    }
  }

  // ---------------------------------------------------------------- the short options

  /** The entry gives a short option. */
  predicate Short(s: Site) {
    !s.of.doc && IsShort(s.opt)
  }

  function SiteArity(s: Site): Arity {
    if !s.of.arg then NoArgument else if s.of.argOptional then Optionally else Required
  }

  function Colons(arity: Arity): string {
    match arity
    case Required => ":"
    case Optionally => "::"
    case _ => ""
  }

  /** What the entry adds to the option string. */
  function ShortText(s: Site): (t: string)
    ensures |t| <= 3 && (t == "" <==> !Short(s))
  {
    if Short(s) then [s.opt.key as char] + Colons(SiteArity(s)) else ""
  }

  function Text(sites: seq<Site>): string {
    if sites == [] then "" else Text(sites[..|sites| - 1]) + ShortText(sites[|sites| - 1])
  }

  lemma TextStep(sites: seq<Site>)
    requires sites != []
    ensures Text(sites) == Text(sites[..|sites| - 1]) + ShortText(sites[|sites| - 1])
  {
  }

  lemma Reassociate(a: string, b: string, c: string)
    ensures a + (b + c) == a + b + c
  {
  }

  lemma {:induction false} TextAdds(s: seq<Site>, t: seq<Site>)
    ensures Text(s + t) == Text(s) + Text(t)
  {
    hide ShortText, Text;
    if t == [] {
      assert s + t == s;
      TextOfNone();
    } else {
      var init, last := t[..|t| - 1], t[|t| - 1];
      TextAdds(s, init);
      TextStep(t);
      TextStep(s + t);
      assert (s + t)[..|s + t| - 1] == s + init;
      Reassociate(Text(s), Text(init), ShortText(last));
    }
  }

  lemma TextOfNone()
    ensures Text([]) == ""
  {
  }

  lemma TextOfOne(s: Site)
    ensures Text([s]) == ShortText(s)
  {
    assert [s][..0] == [];
  }

  lemma TextAround(before: seq<Site>, s: Site, after: seq<Site>)
    ensures Text((before + [s]) + after) == Text(before) + ShortText(s) + Text(after)
  {
    hide Text, ShortText;
    TextAdds(before + [s], after);
    TextAdds(before, [s]);
    TextOfOne(s);
  }

  lemma Cut<T>(s: seq<T>, i: nat)
    requires i < |s|
    ensures s == (s[..i] + [s[i]]) + s[i + 1..]
  {
  }

  lemma TextSplit(sites: seq<Site>, i: nat)
    requires i < |sites|
    ensures Text(sites) == Text(sites[..i]) + ShortText(sites[i]) + Text(sites[i + 1..])
  {
    hide Text, ShortText;
    var before, s, after := sites[..i], sites[i], sites[i + 1..];
    assert sites == (before + [s]) + after by {
      Cut(sites, i);
    }
    TextAround(before, s, after);
  }

  lemma TextOfPrefix(sites: seq<Site>, n: nat)
    requires n <= |sites|
    ensures |Text(sites[..n])| <= |Text(sites)|
  {
    hide Text;
    TextAdds(sites[..n], sites[n..]);
    assert sites == sites[..n] + sites[n..];
  }

  lemma {:induction false} TextBound(sites: seq<Site>)
    ensures |Text(sites)| <= 3 * |sites|
  {
    if sites != [] {
      TextBound(sites[..|sites| - 1]);
    }
  }

  predicate Declares(s: Site, c: char) {
    Short(s) && s.opt.key == c as int
  }

  predicate FirstToDeclare(sites: seq<Site>, c: char, i: nat)
    requires i < |sites|
  {
    Declares(sites[i], c) && forall j :: 0 <= j < i ==> !Declares(sites[j], c)
  }

  lemma ColonsOnly(arity: Arity, c: char)
    requires c in Colons(arity)
    ensures c == ':'
  {
  }

  lemma ShortTextHolds(s: Site, c: char)
    requires c != ':'
    ensures c in ShortText(s) <==> Declares(s, c)
    ensures Declares(s, c) ==> ShortText(s)[0] == c
  {
    if c in ShortText(s) {
      if c != s.opt.key as char {
        assert c in Colons(SiteArity(s));
        ColonsOnly(SiteArity(s), c);
      }
    }
  }

  /** A character other than the colon is in the option string just when some entry declares it. */
  lemma {:induction false} TextHolds(sites: seq<Site>, c: char)
    requires c != ':'
    ensures c in Text(sites) <==> exists i :: 0 <= i < |sites| && Declares(sites[i], c)
  {
    if sites == [] {
      TextOfNone();
    } else {
      var init, last := sites[..|sites| - 1], sites[|sites| - 1];
      TextHolds(init, c);
      ShortTextHolds(last, c);
      TextStep(sites);
      hide Text, ShortText, Declares;
      if i :| 0 <= i < |init| && Declares(init[i], c) {
        assert Declares(sites[i], c);
      }
      if i :| 0 <= i < |sites| && Declares(sites[i], c) {
        assert i < |init| ==> init[i] == sites[i];
      }
    }
  }

  lemma {:induction false} FromFirst(s: string, c: char, t: string)
    requires c !in s && t != "" && t[0] == c
    ensures From(s + t, c) == t
  {
    if s == "" {
      assert s + t == t;
    } else {
      assert (s + t)[1..] == s[1..] + t;
      FromFirst(s[1..], c, t);
    }
  }


  /** A search in the option string, behind its prefix, ends at the first entry that declares the character. */
  lemma SearchFindsFirst(prefix: string, sites: seq<Site>, c: char, i: nat)
    requires c != ':' && c !in prefix && i < |sites| && FirstToDeclare(sites, c, i)
    ensures From(prefix + Text(sites), c) == ShortText(sites[i]) + Text(sites[i + 1..])
  {
    hide Text, ShortText;
    TextSplit(sites, i);
    TextHolds(sites[..i], c);
    ShortTextHolds(sites[i], c);
    var rest := ShortText(sites[i]) + Text(sites[i + 1..]);
    assert prefix + Text(sites) == (prefix + Text(sites[..i])) + rest;
    FromFirst(prefix + Text(sites[..i]), c, rest);
  }

  /** No entry has the colon, which getopt reserves, for its short option. */
  predicate NoColonKeys(sites: seq<Site>) {
    forall i :: 0 <= i < |sites| ==> !Declares(sites[i], ':')
  }

  lemma {:induction false} TextStartsWithKey(sites: seq<Site>)
    requires NoColonKeys(sites)
    ensures Text(sites) != "" ==> Text(sites)[0] != ':'
  {
    if sites != [] {
      var init := sites[..|sites| - 1];
      TextStartsWithKey(init);
      assert !Declares(sites[|sites| - 1], ':');
    }
  }

  /** getopt gives the option the argument that its first declaration asks for. */
  lemma ArityIsDeclared(sites: seq<Site>, longs: Option<seq<LongOption>>, longOnly: bool, c: char, i: nat)
    requires c != ':' && c != ';' && NoColonKeys(sites) && i < |sites| && FirstToDeclare(sites, c, i)
    ensures ArityOf(Config(Text(sites), longs, longOnly), c) == SiteArity(sites[i])
  {
    hide Text, ShortText, From;
    SearchFindsFirst("", sites, c, i);
    assert "" + Text(sites) == Text(sites);
    TextStartsWithKey(sites[i + 1..]);
    ArityOfText(sites[i], Text(sites[i + 1..]));
  }

  lemma ArityOfText(s: Site, rest: string)
    requires Short(s) && (rest == "" || rest[0] != ':')
    ensures var t := ShortText(s) + rest;
      SiteArity(s)
        == if |t| < 2 || t[1] != ':' then NoArgument else if |t| < 3 || t[2] != ':' then Required else Optionally
  {
    var t := ShortText(s);
    assert |t| >= 2 ==> (t + rest)[1] == ':';
    assert |t| >= 3 ==> (t + rest)[2] == ':';
    assert rest != "" ==> (t + rest)[|t|] == rest[0];
  }

  lemma UndeclaredIsNoOption(sites: seq<Site>, longs: Option<seq<LongOption>>, longOnly: bool, c: char)
    requires c != ':' && forall i :: 0 <= i < |sites| ==> !Declares(sites[i], c)
    ensures ArityOf(Config(Text(sites), longs, longOnly), c) == NotAnOption
  {
    TextHolds(sites, c);
  }

  // ---------------------------------------------------------------- the group of a short option

  /** The short_end of group g: the end of its part of the option string. */
  function ShortEnd(prefix: string, gs: seq<Argp>, g: nat): nat
    requires g < |gs|
  {
    |prefix| + |Text(AllSites(gs[..g + 1]))|
  }

  function ShortEnds(prefix: string, gs: seq<Argp>): seq<nat> {
    seq(|gs|, g requires 0 <= g < |gs| => ShortEnd(prefix, gs, g))
  }

  /** The first group from g on whose part ends behind a position. */
  function FirstBehind(ends: seq<nat>, position: nat, g: nat): (r: nat)
    requires g <= |ends|
    ensures g <= r <= |ends| && (r < |ends| ==> ends[r] > position)
    ensures forall h :: g <= h < r ==> ends[h] <= position
    decreases |ends| - g
  {
    if g == |ends| || ends[g] > position then g else FirstBehind(ends, position, g + 1)
  }

  /** The group parser_parse_opt calls for a short option. */
  function ShortGroup(text: string, ends: seq<nat>, c: char): Option<nat> {
    var t := From(text, c);
    if t == "" || |t| > |text| then None
    else
      var g := FirstBehind(ends, |text| - |t|, 0);
      if g < |ends| then Some(g) else None
  }

  /** The part of group g ends behind entry i just when the entry is not of a later group. */
  lemma EndsBehind(prefix: string, gs: seq<Argp>, i: nat, g: nat)
    requires i < NumOptions(gs) && g < |gs| && Short(AllSites(gs)[i])
    ensures ShortEnd(prefix, gs, g) > |prefix| + |Text(AllSites(gs)[..i])| <==> AllSites(gs)[i].group <= g
  {
    hide Text, ShortText, Short, AllSites, NumOptions;
    var sites, n := AllSites(gs), NumOptions(gs[..g + 1]);
    GroupOfSite(gs, i, g + 1);
    SitesPrefix(gs, g + 1);
    if i < n {
      TextSplit(sites[..n], i);
      assert sites[..n][..i] == sites[..i];
    } else {
      TextOfPrefix(sites[..i], n);
      assert sites[..i][..n] == sites[..n];
    }
  }

  /** A short option goes to the group of its first declaration. */
  lemma ShortGoesToFirst(prefix: string, gs: seq<Argp>, c: char, i: nat)
    requires c != ':' && c !in prefix && i < NumOptions(gs) && FirstToDeclare(AllSites(gs), c, i)
    ensures ShortGroup(prefix + Text(AllSites(gs)), ShortEnds(prefix, gs), c) == Some(AllSites(gs)[i].group)
  {
    hide Text, ShortEnd, ShortText, AllSites, NumOptions, From, Short;
    var sites, ends := AllSites(gs), ShortEnds(prefix, gs);
    var text, t := prefix + Text(sites), From(prefix + Text(sites), c);
    SearchFindsFirst(prefix, sites, c, i);
    TextSplit(sites, i);
    var position := |text| - |t|;
    assert position == |prefix| + |Text(sites[..i])|;
    SiteOrigin(gs, i);
    var g, group := FirstBehind(ends, position, 0), sites[i].group;
    assert ends[group] == ShortEnd(prefix, gs, group);
    EndsBehind(prefix, gs, i, group);
    if g < |ends| {
      EndsBehind(prefix, gs, i, g);
    }
  }

  // ---------------------------------------------------------------- the long options

  const USER: int := 0x100_0000
  const WORD: int := 0x1_0000_0000

  /** The int that a number wraps around to. */
  function Wrapped(x: int): int {
    (x + WORD / 2) % WORD - WORD / 2
  }

  /** The value of a long option: the low 24 bits of the key, and the number of the group. */
  function Encode(key: int, group: nat): int {
    Wrapped(key % USER + (group + 1) * USER)
  }

  function GroupKey(val: int): int {
    val / USER
  }

  /** The shifts that recover the key and its sign. */
  function UserKey(val: int): int {
    Wrapped(val * 256) / 256
  }

  /** Group and key are recovered just when the key fits in 24 bits with its sign and there are few groups. */
  lemma EncodingIsExact(key: int, group: nat)
    ensures GroupKey(Encode(key, group)) == group + 1 && UserKey(Encode(key, group)) == key
      <==> -(USER / 2) <= key < USER / 2 && group + 1 < 128
  {
    var low := key % USER;
    var x := low + (group + 1) * USER;
    UserKeyOf(low, group + 1, x);
    WrappedGroup(low, group + 1);
  }

  lemma WrappedIs(x: int, k: int)
    requires -(WORD / 2) <= x - k * WORD < WORD / 2
    ensures Wrapped(x) == x - k * WORD
  {
  }

  lemma UserKeyOf(low: int, n: nat, x: int)
    requires 0 <= low < USER && x == low + n * USER
    ensures UserKey(Wrapped(x)) == if low < USER / 2 then low else low - USER
  {
    var k := (x + WORD / 2) / WORD;
    assert Wrapped(x) == x - k * WORD;
    var y := if low < USER / 2 then low else low - USER;
    var m := (if low < USER / 2 then n else n + 1) - 256 * k;
    assert Wrapped(x) * 256 == y * 256 + m * WORD;
    WrappedIs(Wrapped(x) * 256, m);
  }

  lemma WrappedGroup(low: int, n: nat)
    requires 0 <= low < USER && n > 0
    ensures GroupKey(Wrapped(low + n * USER)) == n <==> n < 128
  {
    if n < 128 {
      WrappedIs(low + n * USER, 0);
    } else {
      assert Wrapped(low + n * USER) < WORD / 2;
    }
  }

  /** The entry gives a long option. */
  predicate Long(s: Site) {
    !s.of.doc && s.opt.name.Some?
  }

  predicate Names(s: Site, name: string) {
    Long(s) && s.opt.name == Some(name)
  }

  /** An entry's own key, or that of the option it is an alias of. */
  function KeyOf(s: Site): int {
    if s.opt.key != 0 then s.opt.key else s.of.key
  }

  function HasArg(arity: Arity): int {
    match arity
    case Required => 1
    case Optionally => 2
    case _ => 0
  }

  function LongEntry(s: Site): LongOption
    requires Long(s)
  {
    LongOption(s.opt.name.value, HasArg(SiteArity(s)), None, Encode(KeyOf(s), s.group))
  }

  predicate Listed(longs: seq<LongOption>, name: string) {
    exists i :: 0 <= i < |longs| && longs[i].name == name
  }

  /** The long options: an entry whose name has already been listed adds nothing. */
  function Longs(sites: seq<Site>): (ls: seq<LongOption>)
    ensures |ls| <= |sites|
  {
    if sites == [] then []
    else
      var ls, s := Longs(sites[..|sites| - 1]), sites[|sites| - 1];
      if Long(s) && !Listed(ls, s.opt.name.value) then ls + [LongEntry(s)] else ls
  }

  lemma {:induction false} LongsOfPrefix(sites: seq<Site>, n: nat)
    requires n <= |sites|
    ensures |Longs(sites[..n])| <= |Longs(sites)|
  {
    if n == |sites| {
      assert sites[..n] == sites;
    } else {
      LongsOfPrefix(sites[..|sites| - 1], n);
      assert sites[..|sites| - 1][..n] == sites[..n];
    }
  }

  lemma {:induction false} FirstExactOfPrefix(ls: seq<LongOption>, l: LongOption, name: string, i: nat)
    requires i <= |ls|
    ensures var f := FirstExact(ls, name, i);
      FirstExact(ls + [l], name, i) == if f < |ls| then f else if l.name == name then |ls| else |ls| + 1
    decreases |ls| - i
  {
    if i < |ls| {
      FirstExactOfPrefix(ls, l, name, i + 1);
    }
  }

  /** The first entry to give the long name, or the number of entries. */
  function FirstNaming(sites: seq<Site>, name: string): (r: nat)
    ensures r <= |sites| && (r < |sites| ==> Names(sites[r], name))
    ensures forall i :: 0 <= i < r ==> !Names(sites[i], name)
  {
    if sites == [] then 0
    else
      var init := sites[..|sites| - 1];
      var r := FirstNaming(init, name);
      if r < |init| || Names(sites[|init|], name) then r else r + 1
  }

  /** The table holds the name just when some entry gives it, and then as its first entry does. */
  lemma {:induction false} LongIsFirst(sites: seq<Site>, name: string)
    ensures var ls, i := Longs(sites), FirstNaming(sites, name);
      var f := FirstExact(ls, name, 0);
      if i < |sites| then f < |ls| && ls[f] == LongEntry(sites[i]) else f == |ls|
  {
    hide LongEntry, FirstExact;
    if sites != [] {
      var init, s := sites[..|sites| - 1], sites[|sites| - 1];
      var ls := Longs(init);
      LongIsFirst(init, name);
      if Long(s) && !Listed(ls, s.opt.name.value) {
        EntryName(s);
        FirstExactOfPrefix(ls, LongEntry(s), name, 0);
      }
    }
  }

  lemma EntryName(s: Site)
    requires Long(s)
    ensures LongEntry(s).name == s.opt.name.value
  {
  }

  /** No name is listed twice. */
  lemma {:induction false} LongsAreDistinct(sites: seq<Site>)
    ensures forall i, j :: 0 <= i < j < |Longs(sites)| ==> Longs(sites)[i].name != Longs(sites)[j].name
  {
    if sites != [] {
      LongsAreDistinct(sites[..|sites| - 1]);
    }
  }

  // ---------------------------------------------------------------- what an entry means, said of its table

  /** Entry `at` stands for entry r: itself, or the option that the aliases up to it belong to. */
  predicate StandsFor(table: seq<Opt>, at: nat, r: nat) {
    r <= at < |table| && (r == 0 || !table[r].alias) && forall k :: r < k <= at ==> table[k].alias
  }

  lemma {:induction false} RealIs(table: seq<Opt>, at: nat) returns (r: nat)
    requires at < |table|
    ensures StandsFor(table, at, r) && Real(table, at) == table[r]
  {
    r := at;
    while r != 0 && table[r].alias
      invariant r <= at && Real(table, at) == Real(table, r) && forall k :: r < k <= at ==> table[k].alias
    {
      r := r - 1;
    }
  }

  lemma StandsForOne(table: seq<Opt>, at: nat, r: nat, r': nat)
    requires StandsFor(table, at, r) && StandsFor(table, at, r')
    ensures r == r'
  {
  }

  /** The entry gives a short option: neither it nor what it stands for is documentation, and its key is printable. */
  ghost predicate GivesShort(table: seq<Opt>, at: nat, c: char) {
    exists r: nat ::
      StandsFor(table, at, r) && !table[r].doc && !table[at].doc && table[at].key == c as int && ' ' <= c <= '~'
  }

  /** The entry gives a long option. */
  ghost predicate GivesLong(table: seq<Opt>, at: nat, name: string) {
    exists r: nat :: StandsFor(table, at, r) && !table[r].doc && table[at].name == Some(name)
  }

  /** The key that the parser is called with: the entry's own, or else that of the option it stands for. */
  ghost predicate HasKey(table: seq<Opt>, at: nat, key: int) {
    exists r: nat :: StandsFor(table, at, r) && key == if table[at].key != 0 then table[at].key else table[r].key
  }

  /** What the model makes of an entry is what its table says. */
  lemma EntryMeans(table: seq<Opt>, at: nat, g: nat, r: nat, c: char, name: string)
    requires StandsFor(table, at, r)
    ensures var s := SiteAt(table, at, g);
      && s.of == table[r]
      && (Declares(s, c) <==> GivesShort(table, at, c))
      && (Names(s, name) <==> GivesLong(table, at, name))
      && HasKey(table, at, KeyOf(s))
      && KeyOf(s) == (if table[at].key != 0 then table[at].key else table[r].key)
      && SiteArity(s)
        == (if !table[r].arg then NoArgument else if table[r].argOptional then Optionally else Required)
      && HasArg(SiteArity(s)) == (if !table[r].arg then 0 else if table[r].argOptional then 2 else 1)
  {
    var q := RealIs(table, at);
    StandsForOne(table, at, r, q);
    forall q: nat | StandsFor(table, at, q)
      ensures q == r
    {
      StandsForOne(table, at, r, q);
    }
  }

  // ---------------------------------------------------------------- which argps get a group

  /** All argps of a tree, each before those below it. */
  function AllArgps(a: Argp): seq<Argp>
    decreases a, |a.children| + 1
  {
    [a] + AllArgpsBelow(a, |a.children|)
  }

  function AllArgpsBelow(a: Argp, k: nat): seq<Argp>
    requires k <= |a.children|
    decreases a, k
  {
    if k == 0 then [] else AllArgpsBelow(a, k - 1) + AllArgps(a.children[k - 1])
  }

  /** Those with an option table or a parser. */
  function WithTableOrParser(s: seq<Argp>): seq<Argp> {
    if s == [] then []
    else
      var last := s[|s| - 1];
      WithTableOrParser(s[..|s| - 1]) + (if last.options.Some? || last.parser then [last] else [])
  }

  lemma {:induction false} FilterAdds(s: seq<Argp>, t: seq<Argp>)
    ensures WithTableOrParser(s + t) == WithTableOrParser(s) + WithTableOrParser(t)
  {
    if t == [] {
      assert s + t == s;
    } else {
      var init := t[..|t| - 1];
      FilterAdds(s, init);
      assert (s + t)[..|s + t| - 1] == s + init && (s + t)[|s + t| - 1] == t[|t| - 1];
    }
  }

  lemma FilterOne(a: Argp)
    ensures WithTableOrParser([a]) == if a.options.Some? || a.parser then [a] else []
  {
    assert [a][..0] == [];
  }

  /** The groups are the argps of the tree that have an option table or a parser, in order, and the inputs counted are
      as many as the argps below the root. */
  lemma {:induction false} GroupsAreArgps(a: Argp)
    ensures Preorder(a) == WithTableOrParser(AllArgps(a)) && Descendants(a) == |AllArgps(a)| - 1
    decreases a, |a.children| + 1
  {
    hide WithTableOrParser;
    GroupsBelowAreArgps(a, |a.children|);
    FilterAdds([a], AllArgpsBelow(a, |a.children|));
    FilterOne(a);
  }

  lemma {:induction false} GroupsBelowAreArgps(a: Argp, k: nat)
    requires k <= |a.children|
    ensures PreorderBelow(a, k) == WithTableOrParser(AllArgpsBelow(a, k))
    ensures DescendantsIn(a, k) == |AllArgpsBelow(a, k)|
    decreases a, k
  {
    if k > 0 {
      hide WithTableOrParser;
      GroupsBelowAreArgps(a, k - 1);
      GroupsAreArgps(a.children[k - 1]);
      FilterAdds(AllArgpsBelow(a, k - 1), AllArgps(a.children[k - 1]));
    }
  }
}
