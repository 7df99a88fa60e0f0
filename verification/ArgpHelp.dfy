/** The help option lists of src/gnu/argp-help.c: entries with slices of one string of short options, merged over a
    tree. */
module ArgpHelp {
  import opened GetoptSpec
  import opened ArgpTree

  // ---------------------------------------------------------------- the keys of an option list

  function Key(o: Opt): char
    requires IsShort(o)
  {
    o.key as char
  }

  /** The short options, each at its first occurrence only. */
  function Keys(opts: seq<Opt>): (u: string)
    ensures forall i :: 0 <= i < |u| ==> u[i] != '\0'
  {
    if opts == [] then ""
    else
      var u, o := Keys(opts[..|opts| - 1]), opts[|opts| - 1];
      if IsShort(o) && Key(o) !in u then u + [Key(o)] else u
  }

  /** Option k is the first of the list to have its key. */
  predicate IsFirst(opts: seq<Opt>, k: nat)
    requires k < |opts|
  {
    IsShort(opts[k]) && forall j :: 0 <= j < k && IsShort(opts[j]) ==> opts[j].key != opts[k].key
  }

  lemma KeysStep(opts: seq<Opt>, o: Opt)
    ensures Keys(opts + [o]) == if IsShort(o) && Key(o) !in Keys(opts) then Keys(opts) + [Key(o)] else Keys(opts)
  {
    assert (opts + [o])[..|opts|] == opts;
  }

  /** The keys are those of the short options. */
  lemma {:induction false} KeysAreDeclared(opts: seq<Opt>, c: char)
    ensures c in Keys(opts) <==> exists j :: 0 <= j < |opts| && IsShort(opts[j]) && Key(opts[j]) == c
  {
    if opts != [] {
      KeysAreDeclared(opts[..|opts| - 1], c);
    }
  }

  /** No key is listed twice. */
  lemma {:induction false} KeysAreDistinct(opts: seq<Opt>)
    ensures forall i, j :: 0 <= i < j < |Keys(opts)| ==> Keys(opts)[i] != Keys(opts)[j]
  {
    if opts != [] {
      KeysAreDistinct(opts[..|opts| - 1]);
    }
  }

  lemma {:induction false} KeysOfPrefix(opts: seq<Opt>, k: nat)
    requires k <= |opts|
    ensures Keys(opts[..k]) <= Keys(opts)
  {
    if k == |opts| {
      assert opts[..k] == opts;
    } else {
      KeysOfPrefix(opts[..|opts| - 1], k);
      assert opts[..|opts| - 1][..k] == opts[..k];
    }
  }

  lemma FirstIsNew(opts: seq<Opt>, k: nat)
    requires k < |opts| && IsShort(opts[k])
    ensures IsFirst(opts, k) <==> Key(opts[k]) !in Keys(opts[..k])
  {
    KeysAreDeclared(opts[..k], Key(opts[k]));
    assert forall j :: 0 <= j < k ==> opts[..k][j] == opts[j];
    if !IsFirst(opts, k) {
      var j :| 0 <= j < k && IsShort(opts[j]) && opts[j].key == opts[k].key;
      assert Key(opts[..k][j]) == Key(opts[k]);
    }
  }

  /** The test by which the list is read again: the next key of the string is that of option k just when option k is the
      first to have it. Nothing that is shadowed can be taken for the next key. */
  lemma HitIsFirst(opts: seq<Opt>, k: nat)
    requires k < |opts| && IsShort(opts[k])
    ensures var u, p := Keys(opts), |Keys(opts[..k])|;
      p <= |u| && (p < |u| && u[p] == Key(opts[k]) <==> IsFirst(opts, k))
  {
    hide Keys;
    var u, v := Keys(opts), Keys(opts[..k]);
    FirstIsNew(opts, k);
    KeysOfPrefix(opts, k);
    KeysOfPrefix(opts, k + 1);
    KeysStep(opts[..k], opts[k]);
    assert opts[..k] + [opts[k]] == opts[..k + 1];
    KeysAreDistinct(opts);
    if Key(opts[k]) in v {
      var i :| 0 <= i < |v| && v[i] == Key(opts[k]);
      assert u[i] == v[i];
    }
  }

  /** The keys of two lists: what the first one has shadows the second. */
  lemma KeysOfSum(opts: seq<Opt>, more: seq<Opt>, k: nat)
    requires k < |more|
    ensures var o, u := more[k], Keys(opts + more[..k]);
      Keys(opts + more[..k + 1])
        == if IsShort(o) && IsFirst(more, k) && Key(o) !in Keys(opts) then u + [Key(o)] else u
  {
    hide Keys;
    var o := more[k];
    assert opts + more[..k + 1] == (opts + more[..k]) + [o];
    KeysStep(opts + more[..k], o);
    if IsShort(o) {
      FirstIsNew(more, k);
      InSum(opts, more[..k], Key(o));
    }
  }

  lemma InSum(opts: seq<Opt>, more: seq<Opt>, c: char)
    ensures c in Keys(opts + more) <==> c in Keys(opts) || c in Keys(more)
  {
    hide Keys;
    var all := opts + more;
    KeysAreDeclared(opts, c);
    KeysAreDeclared(more, c);
    KeysAreDeclared(all, c);
    if c in Keys(opts) {
      var j :| 0 <= j < |opts| && IsShort(opts[j]) && Key(opts[j]) == c;
      assert all[j] == opts[j];
    }
    if c in Keys(more) {
      var j :| 0 <= j < |more| && IsShort(more[j]) && Key(more[j]) == c;
      assert all[|opts| + j] == more[j];
    }
    if c in Keys(all) {
      var j :| 0 <= j < |all| && IsShort(all[j]) && Key(all[j]) == c;
      assert all[j] == if j < |opts| then opts[j] else more[j - |opts|];
    }
  }

  // ---------------------------------------------------------------- entries

  /** An option and the aliases that follow it. */
  function BlockLength(opts: seq<Opt>): (n: nat)
    requires opts != []
    ensures 0 < n <= |opts|
  {
    if |opts| > 1 && opts[1].alias then 1 + BlockLength(opts[1..]) else 1
  }

  /** A table, cut in front of every option that is not an alias. */
  function Blocks(opts: seq<Opt>): seq<seq<Opt>> {
    if opts == [] then []
    else
      var n := BlockLength(opts);
      [opts[..n]] + Blocks(opts[n..])
  }

  function Flat(blocks: seq<seq<Opt>>): seq<Opt> {
    if blocks == [] then [] else Flat(blocks[..|blocks| - 1]) + blocks[|blocks| - 1]
  }

  lemma FlatStep(blocks: seq<seq<Opt>>, b: seq<Opt>)
    ensures Flat(blocks + [b]) == Flat(blocks) + b
  {
    assert (blocks + [b])[..|blocks|] == blocks;
  }

  lemma AppendAssociates(s: seq<Opt>, t: seq<Opt>, u: seq<Opt>)
    ensures s + (t + u) == s + t + u
  {
  }

  lemma {:induction false} FlatAdds(s: seq<seq<Opt>>, t: seq<seq<Opt>>)
    ensures Flat(s + t) == Flat(s) + Flat(t)
  {
    hide Flat;
    if t == [] {
      assert s + t == s;
      BlocksOfNone();
    } else {
      var init, b := t[..|t| - 1], t[|t| - 1];
      FlatAdds(s, init);
      assert s + t == (s + init) + [b];
      assert t == init + [b];
      FlatStep(s + init, b);
      FlatStep(init, b);
      AppendAssociates(Flat(s), Flat(init), b);
    }
  }

  /** The blocks hold the table, in order. */
  lemma {:induction false} FlatOfBlocks(opts: seq<Opt>)
    ensures Flat(Blocks(opts)) == opts
    decreases |opts|
  {
    if opts != [] {
      var n := BlockLength(opts);
      FlatOfBlocks(opts[n..]);
      FlatAdds([opts[..n]], Blocks(opts[n..]));
      FlatStep([], opts[..n]);
      assert [] + [opts[..n]] == [opts[..n]];
    }
  }

  lemma FlatAround(before: seq<seq<Opt>>, b: seq<Opt>, after: seq<seq<Opt>>)
    ensures Flat((before + [b]) + after) == Flat(before) + b + Flat(after)
  {
    hide Flat;
    FlatAdds(before + [b], after);
    FlatStep(before, b);
  }

  lemma FlatSplit(blocks: seq<seq<Opt>>, i: nat)
    requires i < |blocks|
    ensures Flat(blocks) == Flat(blocks[..i]) + blocks[i] + Flat(blocks[i + 1..])
  {
    hide Flat;
    var before, b, after := blocks[..i], blocks[i], blocks[i + 1..];
    assert blocks == (before + [b]) + after by {
      Cut(blocks, i);
    }
    FlatAround(before, b, after);
  }

  /** The slice of the string that belongs to block i starts here. */
  function SliceStart(blocks: seq<seq<Opt>>, i: nat): nat
    requires i <= |blocks|
  {
    |Keys(Flat(blocks[..i]))|
  }

  /** Option j of block i is the first of all blocks to have its key. */
  ghost predicate FirstHere(blocks: seq<seq<Opt>>, i: nat, j: nat)
    requires i < |blocks| && j < |blocks[i]|
  {
    && IsShort(blocks[i][j])
    && (forall h, k :: 0 <= h < i && 0 <= k < |blocks[h]| && IsShort(blocks[h][k]) ==>
      blocks[h][k].key != blocks[i][j].key)
    && forall k :: 0 <= k < j && IsShort(blocks[i][k]) ==> blocks[i][k].key != blocks[i][j].key
  }

  /** Where option j of block i stands in the flat list. */
  lemma FlatIndex(blocks: seq<seq<Opt>>, i: nat, j: nat)
    requires i < |blocks| && j <= |blocks[i]|
    ensures var n, flat := |Flat(blocks[..i])| + j, Flat(blocks);
      && n <= |flat| && flat[..n] == Flat(blocks[..i]) + blocks[i][..j]
      && (j < |blocks[i]| ==> n < |flat| && flat[n] == blocks[i][j])
  {
    hide Flat;
    FlatSplit(blocks, i);
    var before, b, after := Flat(blocks[..i]), blocks[i], Flat(blocks[i + 1..]);
    assert before + b + after == (before + b[..j]) + (b[j..] + after);
  }

  lemma {:induction false} FlatOrigin(blocks: seq<seq<Opt>>, n: nat) returns (h: nat, k: nat)
    requires n < |Flat(blocks)|
    ensures h < |blocks| && k < |blocks[h]| && n == |Flat(blocks[..h])| + k && Flat(blocks)[n] == blocks[h][k]
  {
    var init := blocks[..|blocks| - 1];
    if n < |Flat(init)| {
      h, k := FlatOrigin(init, n);
      assert init[..h] == blocks[..h];
    } else {
      h, k := |init|, n - |Flat(init)|;
    }
  }

  /** Being first is the same in the blocks and in the flat list. */
  lemma FirstInFlat(blocks: seq<seq<Opt>>, i: nat, j: nat)
    requires i < |blocks| && j < |blocks[i]| && |Flat(blocks[..i])| + j < |Flat(blocks)|
    ensures FirstHere(blocks, i, j) <==> IsFirst(Flat(blocks), |Flat(blocks[..i])| + j)
  {
    hide Flat;
    var flat, n := Flat(blocks), |Flat(blocks[..i])| + j;
    FlatIndex(blocks, i, j);
    if FirstHere(blocks, i, j) {
      forall m | 0 <= m < n && IsShort(flat[m])
        ensures flat[m].key != flat[n].key
      {
        var h, k := FlatOrigin(blocks, m);
        if h > i {
          FlatLonger(blocks, i, h);
        }
      }
    }
    if IsFirst(flat, n) {
      forall h, k | 0 <= h < i && 0 <= k < |blocks[h]| && IsShort(blocks[h][k])
        ensures blocks[h][k].key != blocks[i][j].key
      {
        FlatIndex(blocks, h, k);
        FlatLonger(blocks, h, i);
      }
      forall k | 0 <= k < j && IsShort(blocks[i][k])
        ensures blocks[i][k].key != blocks[i][j].key
      {
        FlatIndex(blocks, i, k);
      }
    }
  }

  lemma FlatLonger(blocks: seq<seq<Opt>>, i: nat, h: nat)
    requires i < h <= |blocks|
    ensures |Flat(blocks[..i])| + |blocks[i]| <= |Flat(blocks[..h])|
  {
    hide Flat;
    FlatSplit(blocks[..h], i);
    assert blocks[..h][..i] == blocks[..i];
  }

  // ---------------------------------------------------------------- walking an entry

  /** struct hol_entry: the table from the entry's first option on, the number of options, and the offset of its
      slice. */
  datatype Entry = Entry(opt: seq<Opt>, num: nat, shortOptions: nat)

  ghost predicate IsEntry(e: Entry, blocks: seq<seq<Opt>>, i: nat)
    requires i < |blocks|
  {
    e.num == |blocks[i]| <= |e.opt| && e.opt[..e.num] == blocks[i] && e.shortOptions == SliceStart(blocks, i)
  }

  /** A string in a buffer, with its end marker. */
  ghost predicate Holds(buf: array<char>, s: string)
    reads buf
  {
    |s| < buf.Length && buf[..|s|] == s && buf[|s|] == '\0'
  }

  lemma WalkStep(blocks: seq<seq<Opt>>, i: nat, j: nat)
    requires i < |blocks| && j < |blocks[i]|
    ensures var u, p := Keys(Flat(blocks)), |Keys(Flat(blocks[..i]) + blocks[i][..j])|;
      && p <= |u|
      && (IsShort(blocks[i][j]) ==> (p < |u| && u[p] == Key(blocks[i][j]) <==> FirstHere(blocks, i, j)))
      && |Keys(Flat(blocks[..i]) + blocks[i][..j + 1])| == p + (if FirstHere(blocks, i, j) then 1 else 0)
  {
    hide Keys, Flat, FirstHere, IsFirst;
    var before, b, flat := Flat(blocks[..i]), blocks[i], Flat(blocks);
    var n := |before| + j;
    FlatIndex(blocks, i, j);
    FlatIndex(blocks, i, j + 1);
    FirstInFlat(blocks, i, j);
    assert before + b[..j + 1] == (before + b[..j]) + [b[j]];
    KeysStep(before + b[..j], b[j]);
    KeysOfPrefix(flat, n);
    if IsShort(b[j]) {
      HitIsFirst(flat, n);
      FirstIsNew(flat, n);
    } else {
      NotShort(blocks, i, j);
    }
  }

  lemma NotShort(blocks: seq<seq<Opt>>, i: nat, j: nat)
    requires i < |blocks| && j < |blocks[i]| && !IsShort(blocks[i][j])
    ensures !FirstHere(blocks, i, j)
  {
  }

  /** An option that is not an alias, and aliases of it. */
  predicate Headed(block: seq<Opt>) {
    block != [] && !block[0].alias && forall k :: 0 < k < |block| ==> block[k].alias
  }

  /** Option j of block i is visited: it is the first to have its key, and no visit before it stopped the walk. */
  ghost predicate Visited(blocks: seq<seq<Opt>>, i: nat, j: nat, func: (Opt, Opt) -> int)
    requires i < |blocks| && j < |blocks[i]|
  {
    var b := blocks[i];
    FirstHere(blocks, i, j) && forall k :: 0 <= k < j && FirstHere(blocks, i, k) ==> func(b[k], b[0]) == 0
  }

  /** hol_entry_short_iterate: func is called for just those options of the entry that are the first of all to have
      their key, in order and each with the entry's first option, until a call does not return 0; `visited` records the
      calls. */
  method ShortIterate(
    e: Entry, shortOptions: array<char>, func: (Opt, Opt) -> int, ghost blocks: seq<seq<Opt>>, ghost i: nat)
      returns (val: int, visited: seq<nat>)
    requires i < |blocks| && IsEntry(e, blocks, i) && Holds(shortOptions, Keys(Flat(blocks))) && Headed(blocks[i])
    ensures forall j :: 0 <= j < |blocks[i]| ==> (j in visited <==> Visited(blocks, i, j, func))
    ensures forall m :: 0 <= m < |visited| ==> 0 <= visited[m] < |blocks[i]|
    ensures forall m, n :: 0 <= m < n < |visited| ==> visited[m] < visited[n]
    ensures val == if visited == [] then 0 else func(blocks[i][visited[|visited| - 1]], blocks[i][0])
  {
    hide Keys, Flat, FirstHere, Walked;
    ghost var u, before := Keys(Flat(blocks)), Flat(blocks[..i]);
    ghost var b := blocks[i];
    val, visited := 0, [];
    var so, j, main := e.shortOptions, 0, e.opt[0];
    assert main == e.opt[..e.num][0];
    assert before + b[..0] == before;
    WalkedStart(blocks, i, func);
    while j < e.num && val == 0
      invariant 0 <= j <= e.num && so == |Keys(before + b[..j])| && main == b[0]
      invariant Walked(blocks, i, j, func, visited, val)
      decreases e.num - j
    {
      WalkStep(blocks, i, j);
      var opt := e.opt[j];
      assert opt == e.opt[..e.num][j] == b[j];
      assert so < |u| ==> shortOptions[so] == shortOptions[..|u|][so];
      WalkedStep(blocks, i, j, func, visited);
      if IsShort(opt) && shortOptions[so] == Key(opt) {
        if !opt.alias {
          main := opt;
        }
        val := func(opt, main);
        visited := visited + [j];
        so := so + 1;
      } else if !IsShort(opt) {
        NotShort(blocks, i, j);
      }
      j := j + 1;
    }
    WalkedEnd(blocks, i, j, func, visited, val);
  }

  /** The first j options of block i have been walked over, up to a call that returned val. */
  ghost predicate Walked(
    blocks: seq<seq<Opt>>, i: nat, j: nat, func: (Opt, Opt) -> int, visited: seq<nat>, val: int)
    requires i < |blocks| && blocks[i] != [] && j <= |blocks[i]|
  {
    var b := blocks[i];
    && (forall m :: 0 <= m < |visited| ==> 0 <= visited[m] < j)
    && (forall m, n :: 0 <= m < n < |visited| ==> visited[m] < visited[n])
    && (forall k :: 0 <= k < j ==> (k in visited <==> FirstHere(blocks, i, k)))
    && (forall k :: 0 <= k < j && FirstHere(blocks, i, k) && func(b[k], b[0]) != 0 ==> k == j - 1 && val != 0)
    && (val != 0 ==> visited != [] && visited[|visited| - 1] == j - 1)
    && val == if visited == [] then 0 else func(b[visited[|visited| - 1]], b[0])
  }

  lemma WalkedStart(blocks: seq<seq<Opt>>, i: nat, func: (Opt, Opt) -> int)
    requires i < |blocks| && blocks[i] != []
    ensures Walked(blocks, i, 0, func, [], 0)
  {
  }

  lemma WalkedStep(blocks: seq<seq<Opt>>, i: nat, j: nat, func: (Opt, Opt) -> int, visited: seq<nat>)
    requires i < |blocks| && j < |blocks[i]| && Walked(blocks, i, j, func, visited, 0)
    ensures var b := blocks[i];
      if FirstHere(blocks, i, j) then Walked(blocks, i, j + 1, func, visited + [j], func(b[j], b[0]))
      else Walked(blocks, i, j + 1, func, visited, 0)
  {
    hide FirstHere;
  }

  lemma WalkedEnd(blocks: seq<seq<Opt>>, i: nat, j: nat, func: (Opt, Opt) -> int, visited: seq<nat>, val: int)
    requires i < |blocks| && blocks[i] != [] && j <= |blocks[i]| && Walked(blocks, i, j, func, visited, val)
    requires j == |blocks[i]| || val != 0
    ensures forall k :: 0 <= k < |blocks[i]| ==> (k in visited <==> Visited(blocks, i, k, func))
    ensures forall m :: 0 <= m < |visited| ==> 0 <= visited[m] < |blocks[i]|
    ensures forall m, n :: 0 <= m < n < |visited| ==> visited[m] < visited[n]
    ensures val == if visited == [] then 0 else func(blocks[i][visited[|visited| - 1]], blocks[i][0])
  {
    hide FirstHere;
  }

  // ---------------------------------------------------------------- the list of one argp

  /** find_char. */
  method FindChar(c: char, buf: array<char>, end: nat) returns (found: bool)
    requires end <= buf.Length
    ensures found == (c in buf[..end])
  {
    var i := 0;
    while i < end
      invariant i <= end && c !in buf[..i]
    {
      if buf[i] == c {
        return true;
      }
      i := i + 1;
    }
    return false;
  }

  lemma {:induction false} BlockShape(opts: seq<Opt>)
    requires opts != []
    ensures var n := BlockLength(opts);
      (forall k :: 0 < k < n ==> opts[k].alias) && (n < |opts| ==> !opts[n].alias)
  {
    if |opts| > 1 && opts[1].alias {
      BlockShape(opts[1..]);
    }
  }

  lemma {:induction false} BlockLengthIs(opts: seq<Opt>, n: nat)
    requires 0 < n <= |opts| && (forall k :: 0 < k < n ==> opts[k].alias) && (n < |opts| ==> !opts[n].alias)
    ensures BlockLength(opts) == n
  {
    if n > 1 {
      BlockLengthIs(opts[1..], n - 1);
    }
  }

  /** The number of entries, and of short options, which is an upper bound of the number of keys. */
  function NonAliases(opts: seq<Opt>): nat {
    if opts == [] then 0 else NonAliases(opts[..|opts| - 1]) + (if opts[|opts| - 1].alias then 0 else 1)
  }

  function NumShort(opts: seq<Opt>): nat {
    if opts == [] then 0 else NumShort(opts[..|opts| - 1]) + (if IsShort(opts[|opts| - 1]) then 1 else 0)
  }

  lemma {:induction false} KeysFit(opts: seq<Opt>)
    ensures |Keys(opts)| <= NumShort(opts)
  {
    if opts != [] {
      KeysFit(opts[..|opts| - 1]);
    }
  }

  lemma {:induction false} NonAliasesAdd(s: seq<Opt>, t: seq<Opt>)
    ensures NonAliases(s + t) == NonAliases(s) + NonAliases(t)
  {
    if t == [] {
      assert s + t == s;
    } else {
      NonAliasesAdd(s, t[..|t| - 1]);
      assert (s + t)[..|s + t| - 1] == s + t[..|t| - 1];
    }
  }

  lemma {:induction false} OneNonAlias(block: seq<Opt>)
    requires Headed(block)
    ensures NonAliases(block) == 1
  {
    if |block| > 1 {
      OneNonAlias(block[..|block| - 1]);
    } else {
      assert block[..0] == [];
    }
  }

  /** There are as many entries as options that are not aliases, and each is one with its aliases. */
  lemma {:induction false} BlockCount(opts: seq<Opt>)
    requires opts != [] ==> !opts[0].alias
    ensures |Blocks(opts)| == NonAliases(opts)
    ensures forall i :: 0 <= i < |Blocks(opts)| ==> Headed(Blocks(opts)[i])
    decreases |opts|
  {
    if opts != [] {
      var n := BlockLength(opts);
      var block, rest := opts[..n], opts[n..];
      assert opts == block + rest;
      assert Headed(block) && (rest != [] ==> !rest[0].alias) by {
        BlockShape(opts);
      }
      hide NonAliases, Headed, BlockLength;
      BlockCount(rest);
      OneNonAlias(block);
      NonAliasesAdd(block, rest);
    }
  }

  /** The do-while loop of make_hol: one entry's options. */
  method FillBlock(opts: seq<Opt>, o: nat, buf: array<char>, so: nat) returns (o': nat, so': nat)
    requires o < |opts| && NumShort(opts) < buf.Length
    requires so == |Keys(opts[..o])| < buf.Length && buf[..so] == Keys(opts[..o])
    modifies buf
    ensures o' == o + BlockLength(opts[o..]) && so' == |Keys(opts[..o'])| < buf.Length
    ensures buf[..so'] == Keys(opts[..o'])
  {
    hide Keys, BlockLength, NumShort;
    so' := FillOne(opts, o, buf, so);
    o' := o + 1;
    while o' < |opts| && opts[o'].alias
      invariant o < o' <= |opts| && so' == |Keys(opts[..o'])| < buf.Length && buf[..so'] == Keys(opts[..o'])
      invariant forall k :: o < k < o' ==> opts[k].alias
    {
      so' := FillOne(opts, o', buf, so');
      o' := o' + 1;
    }
    assert forall k :: 0 < k < o' - o ==> opts[o..][k] == opts[o + k];
    BlockLengthIs(opts[o..], o' - o);
  }

  lemma RoomForKey(opts: seq<Opt>, o: nat)
    requires o < |opts|
    ensures |Keys(opts[..o + 1])| <= NumShort(opts)
  {
    KeysFit(opts);
    KeysOfPrefix(opts, o + 1);
  }

  method FillOne(opts: seq<Opt>, o: nat, buf: array<char>, so: nat) returns (so': nat)
    requires o < |opts| && NumShort(opts) < buf.Length
    requires so == |Keys(opts[..o])| < buf.Length && buf[..so] == Keys(opts[..o])
    modifies buf
    ensures so' == |Keys(opts[..o + 1])| < buf.Length && buf[..so'] == Keys(opts[..o + 1])
  {
    hide Keys, NumShort;
    so' := so;
    KeysStep(opts[..o], opts[o]);
    assert opts[..o] + [opts[o]] == opts[..o + 1];
    RoomForKey(opts, o);
    if IsShort(opts[o]) {
      var found := FindChar(Key(opts[o]), buf, so);
      if !found {
        buf[so] := Key(opts[o]);
        so' := so + 1;
      }
    }
  }

  lemma SliceKept(blocks: seq<seq<Opt>>, more: seq<seq<Opt>>, i: nat)
    requires i <= |blocks|
    ensures SliceStart(blocks + more, i) == SliceStart(blocks, i)
  {
    hide Keys, Flat;
    assert (blocks + more)[..i] == blocks[..i];
  }

  /** struct hol, without its clusters. */
  class Hol {
    var entries: array<Entry>
    var numEntries: nat
    var shortOptions: array<char>
    ghost var blocks: seq<seq<Opt>>

    ghost predicate Entered(blocks: seq<seq<Opt>>)
      reads this`entries, entries
    {
      |blocks| <= entries.Length && forall i :: 0 <= i < |blocks| ==> IsEntry(entries[i], blocks, i)
    }

    /** The string has each key once, where it first occurs, and every entry points to the place of its keys in it. */
    ghost predicate Valid()
      reads this, entries, shortOptions
    {
      && numEntries == |blocks|
      && (numEntries > 0 ==> Entered(blocks) && Holds(shortOptions, Keys(Flat(blocks))))
    }

    /** make_hol. The first option must not be an alias. */
    constructor (options: Option<seq<Opt>>)
      requires options.Some? && options.value != [] ==> !options.value[0].alias
      ensures Valid() && blocks == (if options.Some? then Blocks(options.value) else [])
      ensures fresh(entries) && fresh(shortOptions)
    {
      hide Keys, Flat, Blocks, BlockLength, NumShort, NonAliases, IsEntry;
      var opts := if options.Some? then options.value else [];
      var n, numShort := CountOptions(opts);
      var es := new Entry[n](_ => Entry([], 0, 0));
      var buf := new char[numShort + 1](_ => '\0');
      entries, numEntries, shortOptions, blocks := es, n, buf, Blocks(opts);
      new;
      BlockCount(opts);
      FillEntries(opts, es, buf);
      BlocksOfNone();
    }

    /** hol_append: the entries of `more` follow, without the keys that the entries here have already. */
    method Append(more: Hol)
      requires Valid() && more.Valid() && more != this
      modifies this
      ensures Valid() && blocks == old(blocks) + more.blocks
      ensures entries == old(entries) || entries == more.entries || fresh(entries)
      ensures shortOptions == old(shortOptions) || shortOptions == more.shortOptions || fresh(shortOptions)
    {
      hide Keys, Flat, IsEntry, FirstHere;
      if more.numEntries > 0 {
        if numEntries == 0 {
          numEntries, entries, shortOptions := more.numEntries, more.entries, more.shortOptions;
          blocks := blocks + more.blocks;
          assert blocks == more.blocks;
        } else {
          var es, buf := Merge(this, more);
          entries, numEntries, shortOptions := es, numEntries + more.numEntries, buf;
          blocks := blocks + more.blocks;
        }
      } else {
        assert blocks + more.blocks == blocks;
      }
    }
  }

  lemma BlocksOfNone()
    ensures Blocks([]) == [] && Flat([]) == [] && Keys([]) == ""
  {
  }

  /** The first pass of make_hol. */
  method CountOptions(opts: seq<Opt>) returns (entries: nat, shorts: nat)
    ensures entries == NonAliases(opts) && shorts == NumShort(opts)
  {
    entries, shorts := 0, 0;
    var o := 0;
    while o < |opts|
      invariant o <= |opts| && entries == NonAliases(opts[..o]) && shorts == NumShort(opts[..o])
    {
      assert opts[..o + 1][..o] == opts[..o];
      if !opts[o].alias {
        entries := entries + 1;
      }
      if IsShort(opts[o]) {
        shorts := shorts + 1;
      }
      o := o + 1;
    }
    assert opts[..o] == opts;
  }

  /** The second pass of make_hol. */
  method FillEntries(opts: seq<Opt>, entries: array<Entry>, buf: array<char>)
    requires |Blocks(opts)| <= entries.Length && NumShort(opts) < buf.Length
    modifies entries, buf
    ensures forall i :: 0 <= i < |Blocks(opts)| ==> IsEntry(entries[i], Blocks(opts), i)
    ensures Holds(buf, Keys(Flat(Blocks(opts))))
  {
    hide Keys, Flat, Blocks, BlockLength, NumShort, IsEntry, SliceStart;
    ghost var all := Blocks(opts);
    var o, so, n := 0, 0, 0;
    BlocksOfNone();
    assert all[..0] == [] && opts[..0] == [] && opts[0..] == opts;
    while o < |opts|
      invariant o <= |opts| && n <= |all| && Flat(all[..n]) == opts[..o] && Blocks(opts[o..]) == all[n..]
      invariant so == |Keys(opts[..o])| < buf.Length && buf[..so] == Keys(opts[..o])
      invariant forall i :: 0 <= i < n ==> IsEntry(entries[i], all, i)
    {
      BlocksStep(opts, o, all, n);
      var o', so' := FillBlock(opts, o, buf, so);
      entries[n] := Entry(opts[o..], o' - o, so);
      EntryIs(opts, o, all, n, so);
      o, so, n := o', so', n + 1;
    }
    BlocksOfNone();
    assert opts[o..] == [];
    assert all[n..] == [];
    assert all[..n] == all;
    assert opts[..o] == opts;
    buf[so] := '\0';
  }

  lemma BlocksStep(opts: seq<Opt>, o: nat, all: seq<seq<Opt>>, n: nat)
    requires o < |opts| && n <= |all| && Flat(all[..n]) == opts[..o] && Blocks(opts[o..]) == all[n..]
    ensures var o' := o + BlockLength(opts[o..]);
      n < |all| && all[n] == opts[o..o'] && Flat(all[..n + 1]) == opts[..o'] && Blocks(opts[o'..]) == all[n + 1..]
  {
    hide Flat;
    var m := BlockLength(opts[o..]);
    assert Blocks(opts[o..]) == [opts[o..][..m]] + Blocks(opts[o..][m..]);
    assert opts[o..][..m] == opts[o..o + m] && opts[o..][m..] == opts[o + m..];
    assert all[n] == all[n..][0] && all[n + 1..] == all[n..][1..];
    FlatStep(all[..n], all[n]);
    assert all[..n] + [all[n]] == all[..n + 1];
  }

  lemma EntryIs(opts: seq<Opt>, o: nat, all: seq<seq<Opt>>, n: nat, so: nat)
    requires o < |opts| && n < |all| && Flat(all[..n]) == opts[..o] && so == |Keys(opts[..o])|
    requires all[n] == opts[o..o + BlockLength(opts[o..])]
    ensures IsEntry(Entry(opts[o..], BlockLength(opts[o..]), so), all, n)
  {
    hide Keys, Flat, BlockLength;
  }

  // ---------------------------------------------------------------- merging two lists

  /** strlen. */
  method Length(buf: array<char>, ghost s: string) returns (n: nat)
    requires Holds(buf, s) && forall i :: 0 <= i < |s| ==> s[i] != '\0'
    ensures n == |s|
  {
    n := 0;
    assert forall i :: 0 <= i < |s| ==> buf[i] == buf[..|s|][i];
    while buf[n] != '\0'
      invariant n <= |s|
      decreases |s| - n
    {
      n := n + 1;
    }
  }

  /** The keys merged from two lists are no more than those of both. */
  lemma {:induction false} SumFits(opts: seq<Opt>, more: seq<Opt>)
    ensures |Keys(opts + more)| <= |Keys(opts)| + |Keys(more)| && Keys(opts) <= Keys(opts + more)
  {
    hide Keys;
    if more == [] {
      assert opts + more == opts;
    } else {
      var k := |more| - 1;
      SumFits(opts, more[..k]);
      KeysOfSum(opts, more, k);
      assert more[..k + 1] == more && more[..k] + [more[k]] == more;
      KeysStep(more[..k], more[k]);
      if IsShort(more[k]) {
        FirstIsNew(more, k);
      }
    }
  }

  lemma PartFits(opts: seq<Opt>, more: seq<Opt>, k: nat)
    requires k <= |more|
    ensures |Keys(opts + more[..k])| <= |Keys(opts)| + |Keys(more)| && Keys(opts) <= Keys(opts + more[..k])
    ensures |Keys(more[..k])| <= |Keys(more)|
  {
    hide Keys;
    SumFits(opts, more[..k]);
    KeysOfPrefix(more, k);
  }

  /** Merging has come to option k of the second list. */
  ghost predicate MergedTo(opts: seq<Opt>, more: seq<Opt>, k: nat, buf: array<char>, so: nat, moreSo: nat)
    requires k <= |more|
    reads buf
  {
    && so == |Keys(opts + more[..k])| <= |Keys(opts)| + |Keys(more)| < buf.Length
    && buf[..so] == Keys(opts + more[..k])
    && moreSo == |Keys(more[..k])|
  }

  /** One turn of the innermost loop of hol_append. */
  method MergeOption(ghost opts: seq<Opt>, ghost more: seq<Opt>, ghost k: nat, opt: Opt, buf: array<char>, so: nat,
                     moreBuf: array<char>, moreSo: nat, end: nat) returns (so': nat, moreSo': nat)
    requires k < |more| && opt == more[k] && end == |Keys(opts)| && moreBuf != buf
    requires MergedTo(opts, more, k, buf, so, moreSo) && Holds(moreBuf, Keys(more))
    modifies buf
    ensures MergedTo(opts, more, k + 1, buf, so', moreSo')
  {
    hide Keys, IsFirst;
    so', moreSo' := so, moreSo;
    PartFits(opts, more, k);
    PartFits(opts, more, k + 1);
    KeysOfSum(opts, more, k);
    assert more[..k] + [opt] == more[..k + 1];
    KeysStep(more[..k], opt);
    if IsShort(opt) {
      HitIsFirst(more, k);
      FirstIsNew(more, k);
      assert moreSo < |Keys(more)| ==> moreBuf[moreSo] == moreBuf[..|Keys(more)|][moreSo];
      if moreBuf[moreSo] == Key(opt) {
        assert buf[..end] == buf[..so][..end] == Keys(opts);
        var found := FindChar(Key(opt), buf, end);
        if !found {
          buf[so] := Key(opt);
          so' := so + 1;
        }
        moreSo' := moreSo + 1;
      }
    }
  }

  /** The options of one entry of the second list. */
  method MergeEntry(ghost opts: seq<Opt>, ghost more: seq<Opt>, ghost k: nat, e: Entry, buf: array<char>, so: nat,
                    moreBuf: array<char>, moreSo: nat, end: nat) returns (so': nat, moreSo': nat)
    requires e.num <= |e.opt| && k + e.num <= |more| && e.opt[..e.num] == more[k..k + e.num]
    requires end == |Keys(opts)| && moreBuf != buf
    requires MergedTo(opts, more, k, buf, so, moreSo) && Holds(moreBuf, Keys(more))
    modifies buf
    ensures MergedTo(opts, more, k + e.num, buf, so', moreSo')
  {
    hide Keys, MergedTo;
    so', moreSo' := so, moreSo;
    var j := 0;
    while j < e.num
      invariant j <= e.num && MergedTo(opts, more, k + j, buf, so', moreSo') && Holds(moreBuf, Keys(more))
    {
      assert e.opt[j] == e.opt[..e.num][j] == more[k..k + e.num][j];
      so', moreSo' := MergeOption(opts, more, k + j, e.opt[j], buf, so', moreBuf, moreSo', end);
      j := j + 1;
    }
  }

  lemma MergedEntry(bs: seq<seq<Opt>>, more: seq<seq<Opt>>, i: nat, e: Entry, k: nat)
    requires i < |more| && IsEntry(e, more, i) && k == |Flat(more[..i])|
    ensures k + e.num == |Flat(more[..i + 1])| <= |Flat(more)|
    ensures e.num <= |e.opt| && e.opt[..e.num] == Flat(more)[k..k + e.num]
    ensures IsEntry(e.(shortOptions := |Keys(Flat(bs) + Flat(more)[..k])|), bs + more, |bs| + i)
  {
    hide Keys, Flat;
    FlatSplit(more, i);
    FlatIndex(more, i, |more[i]|);
    FlatIndex(more, i, 0);
    FlatStep(more[..i], more[i]);
    assert more[..i] + [more[i]] == more[..i + 1];
    FlatAdds(bs, more[..i]);
    assert (bs + more)[..|bs| + i] == bs + more[..i];
    assert Flat(more)[..k] == Flat(more[..i]) + more[i][..0] == Flat(more[..i]);
  }

  lemma EntryKept(bs: seq<seq<Opt>>, more: seq<seq<Opt>>, i: nat, e: Entry)
    requires i < |bs| && IsEntry(e, bs, i)
    ensures IsEntry(e, bs + more, i)
  {
    SliceKept(bs, more, i);
  }

  /** The part of hol_append that builds new arrays. Offsets into the first string stay as they are. */
  method Merge(hol: Hol, more: Hol) returns (entries: array<Entry>, buf: array<char>)
    requires hol.Valid() && more.Valid() && hol.numEntries > 0 && more.numEntries > 0
    ensures fresh(entries) && fresh(buf)
    ensures var bs := hol.blocks + more.blocks;
      && |bs| <= entries.Length && (forall i :: 0 <= i < |bs| ==> IsEntry(entries[i], bs, i))
      && Holds(buf, Keys(Flat(bs)))
  {
    hide Keys, Flat, IsEntry, SliceStart, MergedTo;
    assert hol.Entered(hol.blocks) && more.Entered(more.blocks);
    var n, m := hol.numEntries, more.numEntries;
    ghost var bs, ms := hol.blocks, more.blocks;
    ghost var opts, others := Flat(bs), Flat(ms);
    var end := Length(hol.shortOptions, Keys(opts));
    var moreLen := Length(more.shortOptions, Keys(others));
    var ours, theirs := hol.entries, more.entries;
    entries := new Entry[n + m](i requires 0 <= i < n + m && n <= ours.Length && m <= theirs.Length
      reads ours, theirs => if i < n then ours[i] else theirs[i - n]);
    var first := hol.shortOptions;
    buf := new char[end + moreLen + 1](i requires 0 <= i && end < first.Length reads first =>
      if i < end then first[i] else '\0');
    forall i | 0 <= i < n
      ensures IsEntry(entries[i], bs + ms, i)
    {
      EntryKept(bs, ms, i, entries[i]);
    }
    MergeStart(opts, others, buf, first);
    var so := MergeEntries(hol, more, entries, buf, end);
    buf[so] := '\0';
    FlatAdds(bs, ms);
  }

  lemma MergeStart(opts: seq<Opt>, more: seq<Opt>, buf: array<char>, first: array<char>)
    requires Holds(first, Keys(opts)) && |Keys(opts)| + |Keys(more)| < buf.Length
    requires forall i :: 0 <= i < |Keys(opts)| ==> buf[i] == first[i]
    ensures MergedTo(opts, more, 0, buf, |Keys(opts)|, 0)
  {
    assert opts + more[..0] == opts;
    assert buf[..|Keys(opts)|] == first[..|Keys(opts)|];
  }

  /** The loop over the entries of the second list. */
  method MergeEntries(hol: Hol, more: Hol, entries: array<Entry>, buf: array<char>, end: nat) returns (so: nat)
    requires hol.Valid() && more.Valid() && hol.numEntries > 0 && more.numEntries > 0
    requires buf != more.shortOptions && entries != more.entries && entries.Length == |hol.blocks| + |more.blocks|
    requires end == |Keys(Flat(hol.blocks))| && MergedTo(Flat(hol.blocks), Flat(more.blocks), 0, buf, end, 0)
    requires forall i :: 0 <= i < |hol.blocks| ==> IsEntry(entries[i], hol.blocks + more.blocks, i)
    requires forall i :: |hol.blocks| <= i < entries.Length ==> IsEntry(entries[i], more.blocks, i - |hol.blocks|)
    modifies entries, buf
    ensures forall i :: 0 <= i < entries.Length ==> IsEntry(entries[i], hol.blocks + more.blocks, i)
    ensures so < buf.Length && so == |Keys(Flat(hol.blocks) + Flat(more.blocks))|
    ensures buf[..so] == Keys(Flat(hol.blocks) + Flat(more.blocks))
  {
    hide Keys, Flat, IsEntry, SliceStart, MergedTo;
    ghost var bs, ms := hol.blocks, more.blocks;
    ghost var opts, others := Flat(bs), Flat(ms);
    var n, m, moreBuf := hol.numEntries, more.numEntries, more.shortOptions;
    var i, moreSo := 0, 0;
    so := end;
    BlocksOfNone();
    assert ms[..0] == [];
    while i < m
      invariant i <= m && |Flat(ms[..i])| <= |others|
      invariant MergedTo(opts, others, |Flat(ms[..i])|, buf, so, moreSo) && Holds(moreBuf, Keys(others))
      invariant forall j :: 0 <= j < n + i ==> IsEntry(entries[j], bs + ms, j)
      invariant forall j :: n + i <= j < n + m ==> IsEntry(entries[j], ms, j - n)
    {
      var e := entries[n + i];
      MergedEntry(bs, ms, i, e, |Flat(ms[..i])|);
      SoIs(opts, others, |Flat(ms[..i])|, buf, so, moreSo);
      entries[n + i] := e.(shortOptions := so);
      so, moreSo := MergeEntry(opts, others, |Flat(ms[..i])|, e, buf, so, moreBuf, moreSo, end);
      i := i + 1;
    }
    assert ms[..i] == ms && others[..|others|] == others;
    SoIs(opts, others, |others|, buf, so, moreSo);
  }

  lemma SoIs(opts: seq<Opt>, more: seq<Opt>, k: nat, buf: array<char>, so: nat, moreSo: nat)
    requires k <= |more| && MergedTo(opts, more, k, buf, so, moreSo)
    ensures so == |Keys(opts + more[..k])| < buf.Length && buf[..so] == Keys(opts + more[..k])
  {
  }

  // ---------------------------------------------------------------- the list of a tree

  /** The entries of a tree, in its preorder. */
  function TreeBlocks(a: Argp): seq<seq<Opt>>
    decreases a, |a.children| + 1
  {
    Blocks(Table(a)) + TreeBlocksBelow(a, |a.children|)
  }

  function TreeBlocksBelow(a: Argp, k: nat): seq<seq<Opt>>
    requires k <= |a.children|
    decreases a, k
  {
    if k == 0 then [] else TreeBlocksBelow(a, k - 1) + TreeBlocks(a.children[k - 1])
  }

  /** No table of the tree starts with an alias, which make_hol asserts. */
  predicate StartsWell(a: Argp)
    decreases a
  {
    (Table(a) != [] ==> !Table(a)[0].alias) && forall i :: 0 <= i < |a.children| ==> StartsWell(a.children[i])
  }

  function Options(gs: seq<Argp>): seq<Opt> {
    if gs == [] then [] else Options(gs[..|gs| - 1]) + Table(gs[|gs| - 1])
  }

  lemma {:induction false} OptionsAdd(gs: seq<Argp>, hs: seq<Argp>)
    ensures Options(gs + hs) == Options(gs) + Options(hs)
  {
    if hs == [] {
      assert gs + hs == gs;
    } else {
      OptionsAdd(gs, hs[..|hs| - 1]);
      assert (gs + hs)[..|gs + hs| - 1] == gs + hs[..|hs| - 1];
    }
  }

  lemma NoOptions()
    ensures Flat([]) == Options([])
  {
  }

  lemma OptionsOfOne(a: Argp)
    ensures Options([a]) == Table(a)
  {
    assert [a][..0] == [];
  }

  /** The entries hold the options of the groups of the tree, in the order in which parsing numbers them. */
  lemma {:induction false} TreeBlocksArePreorder(a: Argp)
    ensures Flat(TreeBlocks(a)) == Options(Preorder(a))
    decreases a, |a.children| + 1
  {
    hide Flat, Blocks, Options;
    var n := |a.children|;
    TreeBlocksBelowArePreorder(a, n);
    FlatAdds(Blocks(Table(a)), TreeBlocksBelow(a, n));
    FlatOfBlocks(Table(a));
    if IsGroup(a) {
      OptionsAdd([a], PreorderBelow(a, n));
      OptionsOfOne(a);
    } else {
      assert Preorder(a) == PreorderBelow(a, n);
      assert Table(a) + Options(Preorder(a)) == Options(Preorder(a));
    }
  }

  lemma {:induction false} TreeBlocksBelowArePreorder(a: Argp, k: nat)
    requires k <= |a.children|
    ensures Flat(TreeBlocksBelow(a, k)) == Options(PreorderBelow(a, k))
    decreases a, k
  {
    hide Flat, Options, TreeBlocks, Preorder;
    if k == 0 {
      NoOptions();
    } else {
      var c := a.children[k - 1];
      TreeBlocksBelowArePreorder(a, k - 1);
      TreeBlocksArePreorder(c);
      FlatAdds(TreeBlocksBelow(a, k - 1), TreeBlocks(c));
      OptionsAdd(PreorderBelow(a, k - 1), Preorder(c));
    }
  }

  /** Every entry of a tree is an option with its aliases. */
  lemma {:induction false} TreeBlocksAreHeaded(a: Argp)
    requires StartsWell(a)
    ensures forall i :: 0 <= i < |TreeBlocks(a)| ==> Headed(TreeBlocks(a)[i])
    decreases a, |a.children| + 1
  {
    hide Headed, Blocks;
    BlockCount(Table(a));
    TreeBlocksBelowAreHeaded(a, |a.children|);
  }

  lemma {:induction false} TreeBlocksBelowAreHeaded(a: Argp, k: nat)
    requires StartsWell(a) && k <= |a.children|
    ensures forall i :: 0 <= i < |TreeBlocksBelow(a, k)| ==> Headed(TreeBlocksBelow(a, k)[i])
    decreases a, k
  {
    hide Headed;
    if k > 0 {
      TreeBlocksBelowAreHeaded(a, k - 1);
      TreeBlocksAreHeaded(a.children[k - 1]);
    }
  }

  lemma TreeStart(a: Argp)
    ensures (if a.options.Some? then Blocks(a.options.value) else []) == Blocks(Table(a)) + TreeBlocksBelow(a, 0)
  {
  }

  lemma TreeStep(a: Argp, i: nat)
    requires i < |a.children|
    ensures Blocks(Table(a)) + TreeBlocksBelow(a, i) + TreeBlocks(a.children[i])
      == Blocks(Table(a)) + TreeBlocksBelow(a, i + 1)
  {
    hide Blocks, TreeBlocks;
  }

  lemma TreeEnd(a: Argp)
    ensures TreeBlocks(a) == Blocks(Table(a)) + TreeBlocksBelow(a, |a.children|)
  {
  }

  /** argp_hol. */
  method ArgpHol(a: Argp) returns (hol: Hol)
    requires StartsWell(a)
    ensures fresh(hol) && fresh(hol.entries) && fresh(hol.shortOptions)
    ensures hol.Valid() && hol.blocks == TreeBlocks(a) && forall i :: 0 <= i < |hol.blocks| ==> Headed(hol.blocks[i])
    ensures hol.numEntries > 0 ==> Holds(hol.shortOptions, Keys(Options(Preorder(a))))
    decreases a
  {
    hide Keys, Flat, IsEntry, Blocks, TreeBlocks, TreeBlocksBelow, Headed, Preorder, Options;
    hol := new Hol(a.options);
    var i := 0;
    TreeStart(a);
    while i < |a.children|
      invariant i <= |a.children| && fresh(hol) && fresh(hol.entries) && fresh(hol.shortOptions)
      invariant hol.Valid() && hol.blocks == Blocks(Table(a)) + TreeBlocksBelow(a, i)
    {
      var more := ArgpHol(a.children[i]);
      hol.Append(more);
      TreeStep(a, i);
      i := i + 1;
    }
    TreeEnd(a);
    TreeBlocksArePreorder(a);
    TreeBlocksAreHeaded(a);
  }
}
