/** Exclusion lists of src/gnu/exclude.c: an ordered list of include and exclude patterns, compiled into segments that
    are either sets of names, kept in a hash table, or arrays of wildcard patterns. */
module Exclude {
  import opened Fnmatch

  /** The options of one pattern; EXCLUDE_REGEX and FNM_CASEFOLD are clear. */
  datatype Options = Options(
    anchored: bool, includes: bool, wildcards: bool, leadingDir: bool, pathname: bool, noescape: bool)

  function FlagsOf(o: Options): Flags {
    Flags(o.pathname, o.noescape, o.leadingDir)
  }

  /** fnmatch, as far as it is modelled: what it does with bracket expressions is left open. */
  type Matcher = (Flags, string, string) -> bool

  ghost predicate IsFnmatch(fn: Matcher) {
    forall f: Flags, p: string, s: string :: NoBracket(f, p) ==> (fn(f, p, s) <==> Answer(f, p, s))
  }

  // ---------------------------------------------------------------- patterns without wildcards

  /** src/gnu/exclude.c fnmatch_no_wildcards, read as a truth value. */
  predicate Plain(leadingDir: bool, p: string, s: string) {
    if leadingDir then p <= s && (|s| == |p| || s[|p|] == '/') else p == s
  }

  /** A wildcard character that is not escaped. */
  predicate HasWildcard(f: Flags, p: string) {
    if p == "" then false
    else if Escape(f, p) then |p| > 1 && HasWildcard(f, p[2..])
    else p[0] == '?' || p[0] == '*' || p[0] == '[' || HasWildcard(f, p[1..])
  }

  /** src/gnu/exclude.c fnmatch_pattern_has_wildcards. */
  method PatternHasWildcards(f: Flags, p: string) returns (r: bool)
    ensures r == HasWildcard(f, p)
  {
    var i := 0;
    assert p[0..] == p;
    while i < |p|
      invariant 0 <= i <= |p| && HasWildcard(f, p) == HasWildcard(f, p[i..])
    {
      assert p[i..][1..] == p[i + 1..];
      if p[i] == '\\' {
        assert i + 1 < |p| ==> p[i..][2..] == p[i + 2..];
        i := if !f.noescape && i + 1 < |p| then i + 2 else i + 1;
      } else if p[i] == '?' || p[i] == '*' || p[i] == '[' {
        return true;
      } else {
        i := i + 1;
      }
    }
    r := false;
  }

  /** The pattern with its escapes removed; a lone trailing backslash stays. */
  function Unescaped(p: string): (r: string)
    ensures |r| <= |p|
  {
    if p == "" then ""
    else if p[0] == '\\' && |p| > 1 then [p[1]] + Unescaped(p[2..])
    else [p[0]] + Unescaped(p[1..])
  }

  lemma UnescapedAt(text: string, q: nat)
    requires q < |text|
    ensures Unescaped(text[q..]) ==
      if text[q] == '\\' && q + 1 < |text| then [text[q + 1]] + Unescaped(text[q + 2..])
      else [text[q]] + Unescaped(text[q + 1..])
  {
    assert text[q..][1..] == text[q + 1..];
    if q + 1 < |text| {
      assert text[q..][2..] == text[q + 2..];
    }
  }

  /** The text from q on is still to be unescaped. */
  ghost predicate Remains(text: string, q: nat, done: string) {
    q <= |text| && done + Unescaped(text[q..]) == Unescaped(text)
  }

  lemma RemainsStep(text: string, q: nat, done: string)
    requires Remains(text, q, done) && q < |text|
    ensures var k := if text[q] == '\\' && q + 1 < |text| then q + 1 else q;
      Remains(text, k + 1, done + [text[k]])
  {
    UnescapedAt(text, q);
    hide Unescaped;
    var k := if text[q] == '\\' && q + 1 < |text| then q + 1 else q;
    assert done + ([text[k]] + Unescaped(text[k + 1..])) == (done + [text[k]]) + Unescaped(text[k + 1..]);
  }

  lemma RemainsEnds(text: string, done: string)
    ensures Remains(text, 0, "") && (Remains(text, |text|, done) ==> done == Unescaped(text))
  {
    assert text[0..] == text && text[|text|..] == "" && done + "" == done;
  }

  /** src/gnu/exclude.c unescape_pattern, in place on a string of length n behind which a null character stands. */
  method UnescapePattern(a: array<char>, n: nat) returns (m: nat)
    requires n < a.Length && a[n] == '\0' && '\0' !in a[..n]
    modifies a
    ensures m <= n && a[..m] == Unescaped(old(a[..n])) && a[m] == '\0'
  {
    hide Unescaped, Remains;
    var q, w := 0, 0;
    ghost var text, done := a[..n], "";
    RemainsEnds(text, done);
    while q < n
      invariant 0 <= w <= q <= n && a[n] == '\0' && |text| == n && done == a[..w]
      invariant forall i :: q <= i < n ==> a[i] == text[i]
      invariant Remains(text, q, done)
    {
      RemainsStep(text, q, done);
      assert q + 1 < n ==> text[q + 1] in text && a[q + 1] == text[q + 1];
      if a[q] == '\\' && a[q + 1] != '\0' {
        q := q + 1;
      }
      done := done + [text[q]];
      a[w] := a[q];
      assert a[..w + 1] == a[..w] + [a[w]];
      q, w := q + 1, w + 1;
    }
    a[w] := a[n];
    m := w;
    RemainsEnds(text, done);
  }

  /** For a pattern without wildcards, the two matchers agree on every name just when it does not end in a lone
      backslash, so that moving it, unescaped, to a set of names keeps its meaning. */
  lemma UnescapingKeepsMeaning(f: Flags, p: string)
    requires !HasWildcard(f, p)
    ensures (forall s :: Answer(f, p, s) <==> Plain(f.leadingDir, Stored(f, p), s)) <==> Complete(f, p)
  {
    NotStuck(f, p);
    if Complete(f, p) {
      forall s
        ensures Answer(f, p, s) <==> Plain(f.leadingDir, Stored(f, p), s)
      {
        PlainIsGlob(f, p, s);
      }
    } else {
      var s := Stored(f, p);
      IncompleteNeverMatches(f, p, s);
      assert !Answer(f, p, s) && Plain(f.leadingDir, s, s);
    }
  }

  /** The name that stands for a pattern without wildcards. */
  function Stored(f: Flags, p: string): string {
    if f.noescape then p else Unescaped(p)
  }

  lemma {:induction false} NotStuck(f: Flags, p: string)
    requires !HasWildcard(f, p)
    ensures !Stuck(f, p) && NoBracket(f, p)
    decreases |p|
  {
    if p != "" {
      var n := if Escape(f, p) then 2 else 1;
      if n <= |p| {
        NotStuck(f, p[n..]);
      }
    }
  }

  lemma {:induction false} PlainIsGlob(f: Flags, p: string, s: string)
    requires !HasWildcard(f, p) && Complete(f, p)
    ensures Glob(f, p, s) <==> Plain(f.leadingDir, Stored(f, p), s)
    decreases |p|
  {
    if p != "" {
      var n := if Escape(f, p) then 2 else 1;
      var c := p[n - 1];
      var q := Stored(f, p);
      assert q == [c] + Stored(f, p[n..]);
      if s != "" {
        PlainIsGlob(f, p[n..], s[1..]);
        PlainTail(f.leadingDir, c, Stored(f, p[n..]), s);
      }
    }
  }

  lemma PlainTail(leadingDir: bool, c: char, p: string, s: string)
    requires s != ""
    ensures Plain(leadingDir, [c] + p, s) <==> s[0] == c && Plain(leadingDir, p, s[1..])
  {
    assert s == [s[0]] + s[1..];
    if s[0] == c {
      assert [c] + p <= s <==> p <= s[1..];
      assert |p| < |s[1..]| ==> s[1..][|p|] == s[|p| + 1];
    }
  }

  // ---------------------------------------------------------------- matching a name, slowly and by lookup

  /** One attempt at the text s. */
  function Attempt(fn: Matcher, o: Options, p: string, s: string): bool {
    if o.wildcards then fn(FlagsOf(o), p, s) else Plain(o.leadingDir, p, s)
  }

  /** A place where exclude_fnmatch starts a match: the beginning, or behind a slash that no other slash follows. */
  predicate Entry(o: Options, name: string, i: int) {
    0 <= i <= |name| && (i == 0 || (!o.anchored && name[i - 1] == '/' && (i == |name| || name[i] != '/')))
  }

  ghost predicate Matches(fn: Matcher, o: Options, p: string, name: string) {
    exists i :: Entry(o, name, i) && Attempt(fn, o, p, name[i..])
  }

  /** src/gnu/exclude.c exclude_fnmatch. */
  method ExcludeFnmatch(fn: Matcher, o: Options, p: string, name: string) returns (matched: bool)
    ensures matched == Matches(fn, o, p, name) == Direct(fn, Item(p, o), name)
  {
    DirectIsMatches(fn, Item(p, o), name);
    assert Entry(o, name, 0) && name[0..] == name;
    matched := Attempt(fn, o, p, name);
    if !o.anchored {
      var i := 0;
      while i < |name| && !matched
        invariant 0 <= i <= |name|
        invariant matched ==> Matches(fn, o, p, name)
        invariant !matched ==> forall j :: 0 <= j <= i && Entry(o, name, j) ==> !Attempt(fn, o, p, name[j..])
      {
        if name[i] == '/' && (i + 1 == |name| || name[i + 1] != '/') {
          assert Entry(o, name, i + 1);
          matched := Attempt(fn, o, p, name[i + 1..]);
        }
        i := i + 1;
      }
    }
  }

  /** A place where file_name_matches starts: the beginning, or behind any slash. */
  predicate Origin(o: Options, name: string, i: int) {
    0 <= i <= |name| && (i == 0 || (!o.anchored && name[i - 1] == '/'))
  }

  /** A place where a looked-up text may end. */
  predicate Terminus(o: Options, name: string, k: int) {
    0 <= k <= |name| && (k == |name| || (o.leadingDir && name[k] == '/'))
  }

  ghost predicate Hit(o: Options, names: set<string>, name: string, i: int, k: int) {
    Origin(o, name, i) && Terminus(o, name, k) && i <= k && name[i..k] in names
  }

  ghost predicate LookedUp(o: Options, names: set<string>, name: string) {
    exists i, k :: Hit(o, names, name, i, k)
  }

  /** strrchr for a slash: the last slash of s, or its length. */
  method LastSlash(s: string) returns (k: nat)
    ensures k <= |s| && (k < |s| ==> s[k] == '/') && forall j :: 0 <= j < |s| && s[j] == '/' ==> j <= k < |s|
  {
    k := |s|;
    var i := |s|;
    while i > 0
      invariant 0 <= i <= |s| && k == |s| && forall j :: i <= j < |s| ==> s[j] != '/'
    {
      i := i - 1;
      if s[i] == '/' {
        return i;
      }
    }
  }

  /** The inner loop of file_name_matches: the buffer holds the name from i on, and is cut at its last slash until it
      is found or no slash is left. */
  method LookUpFrom(o: Options, names: set<string>, name: string, i: nat) returns (found: bool)
    requires Origin(o, name, i)
    ensures found <==> exists k :: Hit(o, names, name, i, k)
  {
    var buffer := name[i..];
    ghost var end := |name|;
    while true
      invariant i <= end <= |name| && buffer == name[i..end] && Terminus(o, name, end)
      invariant forall k :: end < k <= |name| ==> !Hit(o, names, name, i, k)
      decreases |buffer|
    {
      if buffer in names {
        assert Hit(o, names, name, i, end);
        return true;
      }
      assert !Hit(o, names, name, i, end);
      if !o.leadingDir {
        return false;
      }
      var cut := LastSlash(buffer);
      if cut == |buffer| {
        assert forall k :: i <= k < end ==> name[k] == buffer[k - i];
        return false;
      }
      assert name[i + cut] == buffer[cut];
      assert forall k :: i + cut < k < end ==> name[k] == buffer[k - i];
      buffer, end := buffer[..cut], i + cut;
    }
  }

  /** src/gnu/exclude.c file_name_matches. */
  method FileNameMatches(o: Options, names: set<string>, name: string) returns (found: bool)
    ensures found == LookedUp(o, names, name)
  {
    var start := 0;
    while true
      invariant Origin(o, name, start)
      invariant forall i, k :: 0 <= i < start ==> !Hit(o, names, name, i, k)
      decreases |name| - start
    {
      found := LookUpFrom(o, names, name, start);
      if found || o.anchored {
        return;
      }
      var slash := start;
      while slash < |name| && name[slash] != '/'
        invariant start <= slash <= |name| && forall j :: start <= j < slash ==> name[j] != '/'
      {
        slash := slash + 1;
      }
      if slash == |name| {
        return;
      }
      start := slash + 1;
    }
  }

  /** A lookup finds a name at least whenever the slow matcher matches one of the names. */
  lemma LookupFindsMatches(fn: Matcher, o: Options, names: set<string>, name: string, x: string)
    requires !o.wildcards && x in names && Matches(fn, o, x, name)
    ensures LookedUp(o, names, name)
  {
    var i :| Entry(o, name, i) && Attempt(fn, o, x, name[i..]);
    var k := i + |x|;
    assert name[i..k] == x;
    assert k < |name| ==> name[k] == name[i..][|x|];
    assert Hit(o, names, name, i, k);
  }

  ghost predicate NoDoubleSlash(name: string) {
    forall i :: 0 < i < |name| ==> name[i - 1] != '/' || name[i] != '/'
  }

  lemma HitIsMatch(fn: Matcher, o: Options, names: set<string>, name: string, i: int, k: int)
    requires !o.wildcards && Hit(o, names, name, i, k) && Entry(o, name, i)
    ensures name[i..k] in names && Matches(fn, o, name[i..k], name)
  {
    assert name[i..k] <= name[i..];
    assert k < |name| ==> name[i..][k - i] == name[k];
    assert Attempt(fn, o, name[i..k], name[i..]);
  }

  /** The text behind a double slash matches the name anyway, as a leading directory of the whole. */
  predicate Harmless(o: Options, name: string) {
    o.anchored || forall i :: 0 < i < |name| && name[i - 1] == '/' && name[i] == '/' ==>
      o.leadingDir && Plain(true, name[i..], name)
  }

  /** On a given name, lookup and slow matching agree for every set of names just when each of its double slashes is
      harmless. */
  lemma LookupIsMatchingExactly(fn: Matcher, o: Options, name: string)
    requires !o.wildcards
    ensures (forall names :: LookedUp(o, names, name) <==> exists x :: x in names && Matches(fn, o, x, name))
      <==> Harmless(o, name)
  {
    if Harmless(o, name) {
      forall names
        ensures LookedUp(o, names, name) <==> exists x :: x in names && Matches(fn, o, x, name)
      {
        HarmlessLookup(fn, o, names, name);
      }
    } else {
      var i :| 0 < i < |name| && name[i - 1] == '/' && name[i] == '/'
        && !(o.leadingDir && Plain(true, name[i..], name));
      var names := {name[i..]};
      DoubleSlashMatch(fn, o, name, i);
      assert LookedUp(o, names, name) && !exists x :: x in names && Matches(fn, o, x, name);
    }
  }

  /** In a name whose double slashes are harmless, a lookup finds a name just when the slow matcher matches one. */
  lemma HarmlessLookup(fn: Matcher, o: Options, names: set<string>, name: string)
    requires !o.wildcards && Harmless(o, name)
    ensures LookedUp(o, names, name) <==> exists x :: x in names && Matches(fn, o, x, name)
  {
    if LookedUp(o, names, name) {
      var i, k :| Hit(o, names, name, i, k);
      HarmlessHit(fn, o, names, name, i, k);
    }
    if exists x :: x in names && Matches(fn, o, x, name) {
      var x :| x in names && Matches(fn, o, x, name);
      LookupFindsMatches(fn, o, names, name, x);
    }
  }

  /** In a name without consecutive slashes, it finds one only then. */
  lemma LookupIsMatching(fn: Matcher, o: Options, names: set<string>, name: string)
    requires !o.wildcards && NoDoubleSlash(name)
    ensures LookedUp(o, names, name) <==> exists x :: x in names && Matches(fn, o, x, name)
  {
    HarmlessLookup(fn, o, names, name);
  }

  lemma HarmlessHit(fn: Matcher, o: Options, names: set<string>, name: string, i: int, k: int)
    requires !o.wildcards && Hit(o, names, name, i, k) && Harmless(o, name)
    ensures name[i..k] in names && Matches(fn, o, name[i..k], name)
  {
    if Entry(o, name, i) {
      HitIsMatch(fn, o, names, name, i, k);
    } else {
      var t := name[i..];
      assert Plain(true, t, name);
      assert name[i..k] == t[..k - i];
      assert k < |name| ==> t[k - i] == name[k] == name[k - i];
      assert name[0..] == name && Entry(o, name, 0) && Attempt(fn, o, name[i..k], name[0..]);
    }
  }

  /** The text from the second of two slashes on is found when it is stored, but the slow matcher matches it just when
      it is a leading directory of the whole name. */
  lemma DoubleSlashMatch(fn: Matcher, o: Options, name: string, i: int)
    requires !o.wildcards && !o.anchored && 0 < i < |name| && name[i - 1] == '/' && name[i] == '/'
    ensures LookedUp(o, {name[i..]}, name)
    ensures Matches(fn, o, name[i..], name) <==> o.leadingDir && Plain(true, name[i..], name)
  {
    assert name[i..|name|] == name[i..];
    assert Hit(o, {name[i..]}, name, i, |name|);
    assert name[0..] == name && Entry(o, name, 0);
    if Matches(fn, o, name[i..], name) {
      var j :| Entry(o, name, j) && Attempt(fn, o, name[i..], name[j..]);
      assert |name[i..]| <= |name[j..]|;
      assert name[j..][0] == name[i..][0] == '/';
      assert j == 0;
    } else {
      assert !Attempt(fn, o, name[i..], name[0..]);
    }
  }

  /** A name on which the two disagree: with /b stored, the lookup finds it in a//b and the slow matcher does not. */
  lemma DoubleSlashExample(fn: Matcher)
    ensures var o := Options(false, false, false, false, false, false);
      var name := "a//b";
      !Harmless(o, name) && LookedUp(o, {"/b"}, name) && !Matches(fn, o, "/b", name)
  {
    var o, name := Options(false, false, false, false, false, false), "a//b";
    assert name[1] == '/' && name[2] == '/' && name[2..] == "/b";
    DoubleSlashMatch(fn, o, name, 2);
  }

  // ---------------------------------------------------------------- the list

  /** One call of add_exclude. */
  datatype Item = Item(pattern: string, options: Options)

  datatype Segment =
    | Names(options: Options, names: set<string>)
    | Patterns(options: Options, patterns: seq<Item>)

  /** The item goes to a segment of wildcard patterns. */
  predicate IsPattern(e: Item) {
    e.options.wildcards && HasWildcard(FlagsOf(e.options), e.pattern)
  }

  /** What add_exclude stores for an item that does not. */
  function NameOf(e: Item): string {
    if e.options.wildcards then Stored(FlagsOf(e.options), e.pattern) else e.pattern
  }

  /** The item applies to the name, as the segment that holds it decides. */
  ghost predicate Applies(fn: Matcher, e: Item, name: string) {
    if IsPattern(e) then Matches(fn, e.options, e.pattern, name) else LookedUp(e.options, {NameOf(e)}, name)
  }

  /** The verdict of the last item that applies: true for excluded. */
  ghost function LastVerdict(fn: Matcher, items: seq<Item>, name: string): seq<bool> {
    if items == [] then []
    else
      var e := items[|items| - 1];
      if Applies(fn, e, name) then [!e.options.includes] else LastVerdict(fn, items[..|items| - 1], name)
  }

  /** The specification of excluded_file_name on the options in their original order. */
  ghost function Excluded(fn: Matcher, items: seq<Item>, name: string): bool {
    var v := LastVerdict(fn, items, name);
    if v != [] then v[0] else items != [] && items[0].options.includes
  }

  lemma {:induction false} LastVerdictAppend(fn: Matcher, a: seq<Item>, b: seq<Item>, name: string)
    ensures var v := LastVerdict(fn, b, name);
      LastVerdict(fn, a + b, name) == if v != [] then v else LastVerdict(fn, a, name)
    decreases |b|
  {
    if b == [] {
      assert a + b == a;
    } else {
      var n := |b| - 1;
      assert (a + b)[|a + b| - 1] == b[n] && (a + b)[..|a + b| - 1] == a + b[..n];
      LastVerdictAppend(fn, a, b[..n], name);
    }
  }

  /** Items of one polarity give that polarity if any of them applies. */
  lemma {:induction false} LastVerdictOfBlock(fn: Matcher, b: seq<Item>, includes: bool, name: string)
    requires forall i :: 0 <= i < |b| ==> b[i].options.includes == includes
    ensures LastVerdict(fn, b, name) == if exists i :: 0 <= i < |b| && Applies(fn, b[i], name) then [!includes] else []
    decreases |b|
  {
    if b != [] {
      var n := |b| - 1;
      LastVerdictOfBlock(fn, b[..n], includes, name);
      if Applies(fn, b[n], name) {
        assert 0 <= n < |b|;
      } else {
        assert forall i :: 0 <= i < n ==> b[..n][i] == b[i];
      }
    }
  }

  /** The blocks of items behind the segments, oldest items first. */
  ghost function Flat(blocks: seq<seq<Item>>): seq<Item> {
    if blocks == [] then [] else Flat(blocks[1..]) + blocks[0]
  }

  ghost predicate SameLookup(a: Options, b: Options) {
    a.includes == b.includes && a.anchored == b.anchored && a.leadingDir == b.leadingDir
  }

  /** A segment holds exactly the items of its block. */
  ghost predicate Holds(seg: Segment, block: seq<Item>) {
    block != [] && match seg
    case Patterns(o, patterns) =>
      && patterns == block
      && forall i :: 0 <= i < |block| ==> IsPattern(block[i]) && block[i].options.includes == o.includes
    case Names(o, names) =>
      && (forall i :: 0 <= i < |block| ==>
        !IsPattern(block[i]) && SameLookup(block[i].options, o) && NameOf(block[i]) in names)
      && (forall x :: x in names ==> exists i :: 0 <= i < |block| && NameOf(block[i]) == x)
  }

  lemma LookupIgnores(a: Options, b: Options, names: set<string>, name: string)
    requires SameLookup(a, b)
    ensures LookedUp(a, names, name) <==> LookedUp(b, names, name)
  {
    assert forall i, k :: Hit(a, names, name, i, k) <==> Hit(b, names, name, i, k);
  }

  /** A set of names is found just when one of its names is. */
  lemma LookupOfBlock(fn: Matcher, seg: Segment, block: seq<Item>, name: string)
    requires Holds(seg, block) && seg.Names?
    ensures LookedUp(seg.options, seg.names, name) <==> exists i :: 0 <= i < |block| && Applies(fn, block[i], name)
  {
    var o, names := seg.options, seg.names;
    if LookedUp(o, names, name) {
      var i, k :| Hit(o, names, name, i, k);
      var n :| 0 <= n < |block| && NameOf(block[n]) == name[i..k];
      assert Hit(o, {NameOf(block[n])}, name, i, k);
      LookupIgnores(block[n].options, o, {NameOf(block[n])}, name);
      assert Applies(fn, block[n], name);
    }
    if exists n :: 0 <= n < |block| && Applies(fn, block[n], name) {
      var n :| 0 <= n < |block| && Applies(fn, block[n], name);
      LookupIgnores(block[n].options, o, {NameOf(block[n])}, name);
      var i, k :| Hit(o, {NameOf(block[n])}, name, i, k);
      assert Hit(o, names, name, i, k);
    }
  }

  /** struct exclude: segments newest first, as in the linked list of the source. */
  class ExcludeList {
    const fn: Matcher
    var head: seq<Segment>
    ghost var blocks: seq<seq<Item>>

    constructor (fn: Matcher)
      ensures this.fn == fn && Valid() && Items() == []
    {
      this.fn, head, blocks := fn, [], [];
    }

    ghost predicate Valid()
      reads this
    {
      |head| == |blocks| && forall i :: 0 <= i < |head| ==> Holds(head[i], blocks[i])
    }

    /** The options given so far, in order. */
    ghost function Items(): seq<Item>
      reads this
    {
      Flat(blocks)
    }

    /** The text add_exclude enters into a hash table. */
    static method NameToStore(pattern: string, o: Options) returns (text: string)
      requires '\0' !in pattern
      ensures text == NameOf(Item(pattern, o))
    {
      text := pattern;
      if o.wildcards && !o.noescape {
        var n := |pattern|;
        var str := new char[n + 1](i => if 0 <= i < n then pattern[i] else '\0');
        assert str[..n] == pattern;
        var m := UnescapePattern(str, n);
        text := str[..m];
      }
    }

    /** src/gnu/exclude.c add_exclude. */
    method AddExclude(pattern: string, o: Options)
      requires Valid() && '\0' !in pattern
      modifies this
      ensures Valid() && Items() == old(Items()) + [Item(pattern, o)]
    {
      ghost var item := Item(pattern, o);
      var wild := false;
      if o.wildcards {
        wild := PatternHasWildcards(FlagsOf(o), pattern);
      }
      if wild {
        if !(head != [] && head[0].Patterns? && head[0].options.includes == o.includes) {
          head := [Patterns(o, [Item(pattern, o)])] + head;
          OpenBlock(item);
        } else {
          head := head[0 := Patterns(head[0].options, head[0].patterns + [Item(pattern, o)])];
          ExtendBlock(item);
        }
      } else {
        var name := NameToStore(pattern, o);
        if !(head != [] && head[0].Names? && head[0].options.includes == o.includes
             && head[0].options.anchored == o.anchored && head[0].options.leadingDir == o.leadingDir) {
          head := [Names(o, {name})] + head;
          NewNames(item);
          OpenBlock(item);
        } else {
          MoreNames(head[0], blocks[0], item);
          head := head[0 := Names(head[0].options, head[0].names + {name})];
          ExtendBlock(item);
        }
      }
    }

    static lemma NewNames(item: Item)
      requires !IsPattern(item)
      ensures Holds(Names(item.options, {NameOf(item)}), [item])
    {
      assert [item][0] == item;
    }

    static lemma MoreNames(seg: Segment, block: seq<Item>, item: Item)
      requires Holds(seg, block) && seg.Names? && !IsPattern(item) && SameLookup(item.options, seg.options)
      ensures Holds(Names(seg.options, seg.names + {NameOf(item)}), block + [item])
    {
      var b := block + [item];
      forall x | x in seg.names + {NameOf(item)}
        ensures exists i :: 0 <= i < |b| && NameOf(b[i]) == x
      {
        if x == NameOf(item) {
          assert b[|block|] == item;
        } else {
          var i :| 0 <= i < |block| && NameOf(block[i]) == x;
          assert b[i] == block[i];
        }
      }
    }

    ghost method OpenBlock(item: Item)
      requires |head| == |blocks| + 1 && Holds(head[0], [item])
      requires forall i :: 0 < i < |head| ==> Holds(head[i], blocks[i - 1])
      modifies `blocks
      ensures Valid() && Items() == Flat(old(blocks)) + [item]
    {
      blocks := [[item]] + blocks;
      assert blocks[1..] == old(blocks);
    }

    ghost method ExtendBlock(item: Item)
      requires |head| == |blocks| > 0 && Holds(head[0], blocks[0] + [item])
      requires forall i :: 0 < i < |head| ==> Holds(head[i], blocks[i])
      modifies `blocks
      ensures Valid() && Items() == Flat(old(blocks)) + [item]
    {
      blocks := blocks[0 := blocks[0] + [item]];
      assert blocks[1..] == old(blocks)[1..];
      assert Flat(blocks[1..]) + (old(blocks)[0] + [item]) == (Flat(blocks[1..]) + old(blocks)[0]) + [item];
    }

    /** src/gnu/exclude.c file_pattern_matches. */
    method FilePatternMatches(patterns: seq<Item>, name: string) returns (found: bool)
      ensures found <==> exists i ::
        0 <= i < |patterns| && Matches(fn, patterns[i].options, patterns[i].pattern, name)
    {
      for i := 0 to |patterns|
        invariant forall j :: 0 <= j < i ==> !Matches(fn, patterns[j].options, patterns[j].pattern, name)
      {
        var matched := ExcludeFnmatch(fn, patterns[i].options, patterns[i].pattern, name);
        if matched {
          return true;
        }
      }
      found := false;
    }

    /** Whether any item of a segment applies. */
    method SegmentMatches(seg: Segment, ghost block: seq<Item>, name: string) returns (found: bool)
      requires Holds(seg, block)
      ensures found <==> exists i :: 0 <= i < |block| && Applies(fn, block[i], name)
    {
      match seg
      case Names(o, names) =>
        LookupOfBlock(fn, seg, block, name);
        found := FileNameMatches(o, names, name);
      case Patterns(o, patterns) =>
        found := FilePatternMatches(patterns, name);
        assert forall i :: 0 <= i < |block| ==>
          (Applies(fn, block[i], name) <==> Matches(fn, patterns[i].options, patterns[i].pattern, name));
    }

    /** src/gnu/exclude.c excluded_file_name: the last option that applies decides; if none does, the opposite of the
        first one. */
    method ExcludedFileName(name: string) returns (excluded: bool)
      requires Valid()
      ensures excluded == Excluded(fn, Items(), name)
    {
      hide Holds, Flat, LastVerdict, Applies;
      if head == [] {
        NothingApplies(fn, blocks, name);
        return false;
      }
      var i := 0;
      assert blocks[0..] == blocks;
      while true
        invariant 0 <= i < |head|
        invariant LastVerdict(fn, Flat(blocks), name) == LastVerdict(fn, Flat(blocks[i..]), name)
        decreases |head| - i
      {
        var found := SegmentMatches(head[i], blocks[i], name);
        VerdictAt(fn, blocks, i, head[i], name);
        if found {
          return !head[i].options.includes;
        }
        if i + 1 == |head| {
          assert blocks[i + 1..] == [];
          NothingApplies(fn, blocks[i + 1..], name);
          HeldBlocks(head, blocks);
          FirstItem(blocks);
          return head[i].options.includes;
        }
        i := i + 1;
      }
    }

    /** What a segment contributes to the verdict of itself and the older ones. */
    static lemma VerdictAt(fn: Matcher, blocks: seq<seq<Item>>, i: nat, seg: Segment, name: string)
      requires i < |blocks| && Holds(seg, blocks[i])
      ensures LastVerdict(fn, Flat(blocks[i..]), name)
        == if exists j :: 0 <= j < |blocks[i]| && Applies(fn, blocks[i][j], name) then [!seg.options.includes]
           else LastVerdict(fn, Flat(blocks[i + 1..]), name)
      ensures forall j :: 0 <= j < |blocks[i]| ==> blocks[i][j].options.includes == seg.options.includes
    {
      hide Applies, LastVerdict;
      assert blocks[i..][0] == blocks[i] && blocks[i..][1..] == blocks[i + 1..];
      LastVerdictAppend(fn, Flat(blocks[i + 1..]), blocks[i], name);
      LastVerdictOfBlock(fn, blocks[i], seg.options.includes, name);
    }

    static lemma NothingApplies(fn: Matcher, blocks: seq<seq<Item>>, name: string)
      ensures blocks == [] ==> Flat(blocks) == [] && LastVerdict(fn, Flat(blocks), name) == []
    {
    }

    static lemma HeldBlocks(segs: seq<Segment>, blocks: seq<seq<Item>>)
      requires |segs| == |blocks| && forall i :: 0 <= i < |segs| ==> Holds(segs[i], blocks[i])
      ensures forall i :: 0 <= i < |blocks| ==> blocks[i] != []
    {
    }

    static lemma {:induction false} FirstItem(blocks: seq<seq<Item>>)
      requires blocks != [] && forall i :: 0 <= i < |blocks| ==> blocks[i] != []
      ensures Flat(blocks) != [] && Flat(blocks)[0] == blocks[|blocks| - 1][0]
      decreases |blocks|
    {
      if |blocks| == 1 {
        assert Flat(blocks[1..]) == [];
      } else {
        FirstItem(blocks[1..]);
      }
    }
  }

  // ---------------------------------------------------------------- the compiled list against exclude_fnmatch

  /** exclude_fnmatch, called on the option as it was given: the pattern matches the text from the beginning of the name
      on or, if it is not anchored, from behind a slash on that no other slash follows. With wildcards, fnmatch decides
      under the flags of the option; without, the text is the pattern, or a part of it up to a slash is if leading
      directories will do. */
  ghost predicate Direct(fn: Matcher, e: Item, name: string) {
    var o, p := e.options, e.pattern;
    exists i {:trigger name[i..]} ::
      && 0 <= i <= |name|
      && (i == 0 || (!o.anchored && name[i - 1] == '/' && (i == |name| || name[i] != '/')))
      && if o.wildcards then fn(Flags(o.pathname, o.noescape, o.leadingDir), p, name[i..])
         else p == name[i..] || (o.leadingDir && p + "/" <= name[i..])
  }

  lemma PlainMeans(leadingDir: bool, p: string, s: string)
    ensures Plain(leadingDir, p, s) <==> p == s || (leadingDir && p + "/" <= s)
  {
    if p <= s && |p| < |s| && s[|p|] == '/' {
      assert s[..|p| + 1] == p + "/";
    }
  }

  lemma DirectIsMatches(fn: Matcher, e: Item, name: string)
    ensures Direct(fn, e, name) <==> Matches(fn, e.options, e.pattern, name)
  {
    var o, p := e.options, e.pattern;
    forall i | 0 <= i <= |name|
      ensures Plain(o.leadingDir, p, name[i..]) <==> p == name[i..] || (o.leadingDir && p + "/" <= name[i..])
    {
      PlainMeans(o.leadingDir, p, name[i..]);
    }
    hide Plain;
    if i :| Entry(o, name, i) && Attempt(fn, o, p, name[i..]) {
      assert 0 <= i <= |name| && name[i..] == name[i..];
    }
    if Direct(fn, e, name) {
      var i :| 0 <= i <= |name|
        && (i == 0 || (!o.anchored && name[i - 1] == '/' && (i == |name| || name[i] != '/')))
        && if o.wildcards then fn(Flags(o.pathname, o.noescape, o.leadingDir), p, name[i..])
           else p == name[i..] || (o.leadingDir && p + "/" <= name[i..]);
      assert Entry(o, name, i) && Attempt(fn, o, p, name[i..]);
    }
  }

  /** Moving a pattern without wildcards to a set of names does not change what exclude_fnmatch says of it. */
  lemma AppliesIsDirect(fn: Matcher, e: Item, name: string)
    requires IsFnmatch(fn) && (!IsPattern(e) ==> Harmless(e.options, name))
    requires e.options.wildcards && !IsPattern(e) ==> Complete(FlagsOf(e.options), e.pattern)
    ensures Applies(fn, e, name) <==> Direct(fn, e, name)
  {
    if !IsPattern(e) {
      var plain := e.options.(wildcards := false);
      var x := NameOf(e);
      LookupIgnores(e.options, plain, {x}, name);
      HarmlessLookup(fn, plain, {x}, name);
      if e.options.wildcards {
        var f := FlagsOf(e.options);
        UnescapingKeepsMeaning(f, e.pattern);
        NotStuck(f, e.pattern);
        assert forall s :: fn(f, e.pattern, s) <==> Answer(f, e.pattern, s);
        forall i | Entry(e.options, name, i)
          ensures Entry(plain, name, i)
          ensures Attempt(fn, e.options, e.pattern, name[i..]) <==> Attempt(fn, plain, x, name[i..])
        {
        }
        assert forall i :: Entry(plain, name, i) ==> Entry(e.options, name, i);
      }
      assert Matches(fn, plain, x, name) <==> Matches(fn, e.options, e.pattern, name);
    }
    DirectIsMatches(fn, e, name);
  }

  lemma {:induction false} LastOneDecides(fn: Matcher, items: seq<Item>, name: string, j: nat)
    requires j < |items| && Applies(fn, items[j], name)
    requires forall i :: j < i < |items| ==> !Applies(fn, items[i], name)
    ensures LastVerdict(fn, items, name) == [!items[j].options.includes]
    decreases |items|
  {
    var n := |items| - 1;
    if j < n {
      assert !Applies(fn, items[n], name);
      LastOneDecides(fn, items[..n], name, j);
    }
  }

  lemma {:induction false} NoneDecides(fn: Matcher, items: seq<Item>, name: string)
    requires forall i :: 0 <= i < |items| ==> !Applies(fn, items[i], name)
    ensures LastVerdict(fn, items, name) == []
    decreases |items|
  {
    if items != [] {
      var n := |items| - 1;
      assert !Applies(fn, items[n], name);
      NoneDecides(fn, items[..n], name);
    }
  }

  /** Every pattern that is stored as a name keeps its meaning there. */
  ghost predicate AllComplete(items: seq<Item>) {
    forall i :: 0 <= i < |items| && items[i].options.wildcards && !IsPattern(items[i]) ==>
      Complete(FlagsOf(items[i].options), items[i].pattern)
  }

  /** The double slashes of the name do not matter to any stored name. */
  ghost predicate AllHarmless(items: seq<Item>, name: string) {
    forall i :: 0 <= i < |items| && !IsPattern(items[i]) ==> Harmless(items[i].options, name)
  }

  /** Option j is the last one that exclude_fnmatch matches. */
  ghost predicate LastDirect(fn: Matcher, items: seq<Item>, name: string, j: int) {
    0 <= j < |items| && Direct(fn, items[j], name) && forall i :: j < i < |items| ==> !Direct(fn, items[i], name)
  }

  /** The compiled list gives the polarity of the last option that exclude_fnmatch matches; if it matches none, the
      opposite of the polarity of the first, and false for an empty list. */
  lemma LastMatchDecides(fn: Matcher, items: seq<Item>, name: string)
    requires IsFnmatch(fn) && AllHarmless(items, name) && AllComplete(items)
    ensures forall j :: LastDirect(fn, items, name, j) ==> Excluded(fn, items, name) == !items[j].options.includes
    ensures (forall i :: 0 <= i < |items| ==> !Direct(fn, items[i], name)) ==>
      Excluded(fn, items, name) == (items != [] && items[0].options.includes)
  {
    hide Applies, Direct, LastVerdict, IsFnmatch;
    forall i | 0 <= i < |items|
      ensures Applies(fn, items[i], name) <==> Direct(fn, items[i], name)
    {
      AppliesIsDirect(fn, items[i], name);
    }
    forall j | LastDirect(fn, items, name, j)
      ensures Excluded(fn, items, name) == !items[j].options.includes
    {
      LastOneDecides(fn, items, name, j);
    }
    if forall i :: 0 <= i < |items| ==> !Direct(fn, items[i], name) {
      NoneDecides(fn, items, name);
    }
  }

  // ---------------------------------------------------------------- what FNM_PATHNAME means for a list

  /** Under FNM_PATHNAME, an option without a slash matches no text with one: only the whole name or its last
      component. */
  lemma SlashStopsPattern(fn: Matcher, e: Item, name: string)
    requires IsFnmatch(fn) && e.options.wildcards && e.options.pathname && !e.options.leadingDir
    requires '/' !in e.pattern && '[' !in e.pattern && Direct(fn, e, name)
    ensures exists i :: 0 <= i <= |name| && (i == 0 || (!e.options.anchored && name[i - 1] == '/')) && '/' !in name[i..]
  {
    var f := Flags(e.options.pathname, e.options.noescape, e.options.leadingDir);
    var i :| 0 <= i <= |name| && (i == 0 || (!e.options.anchored && name[i - 1] == '/')) && fn(f, e.pattern, name[i..]);
    NoBracketAtAll(f, e.pattern);
    NoSlashCrossed(f, e.pattern, name[i..]);
  }

  lemma {:induction false} NoBracketAtAll(f: Flags, p: string)
    requires '[' !in p
    ensures NoBracket(f, p)
    decreases |p|
  {
    if p != "" {
      if Escape(f, p) && |p| > 1 {
        NoBracketAtAll(f, p[2..]);
      } else {
        NoBracketAtAll(f, p[1..]);
      }
    }
  }

  lemma LetterStar(f: Flags, c: char)
    requires Literal(c)
    ensures NoBracket(f, [c, '*']) && !Stuck(f, [c, '*']) && HasWildcard(f, [c, '*'])
  {
    var p := [c, '*'];
    assert p[1..] == ['*'] && p[1..][1..] == "";
    assert NoBracket(f, p[1..]) && HasWildcard(f, p[1..]);
    assert !SlashAfterRun(f, "") && !StarBeforeEscapedSlash(f, "");
    assert !StarBeforeEscapedSlash(f, p[1..]);
  }

  /** An anchored letter with a star: it matches the names that start with the letter and, under FNM_PATHNAME, have no
      slash behind it, unless leading directories will do. */
  lemma PrefixStar(fn: Matcher, o: Options, c: char, name: string)
    requires IsFnmatch(fn) && o.wildcards && o.anchored && Literal(c)
    ensures Direct(fn, Item([c, '*'], o), name) <==>
      name != "" && name[0] == c && (o.pathname && !o.leadingDir ==> '/' !in name[1..])
  {
    var f, p := Flags(o.pathname, o.noescape, o.leadingDir), [c, '*'];
    assert p[1..] == ['*'] && p[1..][1..] == "";
    assert name[0..] == name;
    assert Direct(fn, Item(p, o), name) <==> fn(f, p, name);
    LetterStar(f, c);
    if name != "" {
      StarAtEnd(f, name[1..]);
    }
  }

  /** A list with that one option excludes just those names. */
  lemma PrefixStarExcludes(fn: Matcher, o: Options, c: char, name: string)
    requires IsFnmatch(fn) && o.wildcards && o.anchored && !o.includes && Literal(c)
    ensures Excluded(fn, [Item([c, '*'], o)], name) <==>
      name != "" && name[0] == c && (o.pathname && !o.leadingDir ==> '/' !in name[1..])
  {
    var e := Item([c, '*'], o);
    var items := [e];
    PrefixStar(fn, o, c, name);
    LetterStar(FlagsOf(o), c);
    DirectIsMatches(fn, e, name);
    assert items[..0] == [];
    hide Matches, Direct;
    assert LastVerdict(fn, items[..0], name) == [];
    assert Applies(fn, e, name) <==> Direct(fn, e, name);
    assert LastVerdict(fn, items, name) == if Applies(fn, e, name) then [true] else [];
  }
}
