/** Pattern matching of src/gnu/fnmatch_loop.c, for single-byte patterns of literals, escapes, `?` and `*`, with the
    flags FNM_PATHNAME, FNM_NOESCAPE and FNM_LEADING_DIR. */
module Fnmatch {

  datatype Flags = Flags(pathname: bool, noescape: bool, leadingDir: bool)

  const MATCH := 0
  const NOMATCH := 1

  /** A character no wildcard may match. */
  predicate Barrier(f: Flags, c: char) {
    f.pathname && c == '/'
  }

  /** The pattern starts with an escaped character, or with a lone trailing backslash. */
  predicate Escape(f: Flags, p: string) {
    p != "" && p[0] == '\\' && !f.noescape
  }

  /** Where a match may end: at the end of the name, or before a slash if leading directories will do. */
  predicate MayEnd(f: Flags, s: string) {
    s == "" || (f.leadingDir && s[0] == '/')
  }

  /** The first k characters hold no barrier, so a star may match them. */
  ghost predicate Free(f: Flags, s: string, k: int) {
    0 <= k <= |s| && forall i :: 0 <= i < k ==> !Barrier(f, s[i])
  }

  /** The glob relation of section 2.13 (Pattern Matching Notation) of POSIX.1-2017, Shell and Utilities. */
  ghost predicate Glob(f: Flags, p: string, s: string)
    decreases |p|
  {
    if p == "" then MayEnd(f, s)
    else if p[0] == '*' then exists k :: Free(f, s, k) && Glob(f, p[1..], s[k..])
    else if Escape(f, p) then |p| > 1 && s != "" && s[0] == p[1] && Glob(f, p[2..], s[1..])
    else if p[0] == '?' then s != "" && !Barrier(f, s[0]) && Glob(f, p[1..], s[1..])
    else s != "" && s[0] == p[0] && Glob(f, p[1..], s[1..])
  }

  /** No bracket expression starts in the pattern. */
  predicate NoBracket(f: Flags, p: string) {
    if p == "" then true
    else if Escape(f, p) then |p| == 1 || NoBracket(f, p[2..])
    else p[0] != '[' && NoBracket(f, p[1..])
  }

  /** The pattern does not end in a lone backslash. */
  predicate Complete(f: Flags, p: string) {
    if p == "" then true
    else if Escape(f, p) then |p| > 1 && Complete(f, p[2..])
    else Complete(f, p[1..])
  }

  /** Wildcards followed by an escaped slash. */
  predicate SlashAfterRun(f: Flags, p: string) {
    p != "" && if p[0] == '?' || p[0] == '*' then SlashAfterRun(f, p[1..]) else Escape(f, p) && |p| > 1 && p[1] == '/'
  }

  /** Somewhere a star, and wildcards behind it, are followed by an escaped slash. */
  predicate StarBeforeEscapedSlash(f: Flags, p: string) {
    if p == "" then false
    else if Escape(f, p) then |p| > 1 && StarBeforeEscapedSlash(f, p[2..])
    else (p[0] == '*' && SlashAfterRun(f, p[1..])) || StarBeforeEscapedSlash(f, p[1..])
  }

  /** The patterns whose stars the matcher cannot match: an escaped slash is looked for before the next slash only. */
  predicate Stuck(f: Flags, p: string) {
    f.pathname && StarBeforeEscapedSlash(f, p)
  }

  // ---------------------------------------------------------------- stars

  /** A star matches nothing, or one more character. */
  lemma StarUnfolds(f: Flags, r: string, s: string)
    ensures Glob(f, "*" + r, s) <==>
      Glob(f, r, s) || (s != "" && !Barrier(f, s[0]) && Glob(f, "*" + r, s[1..]))
  {
    var p := "*" + r;
    assert p[1..] == r;
    if Glob(f, p, s) {
      var k :| Free(f, s, k) && Glob(f, r, s[k..]);
      if k == 0 {
        assert s[0..] == s;
      } else {
        assert Free(f, s[1..], k - 1) && s[1..][k - 1..] == s[k..];
        assert !Barrier(f, s[0]);
      }
    }
    if Glob(f, r, s) {
      assert Free(f, s, 0) && s[0..] == s;
    }
    if s != "" && !Barrier(f, s[0]) && Glob(f, p, s[1..]) {
      var k :| Free(f, s[1..], k) && Glob(f, r, s[1..][k..]);
      forall i | 0 <= i < k + 1
        ensures !Barrier(f, s[i])
      {
        if i > 0 {
          assert s[i] == s[1..][i - 1];
        }
      }
      assert Free(f, s, k + 1) && s[1..][k..] == s[k + 1..];
    }
  }

  /** A second star adds nothing. */
  lemma {:induction false} StarStar(f: Flags, r: string, s: string)
    ensures Glob(f, "*" + ("*" + r), s) <==> Glob(f, "*" + r, s)
    decreases |s|
  {
    StarUnfolds(f, "*" + r, s);
    StarUnfolds(f, r, s);
    if s != "" {
      StarStar(f, r, s[1..]);
    }
  }

  lemma {:induction false} AnyUnfolds(f: Flags, r: string, s: string)
    ensures Glob(f, "?" + r, s) <==> s != "" && !Barrier(f, s[0]) && Glob(f, r, s[1..])
  {
    assert ("?" + r)[1..] == r;
  }

  /** A star and a question mark may change places. */
  lemma {:induction false} StarAny(f: Flags, r: string, s: string)
    ensures Glob(f, "*" + ("?" + r), s) <==> s != "" && !Barrier(f, s[0]) && Glob(f, "*" + r, s[1..])
    decreases |s|
  {
    StarUnfolds(f, "?" + r, s);
    AnyUnfolds(f, r, s);
    if s != "" {
      StarAny(f, r, s[1..]);
      StarUnfolds(f, r, s[1..]);
    }
  }

  /** A final star matches unless a slash it may not cross is left. */
  lemma {:induction false} StarAtEnd(f: Flags, s: string)
    ensures Glob(f, "*", s) <==> !f.pathname || f.leadingDir || '/' !in s
    decreases |s|
  {
    assert "*" + "" == "*";
    StarUnfolds(f, "", s);
    if s != "" {
      StarAtEnd(f, s[1..]);
      assert s == [s[0]] + s[1..];
    }
  }

  /** The rest of the pattern matches what is left when the star has matched k characters. */
  ghost predicate Continues(f: Flags, r: string, s: string, k: int) {
    Free(f, s, k) && Glob(f, r, s[k..])
  }

  lemma StarContinues(f: Flags, r: string, s: string)
    ensures Glob(f, "*" + r, s) <==> exists k :: Continues(f, r, s, k)
  {
    assert ("*" + r)[1..] == r;
    if Glob(f, "*" + r, s) {
      var k :| Free(f, s, k) && Glob(f, r, s[k..]);
      assert Continues(f, r, s, k);
    }
  }

  /** The pattern matches the first k characters, and the match may end there. */
  ghost predicate MatchesPart(f: Flags, p: string, s: string, k: int) {
    0 <= k <= |s| && MayEnd(f, s[k..]) && Glob(f.(leadingDir := false), p, s[..k])
  }

  lemma {:induction false} PartOfMatch(f: Flags, p: string, s: string) returns (k: nat)
    requires Glob(f, p, s)
    ensures MatchesPart(f, p, s, k)
    decreases |p|
  {
    if p == "" {
      k := 0;
      assert s[0..] == s;
    } else if p[0] == '*' {
      var j :| Free(f, s, j) && Glob(f, p[1..], s[j..]);
      k := PartOfMatch(f, p[1..], s[j..]);
      assert s[j..][k..] == s[j + k..] && s[..j + k][j..] == s[j..][..k];
      k := j + k;
      assert Free(f.(leadingDir := false), s[..k], j);
    } else {
      var n := if Escape(f, p) then 2 else 1;
      k := PartOfMatch(f, p[n..], s[1..]);
      assert s[1..][k..] == s[k + 1..] && s[..k + 1][1..] == s[1..][..k];
      k := k + 1;
    }
  }

  lemma {:induction false} MatchOfPart(f: Flags, p: string, s: string, k: nat)
    requires MatchesPart(f, p, s, k)
    ensures Glob(f, p, s)
    decreases |p|
  {
    var g, t := f.(leadingDir := false), s[..k];
    if p == "" {
      assert t == "" && s[k..] == s;
    } else if p[0] == '*' {
      var j :| Free(g, t, j) && Glob(g, p[1..], t[j..]);
      assert t[j..] == s[j..][..k - j] && s[j..][k - j..] == s[k..];
      MatchOfPart(f, p[1..], s[j..], k - j);
      assert forall i :: 0 <= i < j ==> t[i] == s[i];
      assert Free(f, s, j);
    } else {
      var n := if Escape(f, p) then 2 else 1;
      assert t[0] == s[0] && t[1..] == s[1..][..k - 1] && s[1..][k - 1..] == s[k..];
      MatchOfPart(f, p[n..], s[1..], k - 1);
    }
  }

  /** With FNM_LEADING_DIR the pattern matches a name just when, without it, it matches the whole name or a part of it
      that ends before a slash. */
  lemma LeadingDirectory(f: Flags, p: string, s: string)
    requires f.leadingDir
    ensures Glob(f, p, s) <==>
      exists k :: 0 <= k <= |s| && (k == |s| || s[k] == '/') && Glob(f.(leadingDir := false), p, s[..k])
  {
    if Glob(f, p, s) {
      var k := PartOfMatch(f, p, s);
      assert k < |s| ==> s[k..][0] == s[k];
    }
    if exists k :: 0 <= k <= |s| && (k == |s| || s[k] == '/') && Glob(f.(leadingDir := false), p, s[..k]) {
      var k :| 0 <= k <= |s| && (k == |s| || s[k] == '/') && Glob(f.(leadingDir := false), p, s[..k]);
      MatchOfPart(f, p, s, k);
    }
  }

  // ---------------------------------------------------------------- what fixes the relation

  /** Characters that stand for themselves. */
  predicate Literal(c: char) {
    c != '*' && c != '?' && c != '[' && c != '\\'
  }

  /** What each element of a pattern matches: a literal itself, an escape the character behind it, a question mark one
      character and a star any number of them, but no slash under FNM_PATHNAME. */
  lemma ElementsMean(f: Flags, c: char, s: string)
    requires !f.leadingDir
    ensures Glob(f, "", s) <==> s == ""
    ensures Literal(c) ==> (Glob(f, [c], s) <==> s == [c])
    ensures !f.noescape ==> (Glob(f, ['\\', c], s) <==> s == [c])
    ensures f.noescape ==> (Glob(f, ['\\'], s) <==> s == ['\\'])
    ensures Glob(f, ['?'], s) <==> |s| == 1 && (f.pathname ==> s != "/")
    ensures Glob(f, ['*'], s) <==> (f.pathname ==> '/' !in s)
  {
    hide Glob;
    GlobEmpty(f, s);
    if Literal(c) {
      LiteralAlone(f, c, s);
    }
    if f.noescape {
      LiteralAlone(f, '\\', s);
    } else {
      EscapeAlone(f, c, s);
    }
    AnyAlone(f, s);
    StarAlone(f, s);
  }

  /** What is left of a name behind its first character is empty just for a name of one character. */
  lemma GlobOneMore(f: Flags, s: string)
    requires !f.leadingDir && s != ""
    ensures Glob(f, "", s[1..]) <==> s == [s[0]]
  {
    assert s[1..] == "" ==> s == [s[0]];
  }

  lemma LiteralAlone(f: Flags, c: char, s: string)
    requires !f.leadingDir && c != '*' && c != '?' && (c == '\\' ==> f.noescape)
    ensures Glob(f, [c], s) <==> s == [c]
  {
    assert [c][1..] == "" && !Escape(f, [c]);
    if s != "" {
      GlobOneMore(f, s);
    }
  }

  lemma EscapeAlone(f: Flags, c: char, s: string)
    requires !f.leadingDir && !f.noescape
    ensures Glob(f, ['\\', c], s) <==> s == [c]
  {
    assert ['\\', c][2..] == "" && Escape(f, ['\\', c]);
    if s != "" {
      GlobOneMore(f, s);
    }
  }

  lemma AnyAlone(f: Flags, s: string)
    requires !f.leadingDir
    ensures Glob(f, ['?'], s) <==> |s| == 1 && (f.pathname ==> s != "/")
  {
    assert ['?'][1..] == "";
    if s != "" {
      GlobOneMore(f, s);
    }
  }

  lemma GlobEmpty(f: Flags, s: string)
    requires !f.leadingDir
    ensures Glob(f, "", s) <==> s == ""
  {
  }

  lemma StarAlone(f: Flags, s: string)
    requires !f.leadingDir
    ensures Glob(f, ['*'], s) <==> (f.pathname ==> '/' !in s)
  {
    assert ['*'][1..] == "";
    assert Glob(f, ['*'], s) <==> exists k :: Free(f, s, k) && Glob(f, "", s[k..]);
    if k :| Free(f, s, k) && Glob(f, "", s[k..]) {
      GlobEmpty(f, s[k..]);
      assert k == |s|;
    }
    if f.pathname ==> '/' !in s {
      assert Free(f, s, |s|) && Glob(f, "", s[|s|..]);
    }
  }

  /** The first k characters match p, and the others q. */
  ghost predicate Parts(f: Flags, p: string, q: string, s: string, k: int) {
    0 <= k <= |s| && Glob(f, p, s[..k]) && Glob(f, q, s[k..])
  }

  /** A pattern matches what its parts match one after the other. With the elements above, this is all there is to the
      relation. */
  lemma {:induction false} GlobConcatenates(f: Flags, p: string, q: string, s: string)
    requires !f.leadingDir && Complete(f, p)
    ensures Glob(f, p + q, s) <==> exists k :: Parts(f, p, q, s, k)
    decreases |p|
  {
    if Glob(f, p + q, s) {
      var k := PartsOfMatch(f, p, q, s);
    }
    if k :| Parts(f, p, q, s, k) {
      MatchOfParts(f, p, q, s, k);
    }
  }

  lemma {:induction false} PartsOfMatch(f: Flags, p: string, q: string, s: string) returns (k: int)
    requires !f.leadingDir && Complete(f, p) && Glob(f, p + q, s)
    ensures Parts(f, p, q, s, k)
    decreases |p|
  {
    if p == "" {
      assert p + q == q && s[0..] == s && s[..0] == "";
      k := 0;
    } else {
      var n := if Escape(f, p) then 2 else 1;
      assert (p + q)[n..] == p[n..] + q && (|p| > 1 ==> (p + q)[1] == p[1]);
      if p[0] == '*' {
        var j :| Free(f, s, j) && Glob(f, p[1..] + q, s[j..]);
        k := PartsOfMatch(f, p[1..], q, s[j..]);
        assert s[..j + k][j..] == s[j..][..k] && s[j + k..] == s[j..][k..];
        assert Free(f, s[..j + k], j) && Glob(f, p[1..], s[..j + k][j..]);
        k := j + k;
      } else {
        k := PartsOfMatch(f, p[n..], q, s[1..]);
        assert s[..k + 1][1..] == s[1..][..k] && s[k + 1..] == s[1..][k..];
        k := k + 1;
      }
    }
  }

  lemma {:induction false} MatchOfParts(f: Flags, p: string, q: string, s: string, k: int)
    requires !f.leadingDir && Complete(f, p) && Parts(f, p, q, s, k)
    ensures Glob(f, p + q, s)
    decreases |p|
  {
    if p == "" {
      GlobEmpty(f, s[..k]);
      assert p + q == q && s[0..] == s;
    } else {
      var n := if Escape(f, p) then 2 else 1;
      assert (p + q)[n..] == p[n..] + q && (|p| > 1 ==> (p + q)[1] == p[1]);
      if p[0] == '*' {
        var j :| Free(f, s[..k], j) && Glob(f, p[1..], s[..k][j..]);
        assert s[..k][j..] == s[j..][..k - j] && s[k..] == s[j..][k - j..];
        MatchOfParts(f, p[1..], q, s[j..], k - j);
        assert Free(f, s, j);
      } else {
        assert k > 0 && s[..k][1..] == s[1..][..k - 1] && s[k..] == s[1..][k - 1..];
        MatchOfParts(f, p[n..], q, s[1..], k - 1);
      }
    }
  }

  /** Under FNM_PATHNAME a pattern without a slash matches no text with one. */
  lemma {:induction false} NoSlashCrossed(f: Flags, p: string, s: string)
    requires f.pathname && !f.leadingDir && '/' !in p && Glob(f, p, s)
    ensures '/' !in s
    decreases |p|
  {
    if p != "" {
      if p[0] == '*' {
        var k :| Free(f, s, k) && Glob(f, p[1..], s[k..]);
        NoSlashCrossed(f, p[1..], s[k..]);
        assert s == s[..k] + s[k..];
      } else if Escape(f, p) {
        NoSlashCrossed(f, p[2..], s[1..]);
        assert s == [s[0]] + s[1..];
      } else {
        NoSlashCrossed(f, p[1..], s[1..]);
        assert s == [s[0]] + s[1..];
      }
    }
  }

  // ---------------------------------------------------------------- the matcher

  /** What the matcher answers: the glob relation, except that it misses every match of a stuck pattern. */
  ghost predicate Answer(f: Flags, p: string, s: string) {
    Glob(f, p, s) && !Stuck(f, p)
  }

  lemma StuckBehind(f: Flags, c: char, r: string)
    requires c != '\\'
    ensures StarBeforeEscapedSlash(f, [c] + r) == ((c == '*' && SlashAfterRun(f, r)) || StarBeforeEscapedSlash(f, r))
    ensures SlashAfterRun(f, [c] + r) == ((c == '?' || c == '*') && SlashAfterRun(f, r))
  {
    assert ([c] + r)[1..] == r;
  }

  lemma RunStar(f: Flags, r: string, s: string)
    ensures Answer(f, "*" + ("*" + r), s) <==> Answer(f, "*" + r, s)
  {
    StarStar(f, r, s);
    StuckBehind(f, '*', "*" + r);
    StuckBehind(f, '*', r);
  }

  lemma RunAny(f: Flags, r: string, s: string)
    ensures Answer(f, "*" + ("?" + r), s) <==> s != "" && !Barrier(f, s[0]) && Answer(f, "*" + r, s[1..])
  {
    StarAny(f, r, s);
    StuckBehind(f, '*', "?" + r);
    StuckBehind(f, '?', r);
    StuckBehind(f, '*', r);
  }

  /** The star before a slash: only the next slash will do. */
  lemma StarBeforeSlash(f: Flags, r: string, s: string, i: nat)
    requires f.pathname && i <= |s| && Free(f, s, i) && (i < |s| ==> s[i] == '/')
    ensures Answer(f, "*" + ("/" + r), s) <==> i < |s| && Answer(f, r, s[i + 1..])
  {
    var p := "/" + r;
    assert p[1..] == r;
    StuckBehind(f, '*', p);
    StuckBehind(f, '/', r);
    StarContinues(f, p, s);
    if i < |s| {
      assert s[i..][0] == '/' && s[i..][1..] == s[i + 1..];
      assert Glob(f, p, s[i..]) <==> Glob(f, r, s[i + 1..]);
      assert Glob(f, p, s[i..]) ==> Continues(f, p, s, i);
    }
    if exists k :: Continues(f, p, s, k) {
      var k :| Continues(f, p, s, k);
      assert s[k..][0] == s[k] == '/';
      assert k == i;
    }
  }

  /** The character a match of p must start with, when p starts with a literal or an escape. */
  function Initial(f: Flags, p: string): char
    requires p != ""
  {
    if Escape(f, p) then (if |p| > 1 then p[1] else '\0') else p[0]
  }

  /** Behind a star, a match can only continue at the initial character of the rest, in reach of the star. */
  lemma StarBeforeText(f: Flags, r: string, s: string, endp: nat)
    requires r != "" && r[0] != '?' && r[0] != '*'
    requires endp <= |s| && Free(f, s, endp) && (endp < |s| ==> Barrier(f, s[endp]))
    requires !(f.pathname && r[0] == '/')
    ensures Answer(f, "*" + r, s) <==> exists k :: 0 <= k < endp && s[k] == Initial(f, r) && Answer(f, r, s[k..])
  {
    StarContinues(f, r, s);
    assert ("*" + r)[1..] == r;
    if Answer(f, "*" + r, s) {
      var k :| Continues(f, r, s, k);
      assert s[k..][0] == s[k] == Initial(f, r);
      assert k <= endp;
      assert k < endp;
    }
    if exists k :: 0 <= k < endp && s[k] == Initial(f, r) && Answer(f, r, s[k..]) {
      var k :| 0 <= k < endp && s[k] == Initial(f, r) && Answer(f, r, s[k..]);
      assert Continues(f, r, s, k);
      assert !Barrier(f, s[k]);
    }
  }

  lemma NoBracketInside(f: Flags, p: string)
    requires NoBracket(f, p) && p != "" && !Escape(f, p)
    ensures NoBracket(f, p[1..])
  {
  }

  /** The part of the matcher behind a star, where `p` is the rest of the pattern. */
  method MatchStar(f: Flags, p: string, str: string) returns (r: int)
    requires NoBracket(f, p)
    ensures r == MATCH || r == NOMATCH
    ensures r == MATCH <==> Answer(f, "*" + p, str)
    decreases |p|, 1
  {
    hide Answer;
    var q, n := 0, 0;
    while q < |p| && (p[q] == '?' || p[q] == '*')
      invariant 0 <= q <= |p| && 0 <= n <= |str|
      invariant NoBracket(f, p[q..])
      invariant Answer(f, "*" + p, str) <==> Answer(f, "*" + p[q..], str[n..])
    {
      assert p[q..] == [p[q]] + p[q + 1..] && p[q..][1..] == p[q + 1..];
      NoBracketInside(f, p[q..]);
      if p[q] == '?' {
        RunAny(f, p[q + 1..], str[n..]);
        if n == |str| {
          return NOMATCH;
        } else if str[n] == '/' && f.pathname {
          return NOMATCH;
        }
        assert str[n..][1..] == str[n + 1..];
        n := n + 1;
      } else {
        RunStar(f, p[q + 1..], str[n..]);
      }
      q := q + 1;
    }
    if q == |p| {
      assert "*" + p[q..] == "*";
      EndsInStar(f, str[n..]);
      return if !f.pathname || f.leadingDir || '/' !in str[n..] then MATCH else NOMATCH;
    }
    r := MatchBehindStar(f, p[q..], str[n..]);
  }

  lemma EndsInStar(f: Flags, s: string)
    ensures Answer(f, "*", s) <==> !f.pathname || f.leadingDir || '/' !in s
  {
    StarAtEnd(f, s);
    assert ['*'] + "" == "*";
    StuckBehind(f, '*', "");
  }

  /** The search behind a star for a place where the rest of the pattern, which starts with text, matches. */
  method MatchBehindStar(f: Flags, p: string, str: string) returns (r: int)
    requires NoBracket(f, p) && p != "" && p[0] != '?' && p[0] != '*'
    ensures r == MATCH || r == NOMATCH
    ensures r == MATCH <==> Answer(f, "*" + p, str)
    decreases |p|, 0, 1
  {
    hide Answer;
    var endp := 0;
    while endp < |str| && !Barrier(f, str[endp])
      invariant endp <= |str| && Free(f, str, endp)
    {
      endp := endp + 1;
    }
    if p[0] == '/' && f.pathname {
      assert p == "/" + p[1..];
      StarBeforeSlash(f, p[1..], str, endp);
      NoBracketInside(f, p);
      if endp < |str| {
        r := Match(f, p[1..], str[endp + 1..]);
        return;
      }
      return NOMATCH;
    }
    StarBeforeText(f, p, str, endp);
    var n := 0;
    while n < endp
      invariant 0 <= n <= endp
      invariant forall k :: 0 <= k < n ==> !(str[k] == Initial(f, p) && Answer(f, p, str[k..]))
    {
      if str[n] == Initial(f, p) {
        r := Match(f, p, str[n..]);
        if r == MATCH {
          return;
        }
      }
      n := n + 1;
    }
    r := NOMATCH;
  }

  /** Reading one literal or question mark off the pattern. */
  lemma PlainStep(f: Flags, p: string, s: string)
    requires p != "" && p[0] != '*' && !Escape(f, p)
    ensures Answer(f, p, s) <==>
      s != "" && (if p[0] == '?' then !Barrier(f, s[0]) else s[0] == p[0]) && Answer(f, p[1..], s[1..])
  {
  }

  lemma EscapeStep(f: Flags, p: string, s: string)
    requires Escape(f, p)
    ensures Answer(f, p, s) <==> |p| > 1 && s != "" && s[0] == p[1] && Answer(f, p[2..], s[1..])
  {
  }

  /** src/gnu/fnmatch_loop.c FCT. */
  method Match(f: Flags, pattern: string, str: string) returns (r: int)
    requires NoBracket(f, pattern)
    ensures r == MATCH || r == NOMATCH
    ensures r == MATCH <==> Answer(f, pattern, str)
    decreases |pattern|, 0, 0
  {
    hide Answer;
    var p, n := 0, 0;
    assert pattern[0..] == pattern && str[0..] == str;
    while p < |pattern|
      invariant 0 <= p <= |pattern| && 0 <= n <= |str|
      invariant NoBracket(f, pattern[p..])
      invariant Answer(f, pattern, str) <==> Answer(f, pattern[p..], str[n..])
    {
      var c := pattern[p];
      assert pattern[p..][0] == c && pattern[p..][1..] == pattern[p + 1..];
      assert n < |str| ==> str[n..][0] == str[n] && str[n..][1..] == str[n + 1..];
      if c == '*' {
        assert pattern[p..] == "*" + pattern[p + 1..];
        r := MatchStar(f, pattern[p + 1..], str[n..]);
        return;
      }
      if c == '\\' && !f.noescape {
        EscapeStep(f, pattern[p..], str[n..]);
        p := p + 1;
        if p == |pattern| {
          return NOMATCH;
        }
        c := pattern[p];
        assert pattern[p - 1..][1] == c && pattern[p - 1..][2..] == pattern[p + 1..];
        if n == |str| || str[n] != c {
          return NOMATCH;
        }
      } else {
        PlainStep(f, pattern[p..], str[n..]);
        if n == |str| {
          return NOMATCH;
        } else if c == '?' {
          if str[n] == '/' && f.pathname {
            return NOMATCH;
          }
        } else if str[n] != c {
          return NOMATCH;
        }
      }
      p, n := p + 1, n + 1;
    }
    assert pattern[p..] == "";
    AtEnd(f, str[n..]);
    r := if n == |str| || (f.leadingDir && str[n] == '/') then MATCH else NOMATCH;
  }

  lemma AtEnd(f: Flags, s: string)
    ensures Answer(f, "", s) <==> MayEnd(f, s)
  {
  }

  // ---------------------------------------------------------------- when the matcher is exact

  lemma {:induction false} IncompleteNeverMatches(f: Flags, p: string, s: string)
    requires !Complete(f, p)
    ensures !Glob(f, p, s)
    decreases |p|
  {
    if p[0] == '*' && Glob(f, p, s) {
      var k :| Free(f, s, k) && Glob(f, p[1..], s[k..]);
      IncompleteNeverMatches(f, p[1..], s[k..]);
    } else if s != "" {
      var n := if Escape(f, p) then 2 else 1;
      if n <= |p| {
        IncompleteNeverMatches(f, p[n..], s[1..]);
      }
    }
  }

  /** A name the pattern matches. */
  function Sample(f: Flags, p: string): string {
    if p == "" then ""
    else if p[0] == '*' then Sample(f, p[1..])
    else if Escape(f, p) then (if |p| > 1 then [p[1]] + Sample(f, p[2..]) else "")
    else (if p[0] == '?' then "x" else [p[0]]) + Sample(f, p[1..])
  }

  lemma {:induction false} SampleMatches(f: Flags, p: string)
    requires Complete(f, p)
    ensures Glob(f, p, Sample(f, p))
    decreases |p|
  {
    var s := Sample(f, p);
    if p != "" {
      if p[0] == '*' {
        SampleMatches(f, p[1..]);
        assert Free(f, s, 0) && s[0..] == s;
      } else {
        var n := if Escape(f, p) then 2 else 1;
        SampleMatches(f, p[n..]);
        assert s[1..] == Sample(f, p[n..]);
      }
    }
  }

  /** The matcher decides the glob relation on every name just when the pattern is not stuck, or matches nothing
      anyway because of a lone trailing backslash. */
  lemma ExactUnlessStuck(f: Flags, p: string)
    ensures (forall s :: Answer(f, p, s) <==> Glob(f, p, s)) <==> !Stuck(f, p) || !Complete(f, p)
  {
    if Complete(f, p) {
      SampleMatches(f, p);
      assert Answer(f, p, Sample(f, p)) <==> !Stuck(f, p);
    } else {
      forall s
        ensures !Glob(f, p, s)
      {
        IncompleteNeverMatches(f, p, s);
      }
    }
  }

  /** An input on which the matcher misses a match: the pattern star, escaped slash, against the name a/. */
  lemma StuckExample()
    ensures var f := Flags(true, false, false); Glob(f, "*\\/", "a/") && !Answer(f, "*\\/", "a/")
  {
    var f, p, s := Flags(true, false, false), "*\\/", "a/";
    assert p[1..] == "\\/" && p[1..][2..] == "" && s[1..] == "/" && s[1..][1..] == "";
    assert Glob(f, "\\/", "/");
    assert Free(f, s, 1);
  }
}
