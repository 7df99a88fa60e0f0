/** Whole runs of operations on a hash table (src/gnu/hash.c) against a set of representatives. */
module HashRuns {
  import opened HashModel
  import opened HashTuning
  import opened HashTables
  import Primes

  /** One call by the user; Retune stands for the user changing the ratios the table points to. */
  datatype Op =
    | Insert(e: int)
    | Delete(e: int)
    | LookUp(e: int)
    | Clear
    | Resize(candidate: nat)
    | Retune(ratios: Tuning)

  datatype Reply =
    | Inserted(code: int, matched: int)
    | Entry(d: int)
    | Nothing

  /** What the source asks of its callers, who may set any ratios at all: a rehash needs a meaningful candidate. */
  predicate Permitted(op: Op, ratios: Tuning) {
    match op
    case Insert(e) => e != NULL
    case Resize(candidate) => candidate <= Primes.SIZE_MAX && Usable(candidate, ratios)
    case _ => true
  }

  /** The ratios the user has set last before operation i. */
  function RatiosAt(ratios: Tuning, ops: seq<Op>, i: nat): Tuning
    requires i <= |ops|
  {
    if i == 0 then ratios
    else if ops[i - 1].Retune? then ops[i - 1].ratios
    else RatiosAt(ratios, ops, i - 1)
  }

  lemma RatiosStep(ratios: Tuning, ops: seq<Op>, i: nat)
    requires i < |ops|
    ensures RatiosAt(ratios, ops, i + 1) == if ops[i].Retune? then ops[i].ratios else RatiosAt(ratios, ops, i)
    ensures Permitted(ops[i], RatiosAt(ratios, ops, i)) ==> Permitted(ops[i], DEFAULT)
  {
  }

  /** The reply tells the truth about a set of pairwise different entries. */
  ghost predicate Truthful(eq: (int, int) -> bool, s: set<int>, op: Op, reply: Reply) {
    match op
    case Insert(e) =>
      && reply.Inserted? && (reply.code == 1 || reply.code == 0 || reply.code == -1)
      && IsMatch(eq, s, e, if reply.code == 0 then reply.matched else NULL)
      && (reply.code == 0 ==> reply.matched != NULL)
    case Delete(e) => reply.Entry? && IsMatch(eq, s, e, reply.d)
    case LookUp(e) => reply.Entry? && IsMatch(eq, s, e, reply.d)
    case _ => reply.Nothing?
  }

  /** The set after one operation. */
  ghost function Next(s: set<int>, op: Op, reply: Reply): set<int> {
    if op.Insert? && reply.Inserted? && reply.code == 1 then s + {op.e}
    else if op.Delete? && reply.Entry? && reply.d != NULL then s - {reply.d}
    else if op.Clear? then {}
    else s
  }

  /** The set after the first n operations. */
  ghost function SetAfter(s: set<int>, ops: seq<Op>, replies: seq<Reply>, n: nat): set<int>
    requires n <= |ops| && n <= |replies|
  {
    if n == 0 then s else Next(SetAfter(s, ops, replies, n - 1), ops[n - 1], replies[n - 1])
  }

  /** Longer lists of replies do not change the past. */
  lemma {:induction false} SetAfterPrefix(s: set<int>, ops: seq<Op>, replies: seq<Reply>, more: seq<Reply>, n: nat)
    requires n <= |ops| && n <= |replies|
    ensures SetAfter(s, ops, replies, n) == SetAfter(s, ops, replies + more, n)
  {
    if n > 0 {
      SetAfterPrefix(s, ops, replies, more, n - 1);
    }
  }

  method Perform(t: Table, op: Op) returns (reply: Reply)
    requires t.Valid() && Permitted(op, t.tuning)
    modifies t, t.bucket, t.heap, t.heap.nodes
    ensures t.Valid()
    ensures if op.Retune? then t.tuning == op.ratios else t.tuning == old(t.tuning) || t.tuning == DEFAULT
    ensures old(t.heap.nodes) <= t.heap.nodes
    ensures forall n :: n in t.heap.nodes ==> n in old(t.heap.nodes) || fresh(n)
    ensures t.bucket == old(t.bucket) || fresh(t.bucket)
    ensures Truthful(t.eq, old(t.items), op, reply) && t.items == Next(old(t.items), op, reply)
    ensures t.Stock() == old(t.Stock())
  {
    hide Table.Chained, Table.FreeListed, Sound, Refusals, Later, Shrank, Sparse, Full, NoSize, SizeFor, CannotGrow;
    reply := Nothing;
    match op
    case Insert(e) =>
      var code, matched := t.InsertIfAbsent(e);
      reply := Inserted(code, matched);
    case Delete(e) =>
      var d := t.Delete(e);
      reply := Entry(d);
    case LookUp(e) =>
      var d := t.Lookup(e);
      reply := Entry(d);
    case Clear =>
      t.Clear();
    case Resize(candidate) =>
      var ok := t.RehashTo(candidate);
    case Retune(ratios) =>
      t.tuning := ratios;
  }

  /** Over any run, whatever malloc answers and whatever ratios the user sets, the table stays valid, every reply is
      truthful about the set the earlier replies imply, and at the end the table holds exactly that set. No overflow
      node is lost or counted twice. */
  method Run(t: Table, ops: seq<Op>) returns (replies: seq<Reply>)
    requires t.Valid() && forall i :: 0 <= i < |ops| ==> Permitted(ops[i], RatiosAt(t.tuning, ops, i))
    modifies t, t.bucket, t.heap, t.heap.nodes
    ensures t.Valid() && |replies| == |ops|
    ensures forall i :: 0 <= i < |ops| ==> Truthful(t.eq, SetAfter(old(t.items), ops, replies, i), ops[i], replies[i])
    ensures t.items == SetAfter(old(t.items), ops, replies, |ops|)
    ensures t.Stock() == old(t.Stock())
  {
    hide Table.Valid, Answered, Permitted, RatiosAt;
    replies := [];
    AnsweredStart(t.eq, t.items, ops, t.tuning);
    for i := 0 to |ops|
      invariant t.Valid() && t.Stock() == old(t.Stock())
      invariant t.tuning == RatiosAt(old(t.tuning), ops, i) || t.tuning == DEFAULT
      invariant old(t.heap.nodes) <= t.heap.nodes
      invariant forall n :: n in t.heap.nodes ==> n in old(t.heap.nodes) || fresh(n)
      invariant t.bucket == old(t.bucket) || fresh(t.bucket)
      invariant Answered(t.eq, old(t.items), t.items, ops, replies, i)
    {
      ghost var items := t.items;
      RatiosStep(old(t.tuning), ops, i);
      var reply := Perform(t, ops[i]);
      AnsweredStep(t.eq, old(t.items), items, ops, replies, i, reply);
      replies := replies + [reply];
    }
    AnsweredEnd(t.eq, old(t.items), t.items, ops, replies);
  }

  /** The first i operations have been answered truthfully, and `now` is the set they imply. */
  ghost predicate Answered(
    eq: (int, int) -> bool, start: set<int>, now: set<int>, ops: seq<Op>, replies: seq<Reply>, i: nat)
  {
    && |replies| == i <= |ops| && now == SetAfter(start, ops, replies, i)
    && forall j :: 0 <= j < i ==> Truthful(eq, SetAfter(start, ops, replies, j), ops[j], replies[j])
  }

  lemma AnsweredStart(eq: (int, int) -> bool, start: set<int>, ops: seq<Op>, ratios: Tuning)
    ensures Answered(eq, start, start, ops, [], 0) && RatiosAt(ratios, ops, 0) == ratios
  {
  }

  lemma AnsweredStep(
    eq: (int, int) -> bool, start: set<int>, now: set<int>, ops: seq<Op>, replies: seq<Reply>, i: nat, reply: Reply)
    requires Answered(eq, start, now, ops, replies, i) && i < |ops| && Truthful(eq, now, ops[i], reply)
    ensures Answered(eq, start, Next(now, ops[i], reply), ops, replies + [reply], i + 1)
  {
    hide Truthful, Next;
    forall j | 0 <= j <= i
      ensures SetAfter(start, ops, replies + [reply], j) == SetAfter(start, ops, replies, j)
    {
      SetAfterPrefix(start, ops, replies, [reply], j);
    }
  }

  lemma AnsweredEnd(eq: (int, int) -> bool, start: set<int>, now: set<int>, ops: seq<Op>, replies: seq<Reply>)
    requires Answered(eq, start, now, ops, replies, |ops|)
    ensures |replies| == |ops| && now == SetAfter(start, ops, replies, |ops|)
    ensures forall i :: 0 <= i < |ops| ==> Truthful(eq, SetAfter(start, ops, replies, i), ops[i], replies[i])
  {
  }

  /** Some entry of the set matches e. */
  ghost predicate Represented(eq: (int, int) -> bool, s: set<int>, e: int) {
    exists x :: x in s && Same(eq, e, x)
  }

  lemma RepresentedBy(eq: (int, int) -> bool, s: set<int>, e: int, x: int)
    requires x in s && Same(eq, e, x)
    ensures Represented(eq, s, e)
  {
  }

  lemma RepresentedInMore(eq: (int, int) -> bool, s: set<int>, t: set<int>, e: int)
    requires Represented(eq, s, e) && s <= t
    ensures Represented(eq, t, e)
  {
  }

  /** No entry matches another one, or one of the set. */
  ghost predicate AllNew(eq: (int, int) -> bool, s: set<int>, es: seq<int>) {
    && (forall i :: 0 <= i < |es| ==> !Represented(eq, s, es[i]))
    && forall i, j :: 0 <= i < |es| && 0 <= j < |es| && i != j ==> !Same(eq, es[i], es[j])
  }

  /** The indices of the entries that the set has no match for. */
  ghost function LeftOut(eq: (int, int) -> bool, s: set<int>, es: seq<int>): set<int> {
    set i | 0 <= i < |es| && !Represented(eq, s, es[i])
  }

  lemma SubsetIsSmaller(a: set<int>, b: set<int>)
    requires a <= b
    ensures |a| <= |b|
  {
    assert b == a + (b - a);
  }

  function Elements(es: seq<int>): set<int> {
    set e | e in es
  }

  lemma ElementsStep(es: seq<int>, i: nat)
    requires i < |es|
    ensures Elements(es[..i + 1]) == Elements(es[..i]) + {es[i]}
  {
    assert es[..i + 1] == es[..i] + [es[i]];
  }

  /** What the first i entries have made of the set `start`: `added` of them are in it, those in `missing` were refused,
      and all others are matched. */
  ghost predicate Filled(
    eq: (int, int) -> bool, start: set<int>, now: set<int>, es: seq<int>, i: nat, missing: set<int>, added: nat)
  {
    && i <= |es| && added + |missing| <= i
    && (forall j :: j in missing ==> 0 <= j < i)
    && (forall j :: 0 <= j < i && j !in missing ==> Represented(eq, now, es[j]))
    && start <= now <= start + Elements(es[..i])
    && (AllNew(eq, start, es) ==> added + |missing| == i && (missing == {} ==> now == start + Elements(es[..i])))
  }

  lemma FilledStart(eq: (int, int) -> bool, start: set<int>, es: seq<int>)
    ensures Filled(eq, start, start, es, 0, {}, 0)
  {
  }

  /** One insertion, with its code. */
  lemma FilledStep(
    eq: (int, int) -> bool, start: set<int>, now: set<int>, es: seq<int>, i: nat, missing: set<int>, added: nat,
    code: int, next: set<int>)
    requires Filled(eq, start, now, es, i, missing, added) && i < |es|
    requires next == now + (if code == 1 then {es[i]} else {}) && (code == 0 <==> Represented(eq, now, es[i]))
    requires -1 <= code <= 1 && (code != -1 ==> Represented(eq, next, es[i]))
    ensures Filled(eq, start, next, es, i + 1, if code == -1 then missing + {i} else missing,
      added + if code == 1 then 1 else 0)
  {
    hide Represented, AllNew, Elements;
    ElementsStep(es, i);
    forall j | 0 <= j < i && j !in missing
      ensures Represented(eq, next, es[j])
    {
      RepresentedInMore(eq, now, next, es[j]);
    }
    if AllNew(eq, start, es) {
      NothingMatches(eq, start, es, i, now);
    }
  }

  lemma FilledEnd(
    eq: (int, int) -> bool, start: set<int>, now: set<int>, es: seq<int>, missing: set<int>, added: nat)
    requires Filled(eq, start, now, es, |es|, missing, added)
    ensures |LeftOut(eq, now, es)| <= |missing| && start <= now <= start + Elements(es)
    ensures added + |missing| <= |es| && (AllNew(eq, start, es) ==> added + |missing| == |es|)
    ensures AllNew(eq, start, es) && |missing| == 0 ==> now == start + Elements(es)
  {
    hide Represented, AllNew, Elements;
    assert es[..|es|] == es;
    SubsetIsSmaller(LeftOut(eq, now, es), missing);
  }

  /** Entries that are new to the set, and to each other, stay unmatched until they are inserted. */
  lemma NothingMatches(eq: (int, int) -> bool, s: set<int>, es: seq<int>, i: nat, stored: set<int>)
    requires AllNew(eq, s, es) && i < |es| && stored <= s + Elements(es[..i])
    ensures !Represented(eq, stored, es[i])
  {
    forall x | x in stored
      ensures !Same(eq, es[i], x)
    {
      if x !in s {
        var j :| 0 <= j < i && es[..i][j] == x;
        assert es[j] == x;
      }
    }
  }

  /** A table sized for `candidate` entries takes that many without changing its size: as many entries are refused as
      requests for memory, no more are left out, and entries that match nothing are all added but for those. */
  method Populate(t: Table, es: seq<int>, candidate: nat) returns (added: nat, refused: nat)
    requires t.Valid() && Acceptable(t.tuning) && HoldsCandidate(t.tuning, candidate, |t.view|)
    requires NULL !in es && t.nEntries + |es| <= candidate
    modifies t, t.bucket, t.heap, t.heap.nodes
    ensures t.Valid() && |t.view| == |old(t.view)| && t.tuning == old(t.tuning)
    ensures t.nEntries == old(t.nEntries) + added && added + refused <= |es|
    ensures Later(old(t.heap.mem), t.heap.mem) && refused == Refusals(old(t.heap.mem), t.heap.mem)
    ensures |LeftOut(t.eq, t.items, es)| <= refused
    ensures old(t.items) <= t.items <= old(t.items) + Elements(es)
    ensures AllNew(t.eq, old(t.items), es) ==> added + refused == |es|
    ensures AllNew(t.eq, old(t.items), es) && refused == 0 ==> t.items == old(t.items) + Elements(es)
  {
    hide Table.Valid, Acceptable, HoldsCandidate, Refusals, Later, Filled, Represented, AllNew, LeftOut;
    NoRequest(t.heap.mem);
    FilledStart(t.eq, t.items, es);
    added, refused := 0, 0;
    ghost var missing: set<int> := {};
    for i := 0 to |es|
      invariant t.Valid() && t.nEntries == old(t.nEntries) + added && added <= i
      invariant old(t.heap.nodes) <= t.heap.nodes
      invariant forall n :: n in t.heap.nodes ==> n in old(t.heap.nodes) || fresh(n)
      invariant t.bucket == old(t.bucket) || fresh(t.bucket)
      invariant |t.view| == |old(t.view)| && t.tuning == old(t.tuning)
      invariant Later(old(t.heap.mem), t.heap.mem) && refused == Refusals(old(t.heap.mem), t.heap.mem) == |missing|
      invariant Filled(t.eq, old(t.items), t.items, es, i, missing, added)
    {
      ghost var mem, items := t.heap.mem, t.items;
      UsedAtMostEntries(t);
      CandidateEntriesFit(t.tuning, candidate, |t.view|, t.nUsed);
      var code := Offer(t, es[i]);
      RefusalsAdd(old(t.heap.mem), mem, t.heap.mem);
      FilledStep(t.eq, old(t.items), items, es, i, missing, added, code, t.items);
      if code == 1 {
        added := added + 1;
      } else if code == -1 {
        NotMissing(t.eq, old(t.items), items, es, i, missing, added);
        refused, missing := refused + 1, missing + {i};
      }
    }
    FilledEnd(t.eq, old(t.items), t.items, es, missing, added);
  }

  lemma NotMissing(
    eq: (int, int) -> bool, start: set<int>, now: set<int>, es: seq<int>, i: nat, missing: set<int>, added: nat)
    requires Filled(eq, start, now, es, i, missing, added)
    ensures i !in missing
  {
  }

  lemma UsedAtMostEntries(t: Table)
    requires t.Valid()
    ensures t.nUsed <= t.nEntries
  {
  }

  /** One insertion into a table that need not grow for it. */
  method Offer(t: Table, e: int) returns (code: int)
    requires t.Valid() && e != NULL && !MustGrow(t.tuning, t.nUsed, |t.view|)
    modifies t, t.bucket, t.heap, t.heap.nodes
    ensures t.Valid() && |t.view| == |old(t.view)| && t.tuning == old(t.tuning) && -1 <= code <= 1
    ensures old(t.heap.nodes) <= t.heap.nodes && forall n :: n in t.heap.nodes ==> n in old(t.heap.nodes) || fresh(n)
    ensures t.bucket == old(t.bucket) || fresh(t.bucket)
    ensures t.items == old(t.items) + (if code == 1 then {e} else {})
    ensures t.nEntries == old(t.nEntries) + if code == 1 then 1 else 0
    ensures Later(old(t.heap.mem), t.heap.mem) && Refusals(old(t.heap.mem), t.heap.mem) == if code == -1 then 1 else 0
    ensures code == 0 <==> Represented(t.eq, old(t.items), e)
    ensures code != -1 ==> Represented(t.eq, t.items, e)
  {
    hide Table.Chained, Table.FreeListed, Sound, Acceptable, HoldsCandidate, Refusals, Later, CannotGrow, SizeFor;
    hide Represented, Checked;
    ghost var items := t.items;
    var matched;
    code, matched := t.InsertIfAbsent(e);
    if code == 0 {
      assert t.items == items;
      RepresentedBy(t.eq, items, e, matched);
    } else {
      NotRepresented(t.eq, items, e);
      if code == 1 {
        RepresentedBy(t.eq, t.items, e, e);
      }
    }
  }

  lemma NotRepresented(eq: (int, int) -> bool, s: set<int>, e: int)
    requires IsMatch(eq, s, e, NULL)
    ensures !Represented(eq, s, e)
  {
  }

  /** The promise of hash_initialize: a table made for `candidate` entries takes that many different ones before it
      grows. It is there, and holds all of them, unless the ratios or the size are impossible or malloc refuses. */
  method InitializeAndFill(
    candidate: nat, tuning: Tuning, hash: Hasher, eq: (int, int) -> bool, heap: Heap, es: seq<int>)
      returns (t: Table?, added: nat)
    requires candidate <= Primes.SIZE_MAX && Lawful(hash, eq) && !tuning.isNBuckets
    requires NULL !in es && |es| <= candidate
    modifies heap, heap.nodes
    ensures t != null ==> t.Valid() && t.tuning == tuning && SizeFor(candidate, tuning, |t.view|)
    ensures t != null ==> t.eq == eq && t.nEntries == added
    ensures t != null ==> |LeftOut(eq, t.items, es)| <= Refusals(old(heap.mem), heap.mem)
    ensures t != null && AllNew(eq, {}, es) ==> added + Refusals(old(heap.mem), heap.mem) == |es|
    ensures (forall k: nat :: old(heap.mem).answers(k)) && Acceptable(tuning) && !NoSize(candidate, tuning) ==>
      t != null && LeftOut(eq, t.items, es) == {} && (AllNew(eq, {}, es) ==> added == |es| && t.items == Elements(es))
  {
    hide Table.Chained, Table.FreeListed, Sound, Acceptable, HoldsCandidate, Refusals, Later, SizeFor, NoSize, AllNew;
    hide LeftOut, Elements;
    added := 0;
    t := Table.Initialize(candidate, tuning, hash, eq, heap);
    ghost var mem := heap.mem;
    if t != null {
      var refused;
      added, refused := Populate(t, es, candidate);
      RefusalsAdd(old(heap.mem), mem, heap.mem);
    }
    if forall k: nat :: old(heap.mem).answers(k) {
      NothingRefused(old(heap.mem), mem);
      NothingRefused(old(heap.mem), heap.mem);
    }
  }
}
