/** The chained hash table of src/gnu/hash.c as a value: the contents of every bucket, the length of the list of
    recycled overflow nodes, and the allocator with the requests made of it.

    Entries are the user's pointers, with 0 for NULL.  A bucket is the sequence of the entries chained at one slot:
    its first entry is stored in the bucket head, and each further entry occupies one overflow node. */
module HashModel {

  const NULL := 0

  type Hasher = (int, nat) -> nat
  type Bucket = seq<int>
  type Buckets = seq<Bucket>

  /** A hasher that never makes the table abort: slots are below the table size. */
  ghost predicate InRange(h: Hasher) {
    forall x: int, n: nat :: n > 0 ==> h(x, n) < n
  }

  // ---------------------------------------------------------------- counting

  /** Non-empty buckets among the first n. */
  ghost function UsedTo(bs: Buckets, n: nat): nat
    requires n <= |bs|
  {
    if n == 0 then 0 else UsedTo(bs, n - 1) + if bs[n - 1] == [] then 0 else 1
  }

  /** Overflow nodes held by the first n buckets. */
  ghost function OverTo(bs: Buckets, n: nat): nat
    requires n <= |bs|
  {
    if n == 0 then 0 else OverTo(bs, n - 1) + if bs[n - 1] == [] then 0 else |bs[n - 1]| - 1
  }

  /** All entries of the first n buckets. */
  ghost function AllTo(bs: Buckets, n: nat): multiset<int>
    requires n <= |bs|
  {
    if n == 0 then multiset{} else AllTo(bs, n - 1) + multiset(bs[n - 1])
  }

  ghost function Used(bs: Buckets): nat { UsedTo(bs, |bs|) }
  ghost function Over(bs: Buckets): nat { OverTo(bs, |bs|) }
  ghost function All(bs: Buckets): multiset<int> { AllTo(bs, |bs|) }

  ghost function UsedIn(b: Bucket): nat { if b == [] then 0 else 1 }
  ghost function OverIn(b: Bucket): nat { if b == [] then 0 else |b| - 1 }

  lemma {:induction false} UpdateCounts(bs: Buckets, k: nat, b: Bucket, n: nat)
    requires k < |bs| && n <= |bs|
    ensures UsedTo(bs[k := b], n) == UsedTo(bs, n) + if k < n then UsedIn(b) - UsedIn(bs[k]) else 0
    ensures OverTo(bs[k := b], n) == OverTo(bs, n) + if k < n then OverIn(b) - OverIn(bs[k]) else 0
  {
    if n > 0 {
      UpdateCounts(bs, k, b, n - 1);
    }
  }

  lemma {:induction false} UpdateContents(bs: Buckets, k: nat, b: Bucket, n: nat, x: int)
    requires k < |bs| && n <= |bs|
    ensures AllTo(bs[k := b], n)[x] + (if k < n then multiset(bs[k])[x] else 0)
         == AllTo(bs, n)[x] + (if k < n then multiset(b)[x] else 0)
  {
    if n > 0 {
      UpdateContents(bs, k, b, n - 1, x);
    }
  }

  /** Replacing one bucket changes each count by what that bucket contributes. */
  lemma Update(bs: Buckets, k: nat, b: Bucket)
    requires k < |bs|
    ensures Used(bs[k := b]) == Used(bs) + UsedIn(b) - UsedIn(bs[k])
    ensures Over(bs[k := b]) == Over(bs) + OverIn(b) - OverIn(bs[k])
    ensures forall x :: All(bs[k := b])[x] + multiset(bs[k])[x] == All(bs)[x] + multiset(b)[x]
  {
    UpdateCounts(bs, k, b, |bs|);
    forall x
      ensures All(bs[k := b])[x] + multiset(bs[k])[x] == All(bs)[x] + multiset(b)[x]
    {
      UpdateContents(bs, k, b, |bs|, x);
    }
  }

  lemma {:induction false} EntriesAreCounted(bs: Buckets, n: nat)
    requires n <= |bs|
    ensures |AllTo(bs, n)| == UsedTo(bs, n) + OverTo(bs, n)
  {
    if n > 0 {
      EntriesAreCounted(bs, n - 1);
    }
  }

  // ---------------------------------------------------------------- placement

  ghost predicate WellPlaced(h: Hasher, bs: Buckets) {
    |bs| > 0 && forall b, j :: 0 <= b < |bs| && 0 <= j < |bs[b]| ==> h(bs[b][j], |bs|) == b
  }

  lemma {:induction false} CountOf(h: Hasher, bs: Buckets, x: int, n: nat)
    requires WellPlaced(h, bs) && n <= |bs|
    ensures AllTo(bs, n)[x] == if h(x, |bs|) < n then multiset(bs[h(x, |bs|)])[x] else 0
  {
    if n > 0 {
      CountOf(h, bs, x, n - 1);
      if x in multiset(bs[n - 1]) {
        assert x in bs[n - 1];
      }
    }
  }

  /** In a well-placed table a bucket holds exactly the entries of the table that hash to it. */
  lemma BucketContents(h: Hasher, bs: Buckets, b: nat, x: int)
    requires InRange(h) && WellPlaced(h, bs) && b < |bs|
    ensures multiset(bs[b])[x] == if h(x, |bs|) == b then All(bs)[x] else 0
  {
    CountOf(h, bs, x, |bs|);
    if x in multiset(bs[b]) {
      assert x in bs[b];
    }
  }

  /** Two well-placed tables of one size with the same entries agree bucket by bucket. */
  lemma SameBuckets(h: Hasher, s: Buckets, t: Buckets)
    requires InRange(h) && WellPlaced(h, s) && WellPlaced(h, t) && |s| == |t|
    requires All(s) == All(t)
    ensures forall b :: 0 <= b < |s| ==> multiset(s[b]) == multiset(t[b])
  {
    forall b | 0 <= b < |s|
      ensures multiset(s[b]) == multiset(t[b])
    {
      forall x: int
        ensures multiset(s[b])[x] == multiset(t[b])[x]
      {
        BucketContents(h, s, b, x);
        BucketContents(h, t, b, x);
      }
    }
  }

  lemma {:induction false} FewerNodesTo(s: Buckets, t: Buckets, n: nat)
    requires |s| == |t| && n <= |s|
    requires forall b :: 0 <= b < |s| ==> multiset(s[b]) <= multiset(t[b])
    ensures OverTo(s, n) <= OverTo(t, n)
  {
    if n > 0 {
      FewerNodesTo(s, t, n - 1);
      SubsetIsShorter(s[n - 1], t[n - 1]);
    }
  }

  lemma SubsetIsShorter(a: seq<int>, b: seq<int>)
    requires multiset(a) <= multiset(b)
    ensures |a| <= |b|
  {
    assert multiset(b) == multiset(a) + (multiset(b) - multiset(a));
    assert |multiset(b)| == |multiset(a)| + |multiset(b) - multiset(a)|;
    assert |multiset(a)| == |a| && |multiset(b)| == |b|;
  }

  /** A well-placed table with fewer entries needs no more overflow nodes. */
  lemma FewerNodes(h: Hasher, s: Buckets, t: Buckets)
    requires InRange(h) && WellPlaced(h, s) && WellPlaced(h, t) && |s| == |t|
    requires All(s) <= All(t)
    ensures Over(s) <= Over(t)
  {
    forall b | 0 <= b < |s|
      ensures multiset(s[b]) <= multiset(t[b])
    {
      forall x: int
        ensures multiset(s[b])[x] <= multiset(t[b])[x]
      {
        BucketContents(h, s, b, x);
        BucketContents(h, t, b, x);
      }
    }
    FewerNodesTo(s, t, |s|);
  }

  // ---------------------------------------------------------------- moving entries

  /** Adding an entry to a bucket: into an empty head, or first in the overflow. */
  function Deposit(b: Bucket, x: int): Bucket {
    if b == [] then [x] else [b[0], x] + b[1..]
  }

  lemma DepositCounts(bs: Buckets, k: nat, x: int)
    requires k < |bs|
    ensures All(bs[k := Deposit(bs[k], x)]) == All(bs) + multiset{x}
    ensures Used(bs[k := Deposit(bs[k], x)]) == Used(bs) + (if bs[k] == [] then 1 else 0)
    ensures Over(bs[k := Deposit(bs[k], x)]) == Over(bs) + (if bs[k] == [] then 0 else 1)
  {
    var b := bs[k];
    Update(bs, k, Deposit(b, x));
    if b != [] {
      assert b == [b[0]] + b[1..];
    }
    assert multiset(Deposit(b, x)) == multiset(b) + multiset{x};
    forall y
      ensures All(bs[k := Deposit(b, x)])[y] == (All(bs) + multiset{x})[y]
    {
    }
  }

  lemma DepositPlaced(h: Hasher, bs: Buckets, x: int)
    requires InRange(h) && WellPlaced(h, bs)
    ensures WellPlaced(h, bs[h(x, |bs|) := Deposit(bs[h(x, |bs|)], x)])
  {
    var k := h(x, |bs|);
    var bs' := bs[k := Deposit(bs[k], x)];
    forall b, j | 0 <= b < |bs'| && 0 <= j < |bs'[b]|
      ensures h(bs'[b][j], |bs'|) == b
    {
      if b == k && j >= 2 {
        assert bs'[b][j] == bs[k][j - 1];
      }
    }
  }

  /** The allocator: the answer it has for each request, any answers at all, and how many requests have been made. */
  datatype Memory = Memory(answers: nat -> bool, asked: nat)

  /** One call of malloc: a request is made and gets its answer. */
  function Malloc(mem: Memory): (r: (bool, Memory)) {
    (mem.answers(mem.asked), mem.(asked := mem.asked + 1))
  }

  /** The same allocator, after more requests. */
  ghost predicate Later(before: Memory, after: Memory) {
    before.answers == after.answers && before.asked <= after.asked
  }

  /** How many requests got this answer in between. */
  ghost function Answers(before: Memory, after: Memory, answer: bool): nat
    decreases after.asked
  {
    if after.asked <= before.asked then 0
    else
      Answers(before, after.(asked := after.asked - 1), answer)
        + (if after.answers(after.asked - 1) == answer then 1 else 0)
  }

  ghost function Refusals(before: Memory, after: Memory): nat {
    Answers(before, after, false)
  }

  ghost function Grants(before: Memory, after: Memory): nat {
    Answers(before, after, true)
  }

  lemma {:induction false} AnswersAdd(a: Memory, b: Memory, c: Memory, answer: bool)
    requires Later(a, b) && Later(b, c)
    ensures Answers(a, c, answer) == Answers(a, b, answer) + Answers(b, c, answer)
    decreases c.asked
  {
    if c.asked > b.asked {
      AnswersAdd(a, b, c.(asked := c.asked - 1), answer);
    } else {
      assert b == c;
    }
  }

  lemma RefusalsAdd(a: Memory, b: Memory, c: Memory)
    requires Later(a, b) && Later(b, c)
    ensures Later(a, c)
    ensures Refusals(a, c) == Refusals(a, b) + Refusals(b, c) && Grants(a, c) == Grants(a, b) + Grants(b, c)
  {
    AnswersAdd(a, b, c, false);
    AnswersAdd(a, b, c, true);
  }

  lemma MallocRefusals(mem: Memory)
    ensures var (ok, after) := Malloc(mem);
      Later(mem, after) && Refusals(mem, after) == (if ok then 0 else 1) && Grants(mem, after) == if ok then 1 else 0
  {
    assert Answers(mem, mem, false) == 0 && Answers(mem, mem, true) == 0;
  }

  lemma NoRequest(mem: Memory)
    ensures Later(mem, mem) && Refusals(mem, mem) == 0 && Grants(mem, mem) == 0
  {
  }

  /** An allocator that grants everything refuses nothing. */
  lemma {:induction false} NothingRefused(before: Memory, after: Memory)
    requires Later(before, after) && forall k: nat :: before.answers(k)
    ensures Refusals(before, after) == 0
    decreases after.asked
  {
    if after.asked > before.asked {
      NothingRefused(before, after.(asked := after.asked - 1));
    }
  }

  /** The two tables of a transfer, with the free list they share. */
  datatype Xfer = Xfer(src: Buckets, dst: Buckets, free: nat, mem: Memory)

  ghost predicate Ready(h: Hasher, s: Xfer) {
    InRange(h) && WellPlaced(h, s.src) && WellPlaced(h, s.dst)
  }

  /** Relinking the overflow of one source bucket: an entry that lands in an empty bucket gives its node back. */
  ghost function MoveOverflow(h: Hasher, xs: seq<int>, dst: Buckets, free: nat): (r: (Buckets, nat))
    requires InRange(h) && |dst| > 0
    ensures |r.0| == |dst|
    decreases |xs|
  {
    if xs == [] then (dst, free)
    else
      var x := xs[0];
      var k := h(x, |dst|);
      MoveOverflow(h, xs[1..], dst[k := Deposit(dst[k], x)], if dst[k] == [] then free + 1 else free)
  }

  datatype Moved = Moved(state: Xfer, ok: bool)

  /** Moving the head of source bucket i, whose overflow is already gone. */
  ghost function MoveHead(h: Hasher, s: Xfer, i: nat): (r: Moved)
    requires InRange(h) && |s.dst| > 0 && i < |s.src| && |s.src[i]| == 1
    ensures |r.state.src| == |s.src| && |r.state.dst| == |s.dst|
  {
    var x := s.src[i][0];
    var k := h(x, |s.dst|);
    var done := s.(src := s.src[i := []], dst := s.dst[k := Deposit(s.dst[k], x)]);
    if s.dst[k] == [] then Moved(done, true)
    else if s.free > 0 then Moved(done.(free := s.free - 1), true)
    else
      var (ok, mem) := Malloc(s.mem);
      if ok then Moved(done.(mem := mem), true) else Moved(s.(mem := mem), false)
  }

  /** The overflow part of the work on source bucket i. */
  ghost function Drain(h: Hasher, s: Xfer, i: nat): (r: Xfer)
    requires InRange(h) && |s.dst| > 0 && i < |s.src| && s.src[i] != []
    ensures |r.src| == |s.src| && |r.dst| == |s.dst| && |r.src[i]| == 1 && r.mem == s.mem
  {
    var (dst, free) := MoveOverflow(h, s.src[i][1..], s.dst, s.free);
    Xfer(s.src[i := [s.src[i][0]]], dst, free, s.mem)
  }

  /** transfer_entries from source bucket i on. */
  ghost function Transfer(h: Hasher, s: Xfer, safe: bool, i: nat): (r: Moved)
    requires InRange(h) && |s.dst| > 0 && i <= |s.src|
    ensures |r.state.src| == |s.src| && |r.state.dst| == |s.dst|
    decreases |s.src| - i
  {
    if i == |s.src| then Moved(s, true)
    else if s.src[i] == [] then Transfer(h, s, safe, i + 1)
    else
      var drained := Drain(h, s, i);
      if safe then Transfer(h, drained, safe, i + 1)
      else
        var m := MoveHead(h, drained, i);
        if m.ok then Transfer(h, m.state, safe, i + 1) else m
  }

  lemma TransferDone(h: Hasher, s: Xfer, safe: bool)
    requires InRange(h) && |s.dst| > 0
    ensures Transfer(h, s, safe, |s.src|) == Moved(s, true)
  {
  }

  /** The nodes of a transfer, in use and recycled. */
  ghost function Nodes(s: Xfer): nat {
    Over(s.src) + Over(s.dst) + s.free
  }

  /** What a move of entries keeps: all entries, in their right places, and the nodes, to which those granted by malloc
      are added. */
  ghost predicate Keeps(h: Hasher, s: Xfer, t: Xfer) {
    && Ready(h, t) && |t.src| == |s.src| && |t.dst| == |s.dst|
    && All(t.src) + All(t.dst) == All(s.src) + All(s.dst)
    && Later(s.mem, t.mem) && Nodes(t) == Nodes(s) + Grants(s.mem, t.mem)
  }

  lemma KeepsTwice(h: Hasher, s: Xfer, t: Xfer, u: Xfer)
    requires Keeps(h, s, t) && Keeps(h, t, u)
    ensures Keeps(h, s, u)
  {
    hide Later, Grants, Nodes, Ready;
    RefusalsAdd(s.mem, t.mem, u.mem);
  }

  lemma {:induction false} MoveOverflowKeeps(h: Hasher, xs: seq<int>, dst: Buckets, free: nat)
    requires InRange(h) && WellPlaced(h, dst)
    ensures var (dst', free') := MoveOverflow(h, xs, dst, free);
      && WellPlaced(h, dst') && All(dst') == All(dst) + multiset(xs)
      && Over(dst') + free' == Over(dst) + free + |xs|
    decreases |xs|
  {
    if xs != [] {
      var k := h(xs[0], |dst|);
      DepositCounts(dst, k, xs[0]);
      DepositPlaced(h, dst, xs[0]);
      MoveOverflowKeeps(h, xs[1..], dst[k := Deposit(dst[k], xs[0])], if dst[k] == [] then free + 1 else free);
      assert xs == [xs[0]] + xs[1..];
    }
  }

  lemma DrainKeeps(h: Hasher, s: Xfer, i: nat)
    requires Ready(h, s) && i < |s.src| && s.src[i] != []
    ensures Keeps(h, s, Drain(h, s, i))
  {
    hide Later, Grants;
    NoRequest(s.mem);
    var b := s.src[i];
    MoveOverflowKeeps(h, b[1..], s.dst, s.free);
    Update(s.src, i, [b[0]]);
    assert b == [b[0]] + b[1..];
    var t := Drain(h, s, i);
    assert forall y :: (All(t.src) + All(t.dst))[y] == (All(s.src) + All(s.dst))[y];
  }

  /** Taking the lone entry x out of source bucket i and depositing it in bucket k moves just that entry. */
  lemma MovingHead(src: Buckets, dst: Buckets, i: nat, k: nat)
    requires i < |src| && |src[i]| == 1 && k < |dst|
    ensures var x := src[i][0]; var dst' := dst[k := Deposit(dst[k], x)];
      && All(src[i := []]) + All(dst') == All(src) + All(dst)
      && All(dst') <= All(src) + All(dst)
      && Over(src[i := []]) == Over(src)
      && Over(dst') == Over(dst) + if dst[k] == [] then 0 else 1
  {
    var x := src[i][0];
    var dst' := dst[k := Deposit(dst[k], x)];
    DepositCounts(dst, k, x);
    Update(src, i, []);
    assert src[i] == [x];
    assert forall y :: (All(src[i := []]) + All(dst'))[y] == (All(src) + All(dst))[y];
  }

  lemma MoveHeadKeeps(h: Hasher, s: Xfer, i: nat)
    requires Ready(h, s) && i < |s.src| && |s.src[i]| == 1
    ensures Keeps(h, s, MoveHead(h, s, i).state)
  {
    hide Later, Grants, Malloc;
    NoRequest(s.mem);
    MallocRefusals(s.mem);
    var x := s.src[i][0];
    MovingHead(s.src, s.dst, i, h(x, |s.dst|));
    DepositPlaced(h, s.dst, x);
  }

  /** Every transfer, finished or not, keeps all entries and their placement, and loses or doubles no node. */
  lemma {:induction false} TransferKeeps(h: Hasher, s: Xfer, safe: bool, i: nat)
    requires Ready(h, s) && i <= |s.src|
    ensures Keeps(h, s, Transfer(h, s, safe, i).state)
    decreases |s.src| - i
  {
    var end := Transfer(h, s, safe, i).state;
    if i < |s.src| {
      if s.src[i] == [] {
        TransferKeeps(h, s, safe, i + 1);
      } else {
        DrainKeeps(h, s, i);
        var drained := Drain(h, s, i);
        if safe {
          TransferKeeps(h, drained, safe, i + 1);
        } else {
          MoveHeadKeeps(h, drained, i);
          var m := MoveHead(h, drained, i);
          if m.ok {
            TransferKeeps(h, m.state, safe, i + 1);
            KeepsTwice(h, drained, m.state, end);
          }
        }
        KeepsTwice(h, s, drained, end);
      }
    }
  }

  /** A transfer fails just when a request is refused, and then that was the only one. */
  lemma {:induction false} TransferRefused(h: Hasher, s: Xfer, safe: bool, i: nat)
    requires InRange(h) && |s.dst| > 0 && i <= |s.src|
    ensures var m := Transfer(h, s, safe, i);
      Later(s.mem, m.state.mem) && Refusals(s.mem, m.state.mem) == if m.ok then 0 else 1
    decreases |s.src| - i
  {
    hide Refusals, Later, Malloc;
    NoRequest(s.mem);
    if i < |s.src| {
      if s.src[i] == [] {
        TransferRefused(h, s, safe, i + 1);
      } else {
        var drained := Drain(h, s, i);
        if safe {
          TransferRefused(h, drained, safe, i + 1);
        } else {
          var m := MoveHead(h, drained, i);
          MallocRefusals(s.mem);
          if m.ok {
            TransferRefused(h, m.state, safe, i + 1);
            RefusalsAdd(s.mem, m.state.mem, Transfer(h, s, safe, i).state.mem);
          }
        }
      }
    }
  }

  // ---------------------------------------------------------------- undoing a transfer

  /** No bucket among the first i holds any entry. */
  ghost predicate EmptyTo(bs: Buckets, i: nat) {
    i <= |bs| && forall b :: 0 <= b < i ==> bs[b] == []
  }

  /** No bucket among the first i holds any overflow. */
  ghost predicate HeadsTo(bs: Buckets, i: nat) {
    i <= |bs| && forall b :: 0 <= b < i ==> |bs[b]| <= 1
  }

  lemma {:induction false} EmptyHasNothing(bs: Buckets, n: nat)
    requires n <= |bs| && EmptyTo(bs, n)
    ensures AllTo(bs, n) == multiset{} && OverTo(bs, n) == 0 && UsedTo(bs, n) == 0
  {
    if n > 0 {
      EmptyHasNothing(bs, n - 1);
    }
  }

  lemma {:induction false} HeadsHaveNoNodes(bs: Buckets, n: nat)
    requires n <= |bs| && HeadsTo(bs, n)
    ensures OverTo(bs, n) == 0
  {
    if n > 0 {
      HeadsHaveNoNodes(bs, n - 1);
    }
  }

  /** A transfer that succeeds leaves the source empty; a safe one always succeeds and leaves only heads. */
  lemma {:induction false} TransferEmpties(h: Hasher, s: Xfer, safe: bool, i: nat)
    requires InRange(h) && |s.dst| > 0
    requires if safe then HeadsTo(s.src, i) else EmptyTo(s.src, i)
    ensures var m := Transfer(h, s, safe, i);
      && (safe ==> m.ok && HeadsTo(m.state.src, |s.src|) && m.state.mem == s.mem)
      && (!safe && m.ok ==> EmptyTo(m.state.src, |s.src|))
    decreases |s.src| - i
  {
    if i < |s.src| {
      if s.src[i] == [] {
        TransferEmpties(h, s, safe, i + 1);
      } else {
        var drained := Drain(h, s, i);
        if safe {
          TransferEmpties(h, drained, safe, i + 1);
        } else {
          var m := MoveHead(h, drained, i);
          if m.ok {
            TransferEmpties(h, m.state, safe, i + 1);
          }
        }
      }
    }
  }

  /** Enough nodes are around to rebuild the table `orig`, and its entries are the ones in the two tables. */
  ghost predicate CanRebuild(h: Hasher, orig: Buckets, s: Xfer) {
    && Ready(h, s) && WellPlaced(h, orig) && |orig| == |s.dst|
    && All(s.src) + All(s.dst) == All(orig)
    && Over(s.src) + Over(s.dst) + s.free >= Over(orig)
  }

  /** Putting one head back: if its bucket is taken, a recycled node is at hand. */
  lemma HeadFindsNode(h: Hasher, orig: Buckets, s: Xfer, i: nat)
    requires CanRebuild(h, orig, s) && HeadsTo(s.src, |s.src|)
    requires i < |s.src| && |s.src[i]| == 1
    ensures var m := MoveHead(h, s, i);
      m.ok && m.state.mem == s.mem && CanRebuild(h, orig, m.state) && HeadsTo(m.state.src, |s.src|)
  {
    var x := s.src[i][0];
    var k := h(x, |s.dst|);
    MovingHead(s.src, s.dst, i, k);
    DepositPlaced(h, s.dst, x);
    FewerNodes(h, s.dst[k := Deposit(s.dst[k], x)], orig);
    HeadsHaveNoNodes(s.src, |s.src|);
  }

  /** The second pass of an undo succeeds without calling malloc. */
  lemma {:induction false} SecondPassSucceeds(h: Hasher, orig: Buckets, s: Xfer, i: nat)
    requires CanRebuild(h, orig, s) && HeadsTo(s.src, |s.src|) && i <= |s.src|
    ensures var m := Transfer(h, s, false, i); m.ok && m.state.mem == s.mem
    decreases |s.src| - i
  {
    if i < |s.src| {
      if s.src[i] == [] {
        SecondPassSucceeds(h, orig, s, i + 1);
      } else {
        assert s.src[i] == [s.src[i][0]];
        assert s.src[i := [s.src[i][0]]] == s.src;
        assert s.src[i][1..] == [];
        assert Drain(h, s, i) == s;
        HeadFindsNode(h, orig, s, i);
        SecondPassSucceeds(h, orig, MoveHead(h, s, i).state, i + 1);
      }
    }
  }

  // ---------------------------------------------------------------- hash_rehash

  datatype Rehashed =
    | Grown(buckets: Buckets, free: nat, mem: Memory)
    | Restored(buckets: Buckets, free: nat, mem: Memory)
    | Aborted

  function EmptyTable(n: nat): (r: Buckets)
    ensures |r| == n && EmptyTo(r, n)
  {
    seq(n, _ => [])
  }

  /** hash_rehash into a table of newSize buckets, once its bucket array has been obtained. */
  ghost function Rehash(h: Hasher, bs: Buckets, newSize: nat, free: nat, mem: Memory): (r: Rehashed)
    requires InRange(h) && |bs| > 0 && newSize > 0
  {
    var there := Transfer(h, Xfer(bs, EmptyTable(newSize), free, mem), false, 0);
    var t := there.state;
    if there.ok then Grown(t.dst, t.free, t.mem)
    else
      var heads := Transfer(h, Xfer(t.dst, t.src, t.free, t.mem), true, 0);
      if !heads.ok then Aborted
      else
        var back := Transfer(h, heads.state, false, 0);
        if back.ok then Restored(back.state.dst, back.state.free, back.state.mem) else Aborted
  }

  lemma EmptyIsPlaced(h: Hasher, n: nat)
    requires n > 0
    ensures WellPlaced(h, EmptyTable(n)) && All(EmptyTable(n)) == multiset{} && Over(EmptyTable(n)) == 0
  {
    EmptyHasNothing(EmptyTable(n), n);
  }

  /** How a transfer into an empty table ends: everything moved, or a state the old table can be rebuilt from. */
  lemma TransferOutcome(h: Hasher, bs: Buckets, newSize: nat, free: nat, mem: Memory)
    requires InRange(h) && WellPlaced(h, bs) && newSize > 0
    ensures var m := Transfer(h, Xfer(bs, EmptyTable(newSize), free, mem), false, 0); var t := m.state;
      && Ready(h, t)
      && (m.ok ==> All(t.dst) == All(bs))
      && All(t.src) + All(t.dst) == All(bs) && Over(t.src) + Over(t.dst) + t.free >= Over(bs)
      && (m.ok ==> Over(t.src) == 0) && Nodes(t) == Over(bs) + free + Grants(mem, t.mem)
  {
    hide Grants, Later;
    EmptyIsPlaced(h, newSize);
    var start := Xfer(bs, EmptyTable(newSize), free, mem);
    TransferKeeps(h, start, false, 0);
    TransferEmpties(h, start, false, 0);
    var m := Transfer(h, start, false, 0);
    assert All(bs) == All(bs) + All(start.dst);
    if m.ok {
      EmptyHasNothing(m.state.src, |bs|);
      assert All(m.state.dst) == All(m.state.src) + All(m.state.dst);
    }
  }

  /** A rehash never aborts.  Success moves every entry to its place in the new table; failure, which takes a refused
      request, puts every entry back into its old bucket. */
  lemma RehashKeepsEntries(h: Hasher, bs: Buckets, newSize: nat, free: nat, mem: Memory)
    requires InRange(h) && WellPlaced(h, bs) && newSize > 0
    ensures var r := Rehash(h, bs, newSize, free, mem);
      && !r.Aborted?
      && WellPlaced(h, r.buckets) && All(r.buckets) == All(bs)
      && (r.Grown? ==> |r.buckets| == newSize)
      && (r.Restored? ==> |r.buckets| == |bs|)
      && Refusals(mem, r.mem) == (if r.Grown? then 0 else 1)
      && Over(r.buckets) + r.free == Over(bs) + free + Grants(mem, r.mem)
  {
    TransferOutcome(h, bs, newSize, free, mem);
    TransferRefused(h, Xfer(bs, EmptyTable(newSize), free, mem), false, 0);
    var there := Transfer(h, Xfer(bs, EmptyTable(newSize), free, mem), false, 0);
    if !there.ok {
      UndoRestores(h, bs, there.state);
    }
  }

  /** The two passes of the undo, from any state that can rebuild the table. */
  lemma UndoRestores(h: Hasher, bs: Buckets, t: Xfer)
    requires Ready(h, t) && WellPlaced(h, bs) && |t.src| == |bs|
    requires All(t.src) + All(t.dst) == All(bs) && Over(t.src) + Over(t.dst) + t.free >= Over(bs)
    ensures var heads := Transfer(h, Xfer(t.dst, t.src, t.free, t.mem), true, 0);
      && heads.ok && |heads.state.dst| == |bs|
      && var back := Transfer(h, heads.state, false, 0);
      && back.ok && back.state.mem == t.mem && |back.state.dst| == |bs|
      && WellPlaced(h, back.state.dst) && All(back.state.dst) == All(bs)
      && Over(back.state.dst) + back.state.free == Nodes(t)
  {
    hide Grants, Later;
    NoRequest(t.mem);
    var s := Xfer(t.dst, t.src, t.free, t.mem);
    TransferKeeps(h, s, true, 0);
    TransferEmpties(h, s, true, 0);
    var heads := Transfer(h, s, true, 0).state;
    SecondPassSucceeds(h, bs, heads, 0);
    TransferKeeps(h, heads, false, 0);
    TransferEmpties(h, heads, false, 0);
    var back := Transfer(h, heads, false, 0).state;
    EmptyHasNothing(back.src, |back.src|);
  }

  /** A rehash that runs out of memory halfway is undone completely: every bucket holds the same entries again, and
      both counters are what they were. */
  lemma FailedRehashIsUndone(h: Hasher, bs: Buckets, newSize: nat, free: nat, mem: Memory)
    requires InRange(h) && WellPlaced(h, bs) && newSize > 0
    requires !Rehash(h, bs, newSize, free, mem).Grown?
    ensures var r := Rehash(h, bs, newSize, free, mem);
      && r.Restored? && |r.buckets| == |bs|
      && (forall b :: 0 <= b < |bs| ==> multiset(r.buckets[b]) == multiset(bs[b]))
      && Used(r.buckets) == Used(bs) && Over(r.buckets) == Over(bs)
  {
    RehashKeepsEntries(h, bs, newSize, free, mem);
    var r := Rehash(h, bs, newSize, free, mem);
    SameBuckets(h, r.buckets, bs);
    SameCounts(r.buckets, bs, |bs|);
  }

  lemma {:induction false} SameCounts(s: Buckets, t: Buckets, n: nat)
    requires |s| == |t| && n <= |s|
    requires forall b :: 0 <= b < |s| ==> multiset(s[b]) == multiset(t[b])
    ensures UsedTo(s, n) == UsedTo(t, n) && OverTo(s, n) == OverTo(t, n)
  {
    if n > 0 {
      SameCounts(s, t, n - 1);
      SubsetIsShorter(s[n - 1], t[n - 1]);
      SubsetIsShorter(t[n - 1], s[n - 1]);
    }
  }

  // ---------------------------------------------------------------- why the undo needs two passes

  function SpreadHasher(x: int, n: nat): nat {
    if n == 4 then (if x <= 2 then 0 else if x == 3 then 1 else if x == 4 then 2 else 3)
    else if n == 3 then (if x == 1 then 0 else if x == 2 then 1 else 2)
    else 0
  }

  lemma MoveOne(h: Hasher, x: int, dst: Buckets, free: nat)
    requires InRange(h) && |dst| > 0
    ensures MoveOverflow(h, [x], dst, free)
         == (dst[h(x, |dst|) := Deposit(dst[h(x, |dst|)], x)], if dst[h(x, |dst|)] == [] then free + 1 else free)
  {
    assert [x][1..] == [];
  }

  /** A source bucket that is only a head is moved by MoveHead alone. */
  lemma LoneHead(h: Hasher, s: Xfer, i: nat)
    requires InRange(h) && |s.dst| > 0 && i < |s.src| && |s.src[i]| == 1
    ensures var m := MoveHead(h, s, i);
      Transfer(h, s, false, i) == if m.ok then Transfer(h, m.state, false, i + 1) else m
  {
    assert s.src[i] == [s.src[i][0]];
    assert s.src[i][1..] == [] && s.src[i := [s.src[i][0]]] == s.src;
    assert Drain(h, s, i) == s;
  }

  /** Moving a lone head into an empty bucket. */
  lemma HeadToEmpty(h: Hasher, s: Xfer, i: nat, x: int, k: nat)
    requires InRange(h) && |s.dst| > 0 && i < |s.src| && s.src[i] == [x]
    requires k == h(x, |s.dst|) && s.dst[k] == []
    ensures Transfer(h, s, false, i) == Transfer(h, Xfer(s.src[i := []], s.dst[k := [x]], s.free, s.mem), false, i + 1)
  {
    LoneHead(h, s, i);
  }

  lemma StrandedStart(h: Hasher, mem: Memory, s0: Xfer, s1: Xfer)
    requires InRange(h) && h(1, 3) == 0 && h(2, 3) == 1
    requires s0 == Xfer([[1, 2], [3], [4], [5]], [[], [], []], 0, mem)
    requires s1 == Xfer([[], [3], [4], [5]], [[1], [2], []], 1, mem)
    ensures Transfer(h, s0, false, 0) == Transfer(h, s1, false, 1)
  {
    MoveOne(h, 2, s0.dst, 0);
    assert s0.src[0][1..] == [2];
    var d := Drain(h, s0, 0);
    assert d.src == [[1], [3], [4], [5]] && d.dst == [[], [2], []] && d.free == 1;
    assert MoveHead(h, d, 0) == Moved(s1, true);
  }

  lemma StrandedTransfer(h: Hasher, mem: Memory, s1: Xfer, s3: Xfer)
    requires InRange(h) && h(3, 3) == 2 && h(4, 3) == 2 && h(5, 3) == 2 && !Malloc(mem).0
    requires s1 == Xfer([[], [3], [4], [5]], [[1], [2], []], 1, mem)
    requires s3 == Xfer([[], [], [], [5]], [[1], [2], [3, 4]], 0, mem)
    ensures Transfer(h, s1, false, 1) == Moved(s3.(mem := Malloc(mem).1), false)
  {
    hide Malloc;
    HeadToEmpty(h, s1, 1, 3, 2);
    var s2 := Xfer(s1.src[1 := []], s1.dst[2 := [3]], 1, mem);
    LoneHead(h, s2, 2);
    assert Deposit([3], 4) == [3, 4];
    assert MoveHead(h, s2, 2) == Moved(s3, true) by {
      assert s2.dst[2 := [3, 4]] == s3.dst;
      assert s2.src[2 := []] == s3.src;
    }
    LoneHead(h, s3, 3);
  }

  lemma StrandedUndo(h: Hasher, mem: Memory, u0: Xfer)
    requires InRange(h) && h(1, 4) == 0 && h(2, 4) == 0 && !Malloc(mem).0
    requires u0 == Xfer([[1], [2], [3, 4]], [[], [], [], [5]], 0, mem)
    ensures !Transfer(h, u0, false, 0).ok
  {
    hide Malloc;
    HeadToEmpty(h, u0, 0, 1, 0);
    LoneHead(h, Xfer(u0.src[0 := []], u0.dst[0 := [1]], 0, mem), 1);
  }

  lemma SpreadIsPlaced()
    ensures InRange(SpreadHasher) && WellPlaced(SpreadHasher, [[1, 2], [3], [4], [5]])
  {
  }

  /** Undoing in one pass instead of two can run out of nodes: heads moved early may need the nodes that overflow
      entries of later buckets give back. */
  lemma OnePassUndoCanFail() returns (h: Hasher, bs: Buckets, mem: Memory)
    ensures InRange(h) && WellPlaced(h, bs)
    ensures var t := Transfer(h, Xfer(bs, EmptyTable(3), 0, mem), false, 0);
      !t.ok && !Transfer(h, Xfer(t.state.dst, t.state.src, t.state.free, t.state.mem), false, 0).ok
  {
    hide Transfer;
    h, mem := SpreadHasher, Memory(_ => false, 0);
    bs := [[1, 2], [3], [4], [5]];
    SpreadIsPlaced();
    var t := Xfer([[], [], [], [5]], [[1], [2], [3, 4]], 0, mem);
    assert EmptyTable(3) == [[], [], []];
    var s1 := Xfer([[], [3], [4], [5]], [[1], [2], []], 1, mem);
    StrandedStart(h, mem, Xfer(bs, EmptyTable(3), 0, mem), s1);
    StrandedTransfer(h, mem, s1, t);
    StrandedUndo(h, Malloc(mem).1, Xfer(t.dst, t.src, 0, Malloc(mem).1));
  }

  // ---------------------------------------------------------------- the set of representatives

  /** The test of the source: the same pointer, or equal for the user's comparator. */
  predicate Same(eq: (int, int) -> bool, x: int, y: int) {
    x == y || eq(x, y)
  }

  /** The comparator is symmetric, equal entries hash equally, and slots are in range. */
  ghost predicate Lawful(h: Hasher, eq: (int, int) -> bool) {
    && InRange(h)
    && (forall x: int, y: int :: Same(eq, x, y) ==> Same(eq, y, x))
    && (forall x: int, y: int, n: nat :: Same(eq, x, y) ==> h(x, n) == h(y, n))
  }

  ghost predicate Transitive(eq: (int, int) -> bool) {
    forall x: int, y: int, z: int :: Same(eq, x, y) && Same(eq, y, z) ==> Same(eq, x, z)
  }

  /** No two entries of the table match each other. */
  ghost predicate Distinct(eq: (int, int) -> bool, m: multiset<int>) {
    && (forall x: int :: m[x] <= 1)
    && (forall x: int, y: int :: x in m && y in m && Same(eq, x, y) ==> x == y)
  }

  ghost function Elems(m: multiset<int>): set<int> {
    set x | x in m
  }

  /** The entry of the bucket that matches e, or NULL. */
  function Search(eq: (int, int) -> bool, b: Bucket, e: int): int {
    if b == [] then NULL else if Same(eq, e, b[0]) then b[0] else Search(eq, b[1..], e)
  }

  lemma {:induction false} SearchFinds(eq: (int, int) -> bool, b: Bucket, e: int)
    requires NULL !in b
    ensures var d := Search(eq, b, e);
      if d == NULL then forall x :: x in b ==> !Same(eq, e, x) else d in b && Same(eq, e, d)
    decreases |b|
  {
    if b != [] {
      SearchFinds(eq, b[1..], e);
      assert b == [b[0]] + b[1..];
    }
  }

  /** Searching the one bucket e hashes to is searching the whole table. */
  lemma BucketDecides(h: Hasher, eq: (int, int) -> bool, bs: Buckets, e: int)
    requires Lawful(h, eq) && WellPlaced(h, bs) && NULL !in All(bs)
    ensures var d := Search(eq, bs[h(e, |bs|)], e);
      if d == NULL then forall x :: x in All(bs) ==> !Same(eq, e, x) else d in All(bs) && Same(eq, e, d)
  {
    var k := h(e, |bs|);
    BucketContents(h, bs, k, NULL);
    assert NULL !in multiset(bs[k]);
    SearchFinds(eq, bs[k], e);
    var d := Search(eq, bs[k], e);
    BucketContents(h, bs, k, d);
    if d == NULL {
      forall x | x in All(bs)
        ensures !Same(eq, e, x)
      {
        BucketContents(h, bs, k, x);
        assert x in multiset(bs[k]) <==> x in bs[k];
      }
    } else {
      assert d in multiset(bs[k]);
    }
  }

  lemma DistinctAfterAdding(eq: (int, int) -> bool, m: multiset<int>, e: int)
    requires Distinct(eq, m) && forall x :: x in m ==> !Same(eq, e, x) && !Same(eq, x, e)
    ensures Distinct(eq, m + multiset{e}) && Elems(m + multiset{e}) == Elems(m) + {e}
  {
    forall x: int
      ensures (m + multiset{e})[x] <= 1
    {
      if x == e {
        assert e !in m;
      }
    }
  }

  lemma DistinctAfterRemoving(eq: (int, int) -> bool, m: multiset<int>, e: int)
    requires Distinct(eq, m) && e in m
    ensures Distinct(eq, m - multiset{e}) && Elems(m - multiset{e}) == Elems(m) - {e}
  {
    assert (m - multiset{e})[e] == 0;
  }

  ghost predicate NoNull(bs: Buckets) {
    forall b, j {:trigger bs[b][j]} :: 0 <= b < |bs| && 0 <= j < |bs[b]| ==> bs[b][j] != NULL
  }

  lemma {:induction false} NullIsNowhere(bs: Buckets, n: nat)
    requires NoNull(bs) && n <= |bs|
    ensures NULL !in AllTo(bs, n)
  {
    if n > 0 {
      NullIsNowhere(bs, n - 1);
      assert NULL !in bs[n - 1];
    }
  }

  /** What a table promises about its contents: entries are in their buckets and no two of them match. */
  ghost predicate Sound(h: Hasher, eq: (int, int) -> bool, bs: Buckets) {
    Lawful(h, eq) && WellPlaced(h, bs) && NoNull(bs) && Distinct(eq, All(bs))
  }

  ghost function Contents(bs: Buckets): set<int> {
    Elems(All(bs))
  }

  /** The only entry of the set that matches e, or NULL. */
  ghost predicate IsMatch(eq: (int, int) -> bool, s: set<int>, e: int, d: int) {
    if d == NULL then forall x :: x in s ==> !Same(eq, e, x) else d in s && Same(eq, e, d)
  }

  lemma EmptyIsSound(h: Hasher, eq: (int, int) -> bool, n: nat)
    requires Lawful(h, eq) && n > 0
    ensures Sound(h, eq, EmptyTable(n)) && Contents(EmptyTable(n)) == {}
    ensures Used(EmptyTable(n)) == 0 && Over(EmptyTable(n)) == 0
  {
    EmptyHasNothing(EmptyTable(n), n);
  }

  /** Tables with the same entries have the same number of them. */
  lemma CountsFollowContents(s: Buckets, t: Buckets)
    requires All(s) == All(t)
    ensures Used(s) + Over(s) == Used(t) + Over(t)
  {
    EntriesAreCounted(s, |s|);
    EntriesAreCounted(t, |t|);
  }

  /** Searching a bucket answers for the set. */
  lemma SearchIsMatch(h: Hasher, eq: (int, int) -> bool, bs: Buckets, e: int)
    requires Sound(h, eq, bs)
    ensures h(e, |bs|) < |bs| && IsMatch(eq, Contents(bs), e, Search(eq, bs[h(e, |bs|)], e))
  {
    NullIsNowhere(bs, |bs|);
    BucketDecides(h, eq, bs, e);
  }

  /** At most one entry of a table matches a given one. */
  lemma MatchIsUnique(h: Hasher, eq: (int, int) -> bool, bs: Buckets, e: int, c: int, d: int)
    requires Sound(h, eq, bs) && Transitive(eq)
    requires IsMatch(eq, Contents(bs), e, c) && IsMatch(eq, Contents(bs), e, d)
    ensures c == d
  {
    if c != NULL && d != NULL {
      assert Same(eq, c, e) && Same(eq, e, d);
    }
  }

  /** Adding an unmatched entry adds it to the set. */
  lemma DepositIsSound(h: Hasher, eq: (int, int) -> bool, bs: Buckets, e: int)
    requires Sound(h, eq, bs) && e != NULL && IsMatch(eq, Contents(bs), e, NULL)
    ensures var t := bs[h(e, |bs|) := Deposit(bs[h(e, |bs|)], e)];
      Sound(h, eq, t) && Contents(t) == Contents(bs) + {e} && Used(t) + Over(t) == Used(bs) + Over(bs) + 1
  {
    var k := h(e, |bs|);
    DepositCounts(bs, k, e);
    DepositPlaced(h, bs, e);
    forall x | x in All(bs)
      ensures !Same(eq, e, x) && !Same(eq, x, e)
    {
      assert x in Contents(bs);
    }
    DistinctAfterAdding(eq, All(bs), e);
    var t := bs[k := Deposit(bs[k], e)];
    forall b, j {:trigger t[b][j]} | 0 <= b < |t| && 0 <= j < |t[b]|
      ensures t[b][j] != NULL
    {
      if b == k && j >= 2 {
        assert t[b][j] == bs[k][j - 1];
      }
    }
  }

  /** Removing an entry from its bucket removes it from the set. */
  lemma RemoveIsSound(h: Hasher, eq: (int, int) -> bool, bs: Buckets, k: nat, j: nat)
    requires Sound(h, eq, bs) && k < |bs| && j < |bs[k]|
    ensures var t := bs[k := RemoveAt(bs[k], j)];
      && Sound(h, eq, t) && Contents(t) == Contents(bs) - {bs[k][j]}
      && Used(t) + Over(t) == Used(bs) + Over(bs) - 1 && Used(t) == Used(bs) - if |bs[k]| == 1 then 1 else 0
  {
    RemoveCounts(bs, k, j);
    RemovePlaced(h, bs, k, j);
    DistinctAfterRemoving(eq, All(bs), bs[k][j]);
    var t := bs[k := RemoveAt(bs[k], j)];
    forall b, i {:trigger t[b][i]} | 0 <= b < |t| && 0 <= i < |t[b]|
      ensures t[b][i] != NULL
    {
      if b == k {
        assert t[b][i] == bs[k][if i < j then i else i + 1];
      }
    }
  }

  /** Deleting the j-th entry of a bucket. */
  function RemoveAt(b: Bucket, j: nat): Bucket
    requires j < |b|
  {
    b[..j] + b[j + 1..]
  }

  lemma RemoveCounts(bs: Buckets, k: nat, j: nat)
    requires k < |bs| && j < |bs[k]|
    ensures var t := bs[k := RemoveAt(bs[k], j)];
      && All(t) == All(bs) - multiset{bs[k][j]} && bs[k][j] in All(bs)
      && Used(t) + Over(t) == Used(bs) + Over(bs) - 1
      && Used(t) == Used(bs) - if |bs[k]| == 1 then 1 else 0
  {
    var b := bs[k];
    var t := bs[k := RemoveAt(b, j)];
    Update(bs, k, RemoveAt(b, j));
    assert b == b[..j] + [b[j]] + b[j + 1..];
    assert multiset(b) == multiset(RemoveAt(b, j)) + multiset{b[j]};
    assert forall x :: All(t)[x] + multiset{b[j]}[x] == All(bs)[x];
    assert All(bs) == All(t) + multiset{b[j]};
  }

  lemma RemovePlaced(h: Hasher, bs: Buckets, k: nat, j: nat)
    requires WellPlaced(h, bs) && k < |bs| && j < |bs[k]|
    ensures WellPlaced(h, bs[k := RemoveAt(bs[k], j)])
  {
    var t := bs[k := RemoveAt(bs[k], j)];
    forall b, i | 0 <= b < |t| && 0 <= i < |t[b]|
      ensures h(t[b][i], |t|) == b
    {
      if b == k {
        assert t[b][i] == bs[k][if i < j then i else i + 1];
      }
    }
  }
}
