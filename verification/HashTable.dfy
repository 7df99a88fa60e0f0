/** The hash table of src/gnu/hash.c in its own form: an array of bucket heads, linked overflow nodes, and a linked
    list of recycled nodes, all updated in place. */
module HashTables {
  import opened HashModel
  import opened HashTuning
  import Primes

  /** struct hash_entry, when it is used as an overflow node.  The ghost fields say where the node is linked: the
      bucket array and slot it hangs from (no owner while it is on a free list), and its distance from the end. */
  class Node {
    var data: int
    var next: Node?
    ghost var owner: array?<Head>
    ghost var slot: int
    ghost var rank: int

    constructor ()
      ensures next == null && owner == null
    {
      data, next, owner, slot, rank := NULL, null, null, 0, 0;
    }
  }

  /** struct hash_entry, when it is used as a bucket head. */
  datatype Head = Head(data: int, next: Node?)

  /** malloc, with the requests made of it, every node it has handed out, and how many of them it got back. */
  class Heap {
    var mem: Memory
    ghost var nodes: set<Node>
    ghost var freed: nat

    constructor (mem: Memory)
      ensures this.mem == mem && nodes == {} && freed == 0
    {
      this.mem, nodes, freed := mem, {}, 0;
    }

    /** How many nodes are in the hands of tables. */
    ghost function Live(): int
      reads `nodes, `freed
    {
      |nodes| - freed
    }

    /** free, for a node. */
    ghost method Free()
      modifies `freed
      ensures Live() == old(Live()) - 1
    {
      freed := freed + 1;
    }

    /** Whether the next request is granted. */
    method Grant() returns (ok: bool)
      modifies this`mem
      ensures (ok, mem) == Malloc(old(mem))
    {
      ok := mem.answers(mem.asked);
      mem := mem.(asked := mem.asked + 1);
    }

    method NewNode() returns (n: Node?)
      modifies this
      ensures (n != null, mem) == Malloc(old(mem))
      ensures n == null ==> nodes == old(nodes)
      ensures n != null ==> fresh(n) && nodes == old(nodes) + {n} && n.owner == null
      ensures Later(old(mem), mem) && Live() == old(Live()) + Grants(old(mem), mem)
    {
      hide Later, Grants, Malloc;
      MallocRefusals(mem);
      var ok := Grant();
      n := null;
      if ok {
        n := new Node();
        nodes := nodes + {n};
      }
    }
  }

  class Table {
    var bucket: array<Head>
    var nUsed: nat
    var nEntries: nat
    var freeList: Node?
    var tuning: Tuning
    const hash: Hasher
    const eq: (int, int) -> bool
    const heap: Heap

    ghost var items: set<int>
    ghost var view: Buckets
    ghost var chain: seq<seq<Node>>
    ghost var pool: seq<Node>

    /** A table whose bucket array comes from calloc, with no entries in it yet. */
    constructor (n: nat, tuning: Tuning, hash: Hasher, eq: (int, int) -> bool, heap: Heap)
      requires n > 0
      ensures fresh(bucket) && bucket.Length == n && this.tuning == tuning
      ensures this.hash == hash && this.eq == eq && this.heap == heap
      ensures view == EmptyTable(n) && Chained(-1) && FreeListed() && pool == []
      ensures Counted() && nEntries == 0 && items == {}
    {
      this.bucket := new Head[n](_ => Head(NULL, null));
      this.nUsed, this.nEntries, this.freeList := 0, 0, null;
      this.tuning, this.hash, this.eq, this.heap := tuning, hash, eq, heap;
      items, view, chain, pool := {}, EmptyTable(n), seq(n, _ => []), [];
      new;
      EmptyHasNothing(view, n);
    }

    static ghost function First(ns: seq<Node>): Node? {
      if ns == [] then null else ns[0]
    }

    /** The bucket heads agree with view and chain; the link of bucket `skip` is not looked at. */
    ghost predicate Heads(skip: int)
      reads `bucket, `view, `chain, bucket
    {
      && bucket.Length == |view| == |chain| > 0
      && (forall b {:trigger view[b]} {:trigger chain[b]} {:trigger bucket[b]} :: 0 <= b < |view| ==>
        && (view[b] == [] ==> bucket[b].data == NULL && chain[b] == [])
        && (view[b] != [] ==> bucket[b].data == view[b][0] && |chain[b]| == |view[b]| - 1)
        && (b != skip ==> bucket[b].next == First(chain[b])))
      && (forall b, j {:trigger view[b][j]} :: 0 <= b < |view| && 0 <= j < |view[b]| ==> view[b][j] != NULL)
    }

    /** The overflow nodes hold the entries after the head, and each knows where it is linked. */
    ghost predicate Overflow()
      reads `bucket, `view, `chain, heap`nodes, heap.nodes
    {
      && |chain| == |view|
      && (forall b, j {:trigger chain[b][j]} :: 0 <= b < |chain| && 0 <= j < |chain[b]| ==>
        chain[b][j] in heap.nodes && Tagged(b, j, chain[b][j]))
      && (forall b, j {:trigger chain[b][j].next} :: 0 <= b < |chain| && 0 <= j < |chain[b]| ==>
        chain[b][j].next == if j + 1 < |chain[b]| then chain[b][j + 1] else null)
    }

    ghost predicate Tagged(b: int, j: int, n: Node)
      requires 0 <= b < |chain| == |view|
      reads `bucket, `view, `chain, n
    {
      && n.owner == bucket && n.slot == b && n.rank == |chain[b]| - 1 - j
      && 0 <= j && j + 1 < |view[b]| && n.data == view[b][j + 1]
    }

    /** The node is in no overflow chain of this table. */
    ghost predicate Unlinked(n: Node)
      reads `chain
    {
      forall b, j {:trigger chain[b][j]} :: 0 <= b < |chain| && 0 <= j < |chain[b]| ==> chain[b][j] != n
    }

    ghost predicate Chained(skip: int)
      reads `bucket, `view, `chain, bucket, heap`nodes, heap.nodes
    {
      Heads(skip) && Overflow()
    }

    /** The recycled nodes are linked from freeList. */
    ghost predicate FreeListed()
      reads `freeList, `pool, heap`nodes, heap.nodes
    {
      && freeList == First(pool)
      && (forall j {:trigger pool[j]} :: 0 <= j < |pool| ==>
        pool[j] in heap.nodes && pool[j].owner == null && pool[j].rank == |pool| - 1 - j)
      && (forall j {:trigger pool[j].next} :: 0 <= j < |pool| ==>
        pool[j].next == if j + 1 < |pool| then pool[j + 1] else null)
    }

    ghost predicate Counted()
      reads `nUsed, `view
    {
      nUsed == Used(view)
    }

    /** src/gnu/hash.c allocate_entry: recycle a node, or ask malloc for one. */
    method AllocateEntry() returns (n: Node?)
      requires FreeListed() && Chained(-1)
      modifies this`freeList, this`pool, heap
      ensures FreeListed() && Chained(-1)
      ensures old(pool) != [] ==> n == old(pool)[0] && pool == old(pool)[1..] && unchanged(heap)
      ensures old(pool) == [] ==> pool == [] && (n != null, heap.mem) == Malloc(old(heap.mem))
      ensures old(pool) == [] && n == null ==> heap.nodes == old(heap.nodes)
      ensures old(pool) == [] && n != null ==> fresh(n) && heap.nodes == old(heap.nodes) + {n}
      ensures n != null ==> n in heap.nodes && n.owner == null
      ensures n != null ==> n !in pool
      ensures Later(old(heap.mem), heap.mem) && heap.Live() == old(heap.Live()) + Grants(old(heap.mem), heap.mem)
    {
      hide Later, Grants;
      NoRequest(heap.mem);
      if freeList != null {
        n := freeList;
        freeList := n.next;
        pool := pool[1..];
      } else {
        n := heap.NewNode();
      }
    }

    /** src/gnu/hash.c free_entry. */
    method FreeEntry(n: Node)
      requires FreeListed() && n in heap.nodes && n !in pool
      modifies this`freeList, this`pool, n
      ensures FreeListed() && pool == [n] + old(pool) && n.owner == null
    {
      n.data := NULL;
      n.next := freeList;
      freeList := n;
      n.owner, n.rank := null, |pool|;
      pool := [n] + pool;
    }

    /** This table and `src` share malloc, the hasher and the free list, as the two tables of a rehash do. */
    ghost predicate Paired(src: Table, skip: int)
      reads this, bucket, src, src.bucket, heap, heap.nodes
    {
      && this != src && bucket != src.bucket && heap == src.heap && hash == src.hash && InRange(hash)
      && Chained(-1) && FreeListed() && src.Chained(skip)
    }

    /** Forgets the first overflow node of bucket i, which the caller is about to link elsewhere. */
    ghost method Unchain(i: nat)
      requires Chained(i) && i < |view| && |view[i]| > 1
      modifies this`view, this`chain
      ensures Chained(i)
      ensures view == old(view)[i := [old(view)[i][0]] + old(view)[i][2..]]
      ensures chain == old(chain)[i := old(chain)[i][1..]]
      ensures Unlinked(old(chain)[i][0])
    {
      var c, v := chain[i], view[i];
      view := view[i := [v[0]] + v[2..]];
      chain := chain[i := c[1..]];
      forall b, j {:trigger chain[b][j]} | 0 <= b < |chain| && 0 <= j < |chain[b]|
        ensures chain[b][j] in heap.nodes && Tagged(b, j, chain[b][j]) && chain[b][j] != c[0]
        ensures chain[b][j].next == if j + 1 < |chain[b]| then chain[b][j + 1] else null
      {
        if b != i {
          assert chain[b] == old(chain)[b] && view[b] == old(view)[b];
        } else {
          assert chain[i][j] == c[j + 1] && view[i][j + 1] == v[j + 2];
        }
      }
    }

    /** Node n heads the overflow of bucket k, although view and chain do not say so yet. */
    ghost predicate Headed(k: int, n: Node, data: int)
      reads `bucket, `view, `chain, bucket, heap`nodes, heap.nodes, n
    {
      && 0 <= k < |view| && |view| == |chain| && view[k] != [] && Heads(k) && Overflow() && Unlinked(n)
      && bucket[k].next == n && n in heap.nodes && data != NULL && n.data == data && n.next == First(chain[k])
      && n.owner == bucket && n.slot == k && n.rank == |chain[k]|
    }

    /** Enters the new first overflow node of bucket k into view and chain. */
    ghost method Record(k: nat, n: Node, data: int)
      requires Headed(k, n, data)
      modifies `view, `chain
      ensures Chained(-1) && view == old(view)[k := Deposit(old(view)[k], data)]
    {
      ghost var vs, cs := view, chain;
      DepositShape(vs[k], data);
      view := vs[k := Deposit(vs[k], data)];
      chain := cs[k := [n] + cs[k]];
      forall b, j {:trigger chain[b][j]} | 0 <= b < |chain| && 0 <= j < |chain[b]|
        ensures chain[b][j] in heap.nodes && Tagged(b, j, chain[b][j])
        ensures chain[b][j].next == if j + 1 < |chain[b]| then chain[b][j + 1] else null
      {
        if b != k {
          assert chain[b] == cs[b] && view[b] == vs[b];
        } else if j > 0 {
          assert chain[b][j] == cs[b][j - 1];
        }
      }
    }

    /** Links a node that is in none of this table's lists, holding data, first in the overflow of bucket k. */
    method LinkNode(k: nat, n: Node, data: int)
      requires Chained(-1) && k < |view| && view[k] != []
      requires n in heap.nodes && data != NULL && n.owner != bucket
      modifies this`view, this`chain, bucket, n
      ensures Chained(-1) && n.owner == bucket
      ensures view == old(view)[k := Deposit(old(view)[k], data)]
    {
      assert Unlinked(n);
      n.data := data;
      n.next := bucket[k].next;
      bucket[k] := bucket[k].(next := n);
      n.owner, n.slot, n.rank := bucket, k, |chain[k]|;
      Record(k, n, data);
    }

    static lemma DepositShape(b: Bucket, x: int)
      requires b != []
      ensures var b' := Deposit(b, x);
        && |b'| == |b| + 1 && b'[0] == b[0] && b'[1] == x
        && forall j {:trigger b'[j]} :: 2 <= j < |b'| ==> b'[j] == b[j - 1]
    {
    }

    /** Puts an entry into an empty bucket head. */
    method FillHead(k: nat, data: int)
      requires Chained(-1) && k < |view| && view[k] == [] && data != NULL
      modifies this`view, this`nUsed, bucket
      ensures Chained(-1)
      ensures view == old(view)[k := [data]] && nUsed == old(nUsed) + 1
    {
      bucket[k] := bucket[k].(data := data);
      nUsed := nUsed + 1;
      view := view[k := [data]];
    }

    /** Places a detached node's entry: as an overflow node of its bucket, or as a head with the node recycled. */
    method PlaceNode(src: Table, skip: int, cursor: Node)
      requires Paired(src, skip) && src.Unlinked(cursor)
      requires cursor in heap.nodes && cursor.data != NULL && cursor.owner == src.bucket
      modifies `view, `chain, `pool, `freeList, `nUsed, bucket, cursor
      ensures Paired(src, skip)
      ensures var x := old(cursor.data); var k := hash(x, |old(view)|); var landed := old(view)[k] == [];
        && view == old(view)[k := Deposit(old(view)[k], x)]
        && |pool| == |old(pool)| + (if landed then 1 else 0)
        && nUsed == old(nUsed) + (if landed then 1 else 0)
    {
      var k := hash(cursor.data, bucket.Length);
      if bucket[k].data != NULL {
        LinkNode(k, cursor, cursor.data);
      } else {
        FillHead(k, cursor.data);
        FreeEntry(cursor);
      }
    }

    /** Links the first overflow node of source bucket i into this table, or recycles it if its entry becomes a
        bucket head. */
    method RelinkOne(src: Table, i: nat, cursor: Node) returns (next: Node?)
      requires Paired(src, i) && i < |src.view| && |src.view[i]| > 1 && cursor == src.chain[i][0]
      modifies `view, `chain, `pool, `freeList, `nUsed, bucket, src`view, src`chain, cursor
      ensures Paired(src, i) && next == First(src.chain[i])
      ensures var x := old(src.view)[i][1]; var k := hash(x, |old(view)|); var landed := old(view)[k] == [];
        && view == old(view)[k := Deposit(old(view)[k], x)]
        && |pool| == |old(pool)| + (if landed then 1 else 0)
        && nUsed == old(nUsed) + (if landed then 1 else 0)
      ensures src.view == old(src.view)[i := [old(src.view)[i][0]] + old(src.view)[i][2..]]
    {
      next := cursor.next;
      src.Unchain(i);
      PlaceNode(src, i, cursor);
    }

    /** A step of MoveOverflow, and the bucket it empties by one entry. */
    static lemma OverflowStep(h: Hasher, b: Bucket, dst: Buckets, free: nat)
      requires InRange(h) && |dst| > 0 && |b| > 1
      ensures var k := h(b[1], |dst|);
        && MoveOverflow(h, b[1..], dst, free)
           == MoveOverflow(h, ([b[0]] + b[2..])[1..], dst[k := Deposit(dst[k], b[1])],
                           if dst[k] == [] then free + 1 else free)
        && Used(dst[k := Deposit(dst[k], b[1])]) == Used(dst) + if dst[k] == [] then 1 else 0
    {
      var k := h(b[1], |dst|);
      assert b[1..][0] == b[1] && b[1..][1..] == ([b[0]] + b[2..])[1..];
      DepositCounts(dst, k, b[1]);
    }

    /** The overflow of source bucket i moves over; the link in its head is left dangling. */
    method DrainChain(src: Table, i: nat)
      requires Paired(src, -1) && Counted() && i < |src.view| && src.view[i] != []
      modifies `view, `chain, `pool, `freeList, `nUsed, bucket, src`view, src`chain, heap.nodes
      ensures Paired(src, i) && Counted()
      ensures |src.view| == |old(src.view)| && src.view == old(src.view)[i := [old(src.view)[i][0]]]
      ensures (view, |pool|) == MoveOverflow(hash, old(src.view)[i][1..], old(view), |old(pool)|)
    {
      hide FreeListed, Deposit, Tagged;
      ghost var goal := MoveOverflow(hash, src.view[i][1..], view, |pool|);
      var cursor := src.bucket[i].next;
      while cursor != null
        invariant Paired(src, i) && Counted() && cursor == First(src.chain[i])
        invariant |view| == |old(view)| && |src.view| == |old(src.view)|
        invariant src.view[i] != [] && src.view[i][0] == old(src.view)[i][0]
        invariant src.view == old(src.view)[i := src.view[i]]
        invariant goal == MoveOverflow(hash, src.view[i][1..], view, |pool|)
        decreases |src.view[i]|
      {
        OverflowStep(hash, src.view[i], view, |pool|);
        cursor := RelinkOne(src, i, cursor);
      }
      assert src.view[i] == [src.view[i][0]];
    }

    /** Clears the link of a head whose overflow is gone. */
    method CutLink(i: nat)
      requires Chained(i) && i < |view| && |view[i]| == 1
      modifies bucket
      ensures Chained(-1)
    {
      bucket[i] := bucket[i].(next := null);
    }

    /** Empties a bucket that holds only its head. */
    method ClearHead(i: nat)
      requires Chained(-1) && Counted() && i < |view| && |view[i]| == 1
      modifies bucket, `view, `nUsed
      ensures Chained(-1) && Counted() && view == old(view)[i := []]
    {
      UpdateCounts(view, i, [], |view|);
      bucket[i] := bucket[i].(data := NULL);
      nUsed := nUsed - 1;
      view := view[i := []];
    }

    /** The overflow of source bucket i moves over, and the bucket keeps its head. */
    method DrainBucket(src: Table, i: nat)
      requires Paired(src, -1) && Counted() && src.Counted() && i < |src.view| && src.view[i] != []
      modifies `view, `chain, `pool, `freeList, `nUsed, bucket, src`view, src`chain, src.bucket, heap.nodes
      ensures Paired(src, -1) && Counted() && src.Counted()
      ensures Xfer(src.view, view, |pool|, heap.mem)
           == Drain(hash, Xfer(old(src.view), old(view), |old(pool)|, heap.mem), i)
    {
      UpdateCounts(src.view, i, [src.view[i][0]], |src.view|);
      DrainChain(src, i);
      src.CutLink(i);
    }

    /** Adds an entry to the overflow of a bucket that is in use. */
    method AddOverflow(k: nat, data: int) returns (ok: bool)
      requires Chained(-1) && FreeListed() && k < |view| && view[k] != [] && data != NULL
      modifies `view, `chain, `pool, `freeList, `nUsed, bucket, heap, heap.nodes
      ensures Chained(-1) && FreeListed() && unchanged(`nUsed)
      ensures old(heap.nodes) <= heap.nodes && (forall n :: n in heap.nodes ==> n in old(heap.nodes) || fresh(n))
      ensures forall m :: m in old(heap.nodes) && old(m.owner) != null ==> unchanged(m)
      ensures view == if ok then old(view)[k := Deposit(old(view)[k], data)] else old(view)
      ensures |pool| == if |old(pool)| > 0 then |old(pool)| - 1 else 0
      ensures (ok, heap.mem) == if |old(pool)| > 0 then (true, old(heap.mem)) else Malloc(old(heap.mem))
      ensures Later(old(heap.mem), heap.mem) && heap.Live() == old(heap.Live()) + Grants(old(heap.mem), heap.mem)
    {
      hide Later, Grants, Malloc;
      var n := AllocateEntry();
      if n == null {
        return false;
      }
      LinkNode(k, n, data);
      ok := true;
    }

    /** Adds an entry to its bucket, with a recycled or new node if the head is taken. */
    method AddEntry(data: int) returns (ok: bool)
      requires Chained(-1) && FreeListed() && Counted() && InRange(hash) && data != NULL
      modifies `view, `chain, `pool, `freeList, `nUsed, bucket, heap, heap.nodes
      ensures Chained(-1) && FreeListed() && Counted()
      ensures old(heap.nodes) <= heap.nodes && (forall n :: n in heap.nodes ==> n in old(heap.nodes) || fresh(n))
      ensures forall m :: m in old(heap.nodes) && old(m.owner) != null ==> unchanged(m)
      ensures var k := hash(data, |old(view)|); var taken := old(view)[k] != [];
        && view == (if ok then old(view)[k := Deposit(old(view)[k], data)] else old(view))
        && |pool| == |old(pool)| - (if taken && |old(pool)| > 0 then 1 else 0)
        && (ok, heap.mem) == if taken && |old(pool)| == 0 then Malloc(old(heap.mem)) else (true, old(heap.mem))
      ensures Later(old(heap.mem), heap.mem) && heap.Live() == old(heap.Live()) + Grants(old(heap.mem), heap.mem)
    {
      hide Later, Grants, Malloc;
      NoRequest(heap.mem);
      var k := hash(data, bucket.Length);
      UpdateCounts(view, k, Deposit(view[k], data), |view|);
      if bucket[k].data != NULL {
        ok := AddOverflow(k, data);
      } else {
        FillHead(k, data);
        ok := true;
      }
    }

    ghost function State(src: Table): Xfer
      reads this, src, heap
    {
      Xfer(src.view, view, |pool|, heap.mem)
    }

    /** Enters the head of source bucket i here as well. */
    method CopyHead(src: Table, i: nat) returns (ok: bool)
      requires Paired(src, -1) && Counted() && i < |src.view| && |src.view[i]| == 1
      modifies `view, `chain, `pool, `freeList, `nUsed, bucket, heap, heap.nodes
      ensures Paired(src, -1) && Counted()
      ensures old(heap.nodes) <= heap.nodes && (forall n :: n in heap.nodes ==> n in old(heap.nodes) || fresh(n))
      ensures var m := MoveHead(hash, old(State(src)), i);
        ok == m.ok && State(src) == m.state.(src := src.view)
      ensures Later(old(heap.mem), heap.mem) && heap.Live() == old(heap.Live()) + Grants(old(heap.mem), heap.mem)
    {
      hide Later, Grants, Malloc;
      ok := AddEntry(src.bucket[i].data);
    }

    /** The head of source bucket i moves over, unless that needs a node and none can be had. */
    method MoveBucketHead(src: Table, i: nat) returns (ok: bool)
      requires Paired(src, -1) && Counted() && src.Counted() && i < |src.view| && |src.view[i]| == 1
      modifies `view, `chain, `pool, `freeList, `nUsed, bucket, src`view, src`nUsed, src.bucket, heap, heap.nodes
      ensures Paired(src, -1) && Counted() && src.Counted()
      ensures old(heap.nodes) <= heap.nodes && (forall n :: n in heap.nodes ==> n in old(heap.nodes) || fresh(n))
      ensures Moved(State(src), ok) == MoveHead(hash, old(State(src)), i)
      ensures Later(old(heap.mem), heap.mem) && heap.Live() == old(heap.Live()) + Grants(old(heap.mem), heap.mem)
    {
      hide FreeListed, Later, Grants, Malloc;
      ok := CopyHead(src, i);
      if ok {
        src.ClearHead(i);
      }
    }

    /** The work of a transfer on one source bucket. */
    method TransferBucket(src: Table, safe: bool, i: nat, ghost goal: Moved) returns (ok: bool, ghost st: Xfer)
      requires Paired(src, -1) && Counted() && src.Counted() && i < |src.view|
      requires goal == Transfer(hash, State(src), safe, i)
      modifies `view, `chain, `pool, `freeList, `nUsed, bucket
      modifies src`view, src`chain, src`nUsed, src.bucket, heap, heap.nodes
      ensures Paired(src, -1) && Counted() && src.Counted()
      ensures old(heap.nodes) <= heap.nodes && (forall n :: n in heap.nodes ==> n in old(heap.nodes) || fresh(n))
      ensures |src.view| == |old(src.view)| && st == State(src)
      ensures goal == if ok then Transfer(hash, st, safe, i + 1) else Moved(st, false)
      ensures Later(old(heap.mem), heap.mem) && heap.Live() == old(heap.Live()) + Grants(old(heap.mem), heap.mem)
    {
      hide Later, Grants;
      NoRequest(heap.mem);
      ok := true;
      if src.bucket[i].data != NULL {
        DrainBucket(src, i);
        if !safe {
          ok := MoveBucketHead(src, i);
        }
      }
      st := State(src);
    }

    /** src/gnu/hash.c transfer_entries, with this table as the destination. */
    method TransferFrom(src: Table, safe: bool) returns (ok: bool)
      requires Paired(src, -1) && Counted() && src.Counted()
      modifies `view, `chain, `pool, `freeList, `nUsed, bucket
      modifies src`view, src`chain, src`nUsed, src.bucket, heap, heap.nodes
      ensures Paired(src, -1) && Counted() && src.Counted()
      ensures old(heap.nodes) <= heap.nodes && (forall n :: n in heap.nodes ==> n in old(heap.nodes) || fresh(n))
      ensures Moved(State(src), ok) == Transfer(hash, old(State(src)), safe, 0)
      ensures Later(old(heap.mem), heap.mem) && heap.Live() == old(heap.Live()) + Grants(old(heap.mem), heap.mem)
    {
      hide Paired, Counted, Transfer, Later, Grants;
      PairedSizes(src);
      NoRequest(heap.mem);
      ghost var st := State(src);
      ghost var goal := Transfer(hash, st, safe, 0);
      var i := 0;
      ok := true;
      while i < src.bucket.Length && ok
        invariant Paired(src, -1) && Counted() && src.Counted()
        invariant old(heap.nodes) <= heap.nodes && (forall n :: n in heap.nodes ==> n in old(heap.nodes) || fresh(n))
        invariant 0 <= i <= |src.view| == |old(src.view)| && st == State(src) && |st.dst| > 0
        invariant goal == if ok then Transfer(hash, st, safe, i) else Moved(st, false)
        invariant Later(old(heap.mem), heap.mem) && heap.Live() == old(heap.Live()) + Grants(old(heap.mem), heap.mem)
      {
        ghost var before := heap.mem;
        ok, st := TransferBucket(src, safe, i, goal);
        RefusalsAdd(old(heap.mem), before, heap.mem);
        PairedSizes(src);
        i := i + 1;
      }
      TransferDone(hash, st, safe);
    }

    lemma PairedSizes(src: Table)
      requires Paired(src, -1)
      ensures src.bucket.Length == |src.view| && |view| > 0 && InRange(hash)
      ensures Chained(-1) && FreeListed() && src.heap == heap && src.hash == hash
    {
    }

    /** The nodes in use and recycled, less those that malloc has handed out and not got back. An operation that keeps
        it loses no node and counts none twice. */
    ghost function Stock(): int
      reads `view, `pool, heap`nodes, heap`freed
    {
      Over(view) + |pool| - heap.Live()
    }

    ghost predicate Valid()
      reads `items, `bucket, `view, `chain, `freeList, `pool, `nUsed, `nEntries, bucket, heap`nodes, heap.nodes
    {
      && Chained(-1) && FreeListed() && Counted() && bucket.Length == |view| && Sized(|view|)
      && nEntries == Used(view) + Over(view) && Sound(hash, eq, view) && items == Contents(view)
    }

    /** Where an entry matching e is: d is the entry and `at` its index in bucket k; prev is the node before it when
        that is not the bucket head. */
    ghost predicate Found(d: int, k: nat, at: nat, prev: Node?)
      reads `view, `chain
    {
      && k < |view| == |chain| && at < |view[k]| && view[k][at] == d && at <= |chain[k]|
      && (at >= 2 ==> prev == chain[k][at - 2]) && (at < 2 ==> prev == null)
    }

    /** src/gnu/hash.c hash_find_entry, without the unlinking. */
    method FindEntry(e: int) returns (d: int, k: nat, inHead: bool, ghost at: nat, prev: Node?)
      requires Valid()
      ensures k == hash(e, |view|) && k < |view| && d == Search(eq, view[k], e)
      ensures d != NULL ==> Found(d, k, at, prev) && inHead == (at == 0)
    {
      k := hash(e, bucket.Length);
      d, at, prev, inHead := bucket[k].data, 0, null, true;
      if d == NULL {
        return;
      }
      if Same(eq, e, d) {
        return;
      }
      inHead := false;
      var cursor := bucket[k].next;
      at := 1;
      while cursor != null
        invariant 1 <= at <= |view[k]| && cursor == (if at < |view[k]| then chain[k][at - 1] else null)
        invariant (at >= 2 ==> prev == chain[k][at - 2]) && (at < 2 ==> prev == null)
        invariant Search(eq, view[k], e) == Search(eq, view[k][at..], e)
        decreases |view[k]| - at
      {
        assert view[k][at..][0] == view[k][at] && view[k][at..][1..] == view[k][at + 1..];
        if Same(eq, e, cursor.data) {
          d := cursor.data;
          return;
        }
        prev, cursor, at := cursor, cursor.next, at + 1;
      }
      d := NULL;
    }

    lemma FoundIsMatch(e: int)
      requires Valid()
      ensures var k := hash(e, |view|); k < |view| && IsMatch(eq, items, e, Search(eq, view[k], e))
    {
      SearchIsMatch(hash, eq, view, e);
    }

    /** src/gnu/hash.c hash_lookup. */
    method Lookup(e: int) returns (d: int)
      requires Valid()
      ensures IsMatch(eq, items, e, d)
      ensures d != NULL ==> d in items && (d == e || eq(e, d))
      ensures d == NULL ==> forall x :: x in items ==> x != e && !eq(e, x)
    {
      SearchIsMatch(hash, eq, view, e);
      var k := hash(e, bucket.Length);
      if bucket[k].data == NULL {
        return NULL;
      }
      if Same(eq, e, bucket[k].data) {
        return bucket[k].data;
      }
      var cursor := bucket[k].next;
      ghost var at := 1;
      while cursor != null
        invariant 1 <= at <= |view[k]| && cursor == (if at < |view[k]| then chain[k][at - 1] else null)
        invariant Search(eq, view[k], e) == Search(eq, view[k][at..], e)
        decreases |view[k]| - at
      {
        assert view[k][at..][0] == view[k][at] && view[k][at..][1..] == view[k][at + 1..];
        if Same(eq, e, cursor.data) {
          return cursor.data;
        }
        cursor, at := cursor.next, at + 1;
      }
      d := NULL;
    }

    /** Bumps the first overflow entry of bucket k into its head, and detaches its node. */
    method BumpHead(k: nat) returns (next: Node)
      requires Chained(-1) && k < |view| && |view[k]| > 1
      modifies `view, `chain, bucket
      ensures Chained(-1) && view == old(view)[k := RemoveAt(old(view)[k], 0)]
      ensures next in heap.nodes && Unlinked(next) && next.owner == bucket
    {
      next := bucket[k].next;
      bucket[k] := Head(next.data, next.next);
      DropFirst(k, RemoveAt(view[k], 0));
    }

    /** Takes the first overflow node of bucket k, which its head has let go of, out of the chain. */
    ghost method DropFirst(k: nat, b: Bucket)
      requires k < |view| && Overflow() && HeadsBut(k) && chain[k] != []
      requires |b| == |view[k]| - 1 && b[0] != NULL && b[1..] == view[k][2..]
      requires bucket[k] == Head(b[0], First(chain[k][1..]))
      modifies `view, `chain
      ensures Chained(-1) && view == old(view)[k := b] && chain == old(chain)[k := old(chain)[k][1..]]
    {
      ghost var vs, cs := view, chain;
      view := vs[k := b];
      chain := cs[k := cs[k][1..]];
      forall i, j {:trigger chain[i][j]} | 0 <= i < |chain| && 0 <= j < |chain[i]|
        ensures chain[i][j] in heap.nodes && Tagged(i, j, chain[i][j])
        ensures chain[i][j].next == if j + 1 < |chain[i]| then chain[i][j + 1] else null
      {
        if i != k {
          assert chain[i] == cs[i] && view[i] == vs[i];
        } else {
          assert chain[k][j] == cs[k][j + 1] && b[j + 1] == b[1..][j] == vs[k][2..][j];
        }
      }
    }

    /** The bucket heads agree with view and chain, but for bucket k. */
    ghost predicate HeadsBut(k: int)
      reads `bucket, `view, `chain, bucket
    {
      && bucket.Length == |view| == |chain| > 0
      && (forall b {:trigger view[b]} {:trigger chain[b]} {:trigger bucket[b]} :: 0 <= b < |view| && b != k ==>
        && (view[b] == [] ==> bucket[b].data == NULL && chain[b] == [])
        && (view[b] != [] ==> bucket[b].data == view[b][0] && |chain[b]| == |view[b]| - 1)
        && bucket[b].next == First(chain[b]))
      && (forall b, j {:trigger view[b][j]} :: 0 <= b < |view| && 0 <= j < |view[b]| ==> view[b][j] != NULL)
      && (0 <= k < |view| ==> |chain[k]| == |view[k]| - 1)
    }

    /** Unlinks the first overflow node of bucket k. */
    method UnlinkFirst(k: nat) returns (next: Node)
      requires Chained(-1) && k < |view| && 1 < |view[k]|
      modifies `view, `chain, bucket
      ensures Chained(-1) && view == old(view)[k := RemoveAt(old(view)[k], 1)]
      ensures next in heap.nodes && Unlinked(next) && next.owner == bucket
    {
      next := bucket[k].next;
      bucket[k] := bucket[k].(next := next.next);
      DropFirst(k, RemoveAt(view[k], 1));
    }

    /** Like Overflow, but the first n nodes of bucket k still have the ranks of a chain longer by one. */
    ghost predicate OverflowWithGap(k: int, n: int)
      reads `bucket, `view, `chain, heap`nodes, heap.nodes
    {
      && |chain| == |view|
      && (forall b, j {:trigger chain[b][j]} :: 0 <= b < |chain| && 0 <= j < |chain[b]| ==>
        && chain[b][j] in heap.nodes && j + 1 < |view[b]|
        && chain[b][j].owner == bucket && chain[b][j].slot == b && chain[b][j].data == view[b][j + 1]
        && chain[b][j].rank == |chain[b]| - 1 - j + if b == k && j < n then 1 else 0)
      && (forall b, j {:trigger chain[b][j].next} :: 0 <= b < |chain| && 0 <= j < |chain[b]| ==>
        chain[b][j].next == if j + 1 < |chain[b]| then chain[b][j + 1] else null)
    }

    /** Closes the gap in the ranks of bucket k. */
    ghost method CloseGap(k: nat, n: nat)
      requires OverflowWithGap(k, n) && k < |chain| && n <= |chain[k]|
      modifies heap.nodes`rank
      ensures Overflow()
      ensures forall m :: m in heap.nodes && m.owner != bucket ==> m.rank == old(m.rank)
    {
      forall j | 0 <= j < n {
        chain[k][j].rank := chain[k][j].rank - 1;
      }
    }

    /** Like Overflow, but the node for entry at - 1 of bucket k is linked to the one for entry at + 1. */
    ghost predicate Bypassed(k: int, at: int)
      reads `bucket, `view, `chain, heap`nodes, heap.nodes
    {
      && |chain| == |view|
      && (forall b, j {:trigger chain[b][j]} :: 0 <= b < |chain| && 0 <= j < |chain[b]| ==>
        chain[b][j] in heap.nodes && Tagged(b, j, chain[b][j]))
      && (forall b, j {:trigger chain[b][j].next} :: 0 <= b < |chain| && 0 <= j < |chain[b]| ==>
        var skip := if b == k && j == at - 2 then 2 else 1;
        chain[b][j].next == if j + skip < |chain[b]| then chain[b][j + skip] else null)
    }

    /** Bypasses the overflow node after prev, which holds entry `at` of bucket k. */
    method Bypass(k: nat, ghost at: nat, prev: Node) returns (next: Node)
      requires Chained(-1) && k < |view| && 1 < at < |view[k]| && prev == chain[k][at - 2]
      modifies prev`next
      ensures Heads(-1) && Bypassed(k, at) && next == chain[k][at - 1]
    {
      next := prev.next;
      prev.next := next.next;
    }

    /** Takes the bypassed node out of view and chain. */
    ghost method Forget(k: nat, at: nat)
      requires Heads(-1) && Bypassed(k, at) && k < |view| && 1 < at < |view[k]|
      modifies `view, `chain
      ensures Heads(-1) && OverflowWithGap(k, at - 1) && view == old(view)[k := RemoveAt(old(view)[k], at)]
      ensures var n := old(chain)[k][at - 1];
        Unlinked(n) && n in heap.nodes && n.owner == bucket && |chain[k]| >= at - 1
    {
      ghost var c, v, cs, vs := chain[k], view[k], chain, view;
      view := vs[k := RemoveAt(v, at)];
      chain := cs[k := c[..at - 1] + c[at..]];
      forall b, j {:trigger chain[b][j]} | 0 <= b < |chain| && 0 <= j < |chain[b]|
        ensures chain[b][j] in heap.nodes && j + 1 < |view[b]|
        ensures chain[b][j].owner == bucket && chain[b][j].slot == b && chain[b][j].data == view[b][j + 1]
        ensures chain[b][j].rank == |chain[b]| - 1 - j + if b == k && j < at - 1 then 1 else 0
        ensures chain[b][j].next == if j + 1 < |chain[b]| then chain[b][j + 1] else null
      {
        if b != k {
          assert chain[b] == cs[b] && view[b] == vs[b];
        } else if j < at - 1 {
          assert chain[k][j] == c[j] && view[k][j + 1] == v[j + 1];
        } else {
          assert chain[k][j] == c[j + 1] && view[k][j + 1] == v[j + 2];
        }
      }
    }

    /** Unlinks the overflow node after prev. */
    method UnlinkAfter(k: nat, ghost at: nat, prev: Node) returns (next: Node)
      requires Chained(-1) && k < |view| && 1 < at < |view[k]| && prev == chain[k][at - 2]
      modifies `view, `chain, heap.nodes
      ensures Chained(-1) && view == old(view)[k := RemoveAt(old(view)[k], at)]
      ensures next in heap.nodes && Unlinked(next) && next.owner == bucket
      ensures forall m :: m in heap.nodes && old(m.owner) != bucket ==> unchanged(m)
    {
      next := Bypass(k, at, prev);
      Forget(k, at);
      CloseGap(k, at - 1);
    }

    /** Puts an unlinked node on the free list. */
    method Recycle(n: Node)
      requires Chained(-1) && FreeListed() && n in heap.nodes && Unlinked(n) && n.owner == bucket
      modifies `pool, `freeList, n
      ensures Chained(-1) && FreeListed() && |pool| == |old(pool)| + 1
    {
      FreeEntry(n);
    }

    /** The unlinking of hash_find_entry: takes entry `at` out of bucket k and recycles the node this frees. */
    method RemoveEntry(k: nat, inHead: bool, ghost at: nat, prev: Node?)
      requires Chained(-1) && FreeListed() && k < |view| && at < |view[k]|
      requires Found(view[k][at], k, at, prev) && inHead == (at == 0)
      modifies `view, `chain, `pool, `freeList, bucket, heap.nodes
      ensures Chained(-1) && FreeListed() && view == old(view)[k := RemoveAt(old(view)[k], at)]
      ensures |pool| == |old(pool)| + if |old(view)[k]| > 1 then 1 else 0
    {
      var n: Node;
      if inHead && bucket[k].next == null {
        bucket[k] := bucket[k].(data := NULL);
        view := view[k := RemoveAt(view[k], 0)];
        return;
      } else if inHead {
        n := BumpHead(k);
      } else if prev == null {
        n := UnlinkFirst(k);
      } else {
        n := UnlinkAfter(k, at, prev);
      }
      Recycle(n);
    }

    /** The temporary table of hash_rehash: its own buckets, and the free list of this table. */
    method Peer(newSize: nat) returns (target: Table)
      requires Chained(-1) && FreeListed() && Counted() && InRange(hash) && newSize > 0
      ensures fresh(target) && fresh(target.bucket) && target.heap == heap
      ensures target.Paired(this, -1) && target.Counted()
      ensures target.view == EmptyTable(newSize) && target.pool == pool
    {
      target := new Table(newSize, tuning, hash, eq, heap);
      target.freeList, target.pool := freeList, pool;
    }

    /** The successful end of hash_rehash. */
    method Adopt(target: Table)
      requires target.Paired(this, -1) && target.Counted()
      modifies `bucket, `view, `chain, `pool, `freeList, `nUsed
      ensures Chained(-1) && FreeListed() && Counted()
      ensures bucket == target.bucket && view == target.view && pool == target.pool
    {
      bucket, nUsed, freeList := target.bucket, target.nUsed, target.freeList;
      view, chain, pool := target.view, target.chain, target.pool;
    }

    /** This table takes the free list back, to become the destination of a transfer. */
    method TakeBack(target: Table)
      requires target.Paired(this, -1) && target.Counted() && Counted()
      modifies `pool, `freeList
      ensures Paired(target, -1) && target.Counted() && Counted() && pool == target.pool
    {
      freeList, pool := target.freeList, target.pool;
    }

    /** Undoing a transfer that ran out of memory, in two passes; its abort is unreachable. */
    method Undo(target: Table, ghost orig: Buckets)
      requires target.Paired(this, -1) && target.Counted() && Counted()
      requires Ready(hash, target.State(this)) && WellPlaced(hash, orig) && |view| == |orig|
      requires All(view) + All(target.view) == All(orig) && Over(view) + Over(target.view) + |target.pool| >= Over(orig)
      modifies `view, `chain, `pool, `freeList, `nUsed, bucket, heap, heap.nodes
      modifies target`view, target`chain, target`nUsed, target.bucket
      ensures Chained(-1) && FreeListed() && Counted() && heap.mem == old(heap.mem)
      ensures old(heap.nodes) <= heap.nodes && (forall n :: n in heap.nodes ==> n in old(heap.nodes) || fresh(n))
      ensures |view| == |orig| && WellPlaced(hash, view) && All(view) == All(orig)
      ensures Over(view) + |pool| == old(Over(view) + Over(target.view) + |target.pool|)
      ensures heap.Live() == old(heap.Live())
    {
      hide Paired, Counted, Transfer, Later, Grants;
      NoRequest(heap.mem);
      target.PairedSizes(this);
      UndoRestores(hash, orig, target.State(this));
      TakeBack(target);
      var first := TransferFrom(target, true);
      ghost var mem := heap.mem;
      var second := TransferFrom(target, false);
      assert first && second;
      RefusalsAdd(old(heap.mem), mem, heap.mem);
      PairedSizes(target);
    }

    /** The transfer of hash_rehash into a new bucket array, and its undoing if malloc fails halfway. */
    method Refill(newSize: nat) returns (ok: bool)
      requires Chained(-1) && FreeListed() && Counted() && InRange(hash) && WellPlaced(hash, view) && newSize > 0
      modifies `bucket, `view, `chain, `pool, `freeList, `nUsed, bucket, heap, heap.nodes
      ensures Chained(-1) && FreeListed() && Counted()
      ensures old(heap.nodes) <= heap.nodes && (forall n :: n in heap.nodes ==> n in old(heap.nodes) || fresh(n))
      ensures if ok then fresh(bucket) else bucket == old(bucket)
      ensures WellPlaced(hash, view) && All(view) == All(old(view)) && |view| == if ok then newSize else |old(view)|
      ensures Later(old(heap.mem), heap.mem) && Refusals(old(heap.mem), heap.mem) == if ok then 0 else 1
      ensures Stock() == old(Stock())
    {
      hide Chained, FreeListed, Later, Refusals, Grants;
      var target := Peer(newSize);
      TransferOutcome(hash, view, newSize, |pool|, heap.mem);
      TransferRefused(hash, target.State(this), false, 0);
      ok := target.TransferFrom(this, false);
      if ok {
        Adopt(target);
      } else {
        Undo(target, old(view));
      }
    }

    /** src/gnu/hash.c check_tuning: ratios that have become unacceptable are replaced by the defaults. */
    method CheckTuning() returns (ok: bool)
      modifies `tuning
      ensures ok == Acceptable(old(tuning)) && tuning == if ok then old(tuning) else DEFAULT
      ensures Acceptable(tuning)
    {
      ok := Acceptable(tuning);
      if !ok {
        tuning := DEFAULT;
      }
    }

    /** src/gnu/hash.c hash_initialize: null when the ratios are unacceptable, the size is impossible, or memory is
        short; otherwise an empty table with room for `candidate` entries. */
    static method Initialize(candidate: nat, tuning: Tuning, hash: Hasher, eq: (int, int) -> bool, heap: Heap)
      returns (t: Table?)
      requires candidate <= Primes.SIZE_MAX && Lawful(hash, eq)
      modifies heap`mem
      ensures t != null ==> fresh(t) && fresh(t.bucket) && t.heap == heap && t.hash == hash && t.eq == eq
      ensures t != null ==> t.Valid() && t.items == {} && t.nEntries == 0
      ensures t != null ==> Acceptable(tuning) && t.tuning == tuning
      ensures t != null && !tuning.isNBuckets ==> HoldsCandidate(tuning, candidate, |t.view|)
      ensures t != null ==> SizeFor(candidate, tuning, |t.view|)
      ensures t != null ==> SizedFor(|t.view|, Amount(candidate, tuning), 1.0)
      ensures Later(old(heap.mem), heap.mem) && Refusals(old(heap.mem), heap.mem) <= 1
      ensures t == null <==>
        Refusals(old(heap.mem), heap.mem) == 1 || !Acceptable(tuning) || NoSize(candidate, tuning)
      ensures t == null && Acceptable(tuning) && Refusals(old(heap.mem), heap.mem) == 0 ==>
        NoRoom(Amount(candidate, tuning))
    {
      hide Refusals, Later, NoSize, SizeFor, HoldsCandidate;
      t := null;
      MallocRefusals(heap.mem);
      var granted := heap.Grant();
      if !granted || !Acceptable(tuning) {
        return;
      }
      var n := ComputeBucketSize(candidate, tuning);
      if n == 0 {
        return;
      }
      MallocRefusals(heap.mem);
      RefusalsAdd(old(heap.mem), heap.mem, Malloc(heap.mem).1);
      granted := heap.Grant();
      if granted {
        t := new Table(n, tuning, hash, eq, heap);
        EmptyIsSound(hash, eq, n);
      }
    }

    /** hash_rehash once the new size is known: calloc, then the transfer. */
    method Resize(newSize: nat) returns (ok: bool)
      requires Valid() && Sized(newSize)
      modifies `bucket, `view, `chain, `pool, `freeList, `nUsed, bucket, heap, heap.nodes
      ensures Valid() && All(view) == All(old(view))
      ensures old(heap.nodes) <= heap.nodes && (forall n :: n in heap.nodes ==> n in old(heap.nodes) || fresh(n))
      ensures bucket == old(bucket) || fresh(bucket)
      ensures |view| == if ok then newSize else |old(view)|
      ensures Later(old(heap.mem), heap.mem) && Refusals(old(heap.mem), heap.mem) == if ok then 0 else 1
      ensures Stock() == old(Stock())
    {
      assert newSize > 0;
      hide Valid, Chained, FreeListed, Counted, Sized, Sound, Contents, Stock, Later, Refusals, Grants;
      ValidParts();
      MallocRefusals(heap.mem);
      var granted := heap.Grant();
      if !granted {
        return false;
      }
      ghost var before := heap.mem;
      ok := Refill(newSize);
      RefusalsAdd(old(heap.mem), before, heap.mem);
      SizedAfter(newSize, |old(view)|, ok);
      ValidAgain(old(view));
    }

    lemma ValidParts()
      requires Valid()
      ensures Chained(-1) && FreeListed() && Counted() && Sized(|view|) && InRange(hash) && WellPlaced(hash, view)
      ensures nEntries == Used(view) + Over(view) && Sound(hash, eq, view) && items == Contents(view)
    {
    }

    static lemma SizedAfter(newSize: nat, oldSize: nat, ok: bool)
      requires Sized(newSize) && Sized(oldSize)
      ensures Sized(if ok then newSize else oldSize)
    {
    }

    /** A table that holds the entries of a valid one, in their places, is valid. */
    lemma ValidAgain(was: Buckets)
      requires Chained(-1) && FreeListed() && Counted() && Sized(|view|) && WellPlaced(hash, view)
      requires Sound(hash, eq, was) && items == Contents(was) && nEntries == Used(was) + Over(was)
      requires All(view) == All(was)
      ensures Valid()
    {
      CountsFollowContents(was, view);
    }

    /** src/gnu/hash.c hash_rehash. */
    method RehashTo(candidate: nat) returns (ok: bool)
      requires Valid() && candidate <= Primes.SIZE_MAX && Usable(candidate, tuning)
      modifies `bucket, `view, `chain, `pool, `freeList, `nUsed, bucket, heap, heap.nodes
      ensures Valid() && All(view) == All(old(view))
      ensures old(heap.nodes) <= heap.nodes && (forall n :: n in heap.nodes ==> n in old(heap.nodes) || fresh(n))
      ensures bucket == old(bucket) || fresh(bucket)
      ensures !ok ==> |view| == |old(view)| && nUsed == old(nUsed)
      ensures !ok ==> forall b :: 0 <= b < |view| ==> multiset(view[b]) == multiset(old(view)[b])
      ensures ok ==> SizeFor(candidate, tuning, |view|)
      ensures Later(old(heap.mem), heap.mem) && Refusals(old(heap.mem), heap.mem) <= 1
      ensures !ok <==> Refusals(old(heap.mem), heap.mem) == 1 || NoSize(candidate, tuning)
      ensures Stock() == old(Stock())
    {
      hide Refusals, NoSize, Later, SizeFor, HoldsCandidate;
      NoRequest(heap.mem);
      var newSize := ComputeBucketSize(candidate, tuning);
      ok := newSize != 0;
      if ok && newSize != bucket.Length {
        ok := Resize(newSize);
      }
      if !ok {
        SameBuckets(hash, view, old(view));
        SameCounts(view, old(view), |view|);
      }
    }

    /** The growth step of hash_insert_if_absent, with a second look at the load if the ratios had to be replaced. */
    method GrowIfFull() returns (ok: bool)
      requires Valid()
      modifies `tuning, `bucket, `view, `chain, `pool, `freeList, `nUsed, bucket, heap, heap.nodes
      ensures Valid()
      ensures old(heap.nodes) <= heap.nodes && (forall n :: n in heap.nodes ==> n in old(heap.nodes) || fresh(n))
      ensures bucket == old(bucket) || fresh(bucket)
      ensures tuning == RatiosAfter(MustGrow(old(tuning), old(nUsed), |old(view)|), old(tuning))
      ensures !Full(old(tuning), old(nUsed), |old(view)|) ==> ok && unchanged(`view, `pool, heap)
      ensures Full(old(tuning), old(nUsed), |old(view)|) && ok ==>
        SizeFor(GrowthCandidate(tuning, |old(view)|).Floor, tuning, |view|)
      ensures Later(old(heap.mem), heap.mem) && Refusals(old(heap.mem), heap.mem) <= 1
      ensures !ok <==>
        Refusals(old(heap.mem), heap.mem) == 1
        || (Full(old(tuning), old(nUsed), |old(view)|) && CannotGrow(tuning, |old(view)|))
      ensures Stock() == old(Stock())
    {
      hide Chained, FreeListed, Sound, Refusals, NoSize, Later, SizeFor;
      NoRequest(heap.mem);
      ok := true;
      if MustGrow(tuning, nUsed, bucket.Length) {
        var accepted := CheckTuning();
        if MustGrow(tuning, nUsed, bucket.Length) {
          var candidate := GrowthCandidate(tuning, bucket.Length);
          GrowthIsNonNegative(tuning, bucket.Length);
          if Primes.SIZE_MAX as real <= candidate {
            return false;
          }
          ok := RehashTo(candidate.Floor);
        }
      }
    }

    /** Puts an entry that matches none in the table into its bucket. */
    method AddUnmatched(e: int) returns (ok: bool)
      requires Valid() && e != NULL && IsMatch(eq, items, e, NULL)
      modifies `view, `chain, `pool, `freeList, `nUsed, `nEntries, `items, bucket, heap, heap.nodes
      ensures Valid() && |view| == |old(view)|
      ensures old(heap.nodes) <= heap.nodes && (forall n :: n in heap.nodes ==> n in old(heap.nodes) || fresh(n))
      ensures items == old(items) + (if ok then {e} else {}) && nEntries == old(nEntries) + if ok then 1 else 0
      ensures Later(old(heap.mem), heap.mem) && Refusals(old(heap.mem), heap.mem) == if ok then 0 else 1
      ensures heap.mem == if old(view)[hash(e, |old(view)|)] != [] && old(pool) == [] then Malloc(old(heap.mem)).1
        else old(heap.mem)
      ensures Stock() == old(Stock())
    {
      hide Chained, FreeListed, Contents, Later, Refusals, Grants, Sized, Sound, Deposit, IsMatch;
      NoRequest(heap.mem);
      MallocRefusals(heap.mem);
      ValidParts();
      DepositIsSound(hash, eq, view, e);
      DepositCounts(view, hash(e, |view|), e);
      ok := AddEntry(e);
      if ok {
        nEntries, items := nEntries + 1, items + {e};
      }
    }

    /** The second search of hash_insert_if_absent, after a growth: its abort is unreachable. */
    method ConfirmAbsent(e: int) returns (d: int)
      requires Valid() && IsMatch(eq, items, e, NULL)
      ensures d == NULL
    {
      SearchIsMatch(hash, eq, view, e);
      var k, inHead, prev;
      ghost var at;
      d, k, inHead, at, prev := FindEntry(e);
    }

    /** src/gnu/hash.c hash_insert_if_absent: 1 when e was added, 0 when the returned entry was there already, and
        -1 when memory was short. */
    method InsertIfAbsent(e: int) returns (code: int, matched: int)
      requires Valid() && e != NULL
      modifies `tuning, `bucket, `view, `chain, `pool, `freeList, `nUsed, `nEntries, `items, bucket, heap, heap.nodes
      ensures Valid() && (code == 1 || code == 0 || code == -1)
      ensures old(heap.nodes) <= heap.nodes && (forall n :: n in heap.nodes ==> n in old(heap.nodes) || fresh(n))
      ensures bucket == old(bucket) || fresh(bucket)
      ensures IsMatch(eq, old(items), e, if code == 0 then matched else NULL) && (code == 0 ==> matched != NULL)
      ensures items == old(items) + (if code == 1 then {e} else {})
      ensures tuning == RatiosAfter(code != 0 && MustGrow(old(tuning), old(nUsed), |old(view)|), old(tuning))
      ensures nEntries == old(nEntries) + if code == 1 then 1 else 0
      ensures !Full(old(tuning), old(nUsed), |old(view)|) || code == 0 ==> |view| == |old(view)|
      ensures Full(old(tuning), old(nUsed), |old(view)|) && code == 1 ==>
        SizeFor(GrowthCandidate(tuning, |old(view)|).Floor, tuning, |view|)
      ensures InsertionSize(old(tuning), old(nUsed), |old(view)|, |view|, code)
      ensures Later(old(heap.mem), heap.mem) && Refusals(old(heap.mem), heap.mem) <= 1
      ensures code == -1 <==>
        Refusals(old(heap.mem), heap.mem) == 1
        || (code != 0 && Full(old(tuning), old(nUsed), |old(view)|) && CannotGrow(tuning, |old(view)|))
      ensures code == -1 && Refusals(old(heap.mem), heap.mem) == 0 ==>
        InsertionIsHopeless(old(tuning), old(nUsed), |old(view)|)
      ensures !Full(old(tuning), old(nUsed), |old(view)|) ==>
        var needed := code != 0 && old(view)[hash(e, |old(view)|)] != [] && old(pool) == [];
        heap.mem == if needed then Malloc(old(heap.mem)).1 else old(heap.mem)
      ensures Stock() == old(Stock())
    {
      hide Valid, Stock, Refusals, Later, CannotGrow, SizeFor, MustGrow, InsertionSize, InsertionIsHopeless;
      NoRequest(heap.mem);
      var d, k, inHead, at, prev := FindEntry(e);
      assert IsMatch(eq, items, e, d) by {
        FoundIsMatch(e);
      }
      SizeIsSized();
      if d != NULL {
        InsertionSizeHolds(tuning, nUsed, |view|, |view|, 0);
        return 0, d;
      }
      matched := NULL;
      var grown := GrowIfFull();
      if !grown {
        InsertionSizeHolds(old(tuning), old(nUsed), |old(view)|, |view|, -1);
        if Refusals(old(heap.mem), heap.mem) == 0 {
          Hopeless(old(tuning), old(nUsed), |old(view)|);
        }
        return -1, matched;
      }
      d := ConfirmAbsent(e);
      ghost var mem := heap.mem;
      var added := AddUnmatched(e);
      RefusalsAdd(old(heap.mem), mem, heap.mem);
      code := if added then 1 else -1;
      InsertionSizeHolds(old(tuning), old(nUsed), |old(view)|, |view|, code);
    }

    lemma SizeIsSized()
      requires Valid()
      ensures Sized(|view|) && |view| == bucket.Length
    {
    }

    /** Gives the recycled nodes back to malloc. */
    method DropFreeList()
      requires Valid()
      modifies `pool, `freeList, heap`freed
      ensures Valid() && freeList == null && pool == [] && Stock() == old(Stock())
    {
      hide Chained, Sound, Contents;
      while freeList != null
        invariant Valid() && Stock() == old(Stock())
        decreases |pool|
      {
        freeList, pool := freeList.next, pool[1..];
        heap.Free();
      }
    }

    /** The shrinking step of hash_delete; when it fails, the recycled nodes are given back to malloc. */
    method ShrinkIfSparse()
      requires Valid()
      modifies `tuning, `bucket, `view, `chain, `pool, `freeList, `nUsed, bucket, heap, heap.nodes
      ensures Valid()
      ensures old(heap.nodes) <= heap.nodes && (forall n :: n in heap.nodes ==> n in old(heap.nodes) || fresh(n))
      ensures bucket == old(bucket) || fresh(bucket)
      ensures tuning == RatiosAfter(MustShrink(old(tuning), old(nUsed), |old(view)|), old(tuning))
      ensures Later(old(heap.mem), heap.mem)
      ensures Shrank(old(tuning), old(nUsed), |old(view)|, |view|, Refusals(old(heap.mem), heap.mem))
      ensures !Sparse(old(tuning), old(nUsed), |old(view)|) ==> unchanged(`view, `pool, heap)
      ensures Sparse(old(tuning), old(nUsed), |old(view)|) ==>
        var candidate := ShrinkCandidate(tuning, |old(view)|).Floor;
        Refusals(old(heap.mem), heap.mem) > 0 || NoSize(candidate, tuning) ==> pool == []
      ensures Stock() == old(Stock())
    {
      hide Chained, FreeListed, Sound, SizeFor, Refusals, NoSize, Later;
      NoRequest(heap.mem);
      if MustShrink(tuning, nUsed, bucket.Length) {
        var accepted := CheckTuning();
        if MustShrink(tuning, nUsed, bucket.Length) {
          ShrinkIsInRange(tuning, bucket.Length);
          var ok := RehashTo(ShrinkCandidate(tuning, bucket.Length).Floor);
          if !ok {
            DropFreeList();
          }
        }
      }
    }

    /** src/gnu/hash.c hash_delete: the removed entry, or NULL when none matched. A bucket that becomes empty may let
        the table shrink; otherwise the overflow nodes and the recycled ones are together as many as before. */
    method Delete(e: int) returns (d: int)
      requires Valid()
      modifies `tuning, `bucket, `view, `chain, `pool, `freeList, `nUsed, `nEntries, `items, bucket, heap, heap.nodes
      ensures Valid() && IsMatch(eq, old(items), e, d)
      ensures old(heap.nodes) <= heap.nodes && (forall n :: n in heap.nodes ==> n in old(heap.nodes) || fresh(n))
      ensures bucket == old(bucket) || fresh(bucket)
      ensures items == if d == NULL then old(items) else old(items) - {d}
      ensures nEntries == old(nEntries) - (if d == NULL then 0 else 1) && (d == NULL ==> unchanged(this))
      ensures Later(old(heap.mem), heap.mem)
      ensures var emptied := d != NULL && Lone(old(view), e);
        if emptied then
          && tuning == RatiosAfter(MustShrink(old(tuning), old(nUsed) - 1, |old(view)|), old(tuning))
          && Shrank(old(tuning), old(nUsed) - 1, |old(view)|, |view|, Refusals(old(heap.mem), heap.mem))
        else tuning == old(tuning) && |view| == |old(view)| && heap.mem == old(heap.mem)
      ensures DeletionSize(old(tuning), old(nUsed) - 1, |old(view)|, |view|, d != NULL && Lone(old(view), e),
        Refusals(old(heap.mem), heap.mem))
      ensures !(d != NULL && Lone(old(view), e) && Sparse(old(tuning), old(nUsed) - 1, |old(view)|)) ==>
        Over(view) + |pool| == Over(old(view)) + |old(pool)|
      ensures Stock() == old(Stock())
    {
      hide Chained, FreeListed, Sound, Refusals, Later, Shrank, Sparse, MustShrink, Checked;
      hide DeletionSize;
      NoRequest(heap.mem);
      SizeIsSized();
      SearchIsMatch(hash, eq, view, e);
      var k, inHead, prev;
      ghost var at;
      d, k, inHead, at, prev := FindEntry(e);
      if d != NULL {
        var emptied := RemoveMatched(k, inHead, at, prev);
        if emptied {
          ShrinkIfSparse();
        }
      }
      DeletionSizeHolds(old(tuning), old(nUsed) - 1, |old(view)|, |view|, d != NULL && Lone(old(view), e),
        Refusals(old(heap.mem), heap.mem));
    }

    /** The bucket that e hashes to holds one entry. */
    ghost predicate Lone(view: Buckets, e: int) {
      var k := hash(e, |view|);
      k < |view| && |view[k]| == 1
    }

    /** Takes a found entry out of the table and out of the counters. */
    method RemoveCounted(k: nat, inHead: bool, ghost at: nat, prev: Node?) returns (emptied: bool)
      requires Chained(-1) && FreeListed() && Counted() && nEntries == Used(view) + Over(view)
      requires k < |view| && at < |view[k]| && Found(view[k][at], k, at, prev) && inHead == (at == 0)
      modifies `view, `chain, `pool, `freeList, `nUsed, `nEntries, bucket, heap.nodes
      ensures Chained(-1) && FreeListed() && Counted() && nEntries == Used(view) + Over(view)
      ensures view == old(view)[k := RemoveAt(old(view)[k], at)] && emptied == (view[k] == [])
      ensures nEntries == old(nEntries) - 1 && nUsed == old(nUsed) - (if emptied then 1 else 0)
      ensures Over(view) + |pool| == Over(old(view)) + |old(pool)|
    {
      hide FreeListed, Overflow;
      ghost var b := RemoveAt(view[k], at);
      UpdateCounts(view, k, b, |view|);
      RemoveEntry(k, inHead, at, prev);
      nEntries := nEntries - 1;
      emptied := bucket[k].data == NULL;
      if emptied {
        nUsed := nUsed - 1;
      }
    }

    /** Takes a found entry out of the table, and so out of the set it stands for. */
    method RemoveMatched(k: nat, inHead: bool, ghost at: nat, prev: Node?) returns (emptied: bool)
      requires Valid() && k < |view| && at < |view[k]|
      requires Found(view[k][at], k, at, prev) && inHead == (at == 0)
      modifies `view, `chain, `pool, `freeList, `nUsed, `nEntries, `items, bucket, heap.nodes
      ensures Valid() && items == old(items) - {old(view)[k][at]} && nEntries == old(nEntries) - 1
      ensures |view| == |old(view)| && emptied == (|old(view)[k]| == 1)
      ensures nUsed == old(nUsed) - (if emptied then 1 else 0)
      ensures Over(view) + |pool| == Over(old(view)) + |old(pool)|
    {
      hide Chained, FreeListed, Sound;
      RemoveIsSound(hash, eq, view, k, at);
      items := items - {view[k][at]};
      emptied := RemoveCounted(k, inHead, at, prev);
    }

    /** Recycles the overflow of bucket i; the link in its head is left dangling. */
    method RecycleChain(i: nat)
      requires Chained(-1) && FreeListed() && i < |view| && view[i] != []
      modifies `view, `chain, `pool, `freeList, heap.nodes
      ensures Chained(i) && FreeListed() && |view| == |old(view)| && view == old(view)[i := [old(view)[i][0]]]
      ensures |pool| == |old(pool)| + |old(view)[i]| - 1
    {
      var cursor := bucket[i].next;
      while cursor != null
        invariant Chained(i) && FreeListed() && cursor == First(chain[i]) && |view| == |old(view)|
        invariant view[i] != [] && view[i][0] == old(view)[i][0] && view == old(view)[i := view[i]]
        invariant |pool| + |view[i]| == |old(pool)| + |old(view)[i]|
        decreases |view[i]|
      {
        cursor := RecycleFirst(i, cursor);
      }
      assert view[i] == [view[i][0]];
    }

    /** Recycles the first overflow node of bucket i. */
    method RecycleFirst(i: nat, cursor: Node) returns (next: Node?)
      requires Chained(i) && FreeListed() && i < |view| && |view[i]| > 1 && cursor == chain[i][0]
      modifies `view, `chain, `pool, `freeList, cursor
      ensures Chained(i) && FreeListed() && next == First(chain[i])
      ensures view == old(view)[i := [old(view)[i][0]] + old(view)[i][2..]] && |pool| == |old(pool)| + 1
    {
      next := cursor.next;
      Unchain(i);
      FreeEntry(cursor);
    }

    /** Empties bucket i. */
    method ClearBucket(i: nat)
      requires Chained(-1) && FreeListed() && i < |view|
      modifies `view, `chain, `pool, `freeList, bucket, heap.nodes
      ensures Chained(-1) && FreeListed() && view == old(view)[i := []]
      ensures |pool| == |old(pool)| + OverIn(old(view)[i])
    {
      if bucket[i].data != NULL {
        RecycleChain(i);
        bucket[i] := Head(NULL, null);
        view := view[i := []];
      }
    }

    /** src/gnu/hash.c hash_clear: every overflow node goes to the free list. */
    method Clear()
      requires Valid()
      modifies `view, `chain, `pool, `freeList, `nUsed, `nEntries, `items, bucket, heap.nodes
      ensures Valid() && items == {} && |view| == |old(view)| && nUsed == 0 && nEntries == 0
      ensures |pool| == |old(pool)| + Over(old(view)) && Stock() == old(Stock())
    {
      hide Chained, FreeListed;
      var i := 0;
      while i < bucket.Length
        invariant Chained(-1) && FreeListed() && bucket.Length == |view| == |old(view)| && EmptyTo(view, i)
        invariant Over(view) + |pool| == Over(old(view)) + |old(pool)|
      {
        UpdateCounts(view, i, [], |view|);
        ClearBucket(i);
        i := i + 1;
      }
      nUsed, nEntries, items := 0, 0, {};
      EmptyIsSound(hash, eq, |view|);
      assert view == EmptyTable(|view|);
    }

    /** The overflow nodes of bucket b, counted by walking its chain. */
    method ChainLength(b: nat) returns (n: nat)
      requires Chained(-1) && b < |view|
      ensures n == |chain[b]|
    {
      n := 0;
      var cursor := bucket[b].next;
      while cursor != null
        invariant n <= |chain[b]| && cursor == if n < |chain[b]| then chain[b][n] else null
        decreases |chain[b]| - n
      {
        cursor, n := cursor.next, n + 1;
      }
    }

    /** src/gnu/hash.c hash_table_ok: recounts both statistics. */
    method TableOk() returns (ok: bool)
      requires Chained(-1)
      ensures ok == (nUsed == Used(view) && nEntries == |All(view)|)
    {
      var used, entries, b := 0, 0, 0;
      while b < bucket.Length
        invariant b <= bucket.Length && used == UsedTo(view, b) && entries == UsedTo(view, b) + OverTo(view, b)
      {
        if bucket[b].data != NULL {
          var overflow := ChainLength(b);
          used, entries := used + 1, entries + 1 + overflow;
        }
        b := b + 1;
      }
      EntriesAreCounted(view, |view|);
      ok := used == nUsed && entries == nEntries;
    }
  }
}
