/** The block exchange of src/gnu/getopt.c: two adjacent stretches of an array change places, in place. */
module Exchange {

  /** s with the stretches [b, m) and [m, t) exchanged. */
  function Exchanged<T>(s: seq<T>, b: nat, m: nat, t: nat): (r: seq<T>)
    requires b <= m <= t <= |s|
    ensures |r| == |s|
  {
    s[..b] + s[m..t] + s[b..m] + s[t..]
  }

  /** s with the equally long stretches at i and j swapped. */
  function Swapped<T>(s: seq<T>, i: nat, j: nat, len: nat): (r: seq<T>)
    requires i + len <= j && j + len <= |s|
    ensures |r| == |s|
  {
    s[..i] + s[j..j + len] + s[i + len..j] + s[i..i + len] + s[j + len..]
  }

  lemma FiveSlices<T>(s: seq<T>, a: nat, b: nat, c: nat, d: nat)
    requires a <= b <= c <= d <= |s|
    ensures s == s[..a] + s[a..b] + s[b..c] + s[c..d] + s[d..]
  {
    assert s[..b] == s[..a] + s[a..b];
    assert s[..c] == s[..b] + s[b..c];
    assert s[..d] == s[..c] + s[c..d];
    assert s == s[..d] + s[d..];
  }

  /** Swapping, element by element. */
  lemma SwappedPointwise<T>(s: seq<T>, r: seq<T>, i: nat, j: nat, len: nat)
    requires i + len <= j && j + len <= |s| == |r|
    requires forall x :: i <= x < i + len ==> r[x] == s[x + (j - i)]
    requires forall x :: j <= x < j + len ==> r[x] == s[x - (j - i)]
    requires forall x :: 0 <= x < |s| && !(i <= x < i + len) && !(j <= x < j + len) ==> r[x] == s[x]
    ensures r == Swapped(s, i, j, len)
  {
    assert r[..i] == s[..i];
    assert r[i..i + len] == s[j..j + len];
    assert r[i + len..j] == s[i + len..j];
    assert r[j..j + len] == s[i..i + len];
    assert r[j + len..] == s[j + len..];
    FiveSlices(r, i, i + len, j, j + len);
  }

  /** The inner loops of exchange. */
  method SwapBlocks<T>(a: array<T>, i: nat, j: nat, len: nat)
    requires i + len <= j && j + len <= a.Length
    modifies a
    ensures a[..] == Swapped(old(a[..]), i, j, len)
  {
    hide Swapped;
    for k := 0 to len
      invariant forall x :: i <= x < i + k ==> a[x] == old(a[x + (j - i)])
      invariant forall x :: j <= x < j + k ==> a[x] == old(a[x - (j - i)])
      invariant forall x :: 0 <= x < a.Length && !(i <= x < i + k) && !(j <= x < j + k) ==> a[x] == old(a[x])
    {
      a[i + k], a[j + k] := a[j + k], a[i + k];
    }
    SwappedPointwise(old(a[..]), a[..], i, j, len);
  }

  /** An exchange, said of the parts. */
  lemma ExchangedParts<T>(a: seq<T>, b: seq<T>, c: seq<T>, d: seq<T>)
    ensures Exchanged(a + b + c + d, |a|, |a| + |b|, |a| + |b| + |c|) == a + c + b + d
  {
    var s := a + b + c + d;
    assert s[..|a|] == a;
    assert s[|a|..|a| + |b|] == b;
    assert s[|a| + |b|..|a| + |b| + |c|] == c;
    assert s[|a| + |b| + |c|..] == d;
  }

  lemma Reassociate<T>(a: seq<T>, b: seq<T>, c: seq<T>)
    ensures a + (b + c) == a + b + c
  {
  }

  lemma JoinSlices<T>(s: seq<T>, i: nat, j: nat, k: nat)
    requires i <= j <= k <= |s|
    ensures s[i..k] == s[i..j] + s[j..k]
  {
  }

  /** Swapping the short bottom stretch with the end of the top one leaves the rest of the exchange to do. */
  lemma BottomIsShort<T>(s: seq<T>, b: nat, m: nat, t: nat)
    requires b <= m <= t <= |s| && m - b <= t - m
    ensures Exchanged(Swapped(s, b, t - (m - b), m - b), b, m, t - (m - b)) == Exchanged(s, b, m, t)
  {
    var n := t - (m - b);
    var low, bottom, middle, end, high := s[..b], s[b..m], s[m..n], s[n..t], s[t..];
    var s' := Swapped(s, b, n, m - b);
    assert s' == low + end + middle + bottom + high;
    assert Exchanged(s, b, m, t) == low + (middle + end) + bottom + high by {
      JoinSlices(s, m, n, t);
    }
    hide Exchanged, Swapped;
    Reassociate(low + end + middle, bottom, high);
    ExchangedParts(low, end, middle, bottom + high);
    Reassociate(low, middle, end);
    Reassociate(low + middle + end, bottom, high);
  }

  lemma TopParts<T>(s: seq<T>, b: nat, m: nat, t: nat)
    requires b <= m <= t <= |s| && t - m <= m - b
    ensures var n := b + (t - m);
      && Swapped(s, b, m, t - m) == s[..b] + s[m..t] + s[n..m] + s[b..n] + s[t..]
      && Exchanged(s, b, m, t) == s[..b] + s[m..t] + (s[b..n] + s[n..m]) + s[t..]
  {
    JoinSlices(s, b, b + (t - m), m);
  }

  /** Swapping the short top stretch with the start of the bottom one leaves the rest of the exchange to do. */
  lemma TopIsShort<T>(s: seq<T>, b: nat, m: nat, t: nat)
    requires b <= m <= t <= |s| && t - m <= m - b
    ensures Exchanged(Swapped(s, b, m, t - m), b + (t - m), m, t) == Exchanged(s, b, m, t)
  {
    hide Exchanged, Swapped;
    var n := b + (t - m);
    var low, start, middle, top, high := s[..b], s[b..n], s[n..m], s[m..t], s[t..];
    TopParts(s, b, m, t);
    ExchangedParts(low + top, middle, start, high);
    Reassociate(low + top, start, middle);
  }

  lemma NothingToExchange<T>(s: seq<T>, b: nat, m: nat, t: nat)
    requires b <= m <= t <= |s| && (b == m || m == t)
    ensures Exchanged(s, b, m, t) == s
  {
  }

  /** src/gnu/getopt.c exchange, for any bottom <= middle <= top. */
  method ExchangeBlocks<T>(a: array<T>, b: nat, m: nat, t: nat)
    requires b <= m <= t <= a.Length
    modifies a
    ensures a[..] == Exchanged(old(a[..]), b, m, t)
  {
    hide Exchanged, Swapped;
    var bottom, middle, top := b, m, t;
    while top > middle && middle > bottom
      invariant 0 <= bottom <= middle <= top <= a.Length
      invariant Exchanged(a[..], bottom, middle, top) == Exchanged(old(a[..]), b, m, t)
      decreases top - bottom
    {
      if top - middle > middle - bottom {
        var len := middle - bottom;
        BottomIsShort(a[..], bottom, middle, top);
        SwapBlocks(a, bottom, top - len, len);
        top := top - len;
      } else {
        var len := top - middle;
        TopIsShort(a[..], bottom, middle, top);
        SwapBlocks(a, bottom, middle, len);
        bottom := bottom + len;
      }
    }
    NothingToExchange(a[..], bottom, middle, top);
  }
}
