/**
 * The indexed minimum heap of per-peer sequence numbers (binheap.c).
 *
 * Three arrays of the same length, one slot per peer index:
 *   hx  heap position -> peer,
 *   ix  peer -> heap position, or PEERIDX_INVALID when the peer is absent,
 *   vs  peer -> sequence number,
 * and n, the number of peers in the heap (positions 0 .. n-1 of hx).
 *
 * seq_lt / seq_le are modelled as < / <= on naturals.
 *
 * Heap order is stated on the sequence of keys by position (Keys): the
 * value-level lemmas below say what each step of the C code does to it.
 */
module BinHeap {

  /** The parent of heap position c (c > 0): c is its first or its second
      child. */
  function Parent(c: nat): (p: nat)
    requires c > 0
    ensures c == 2 * p + 1 || c == 2 * p + 2
  {
    (c - 1) / 2
  }

  /** Heap order on keys by position: no key is below its parent's. */
  ghost predicate Heap(K: seq<nat>)
  {
    forall c {:trigger K[Parent(c)]} :: 0 < c < |K| ==> K[Parent(c)] <= K[c]
  }

  /** Heap order, except possibly between position m and its children. */
  ghost predicate HeapBelow(K: seq<nat>, m: nat)
  {
    forall c {:trigger K[Parent(c)]} :: 0 < c < |K| && Parent(c) != m ==> K[Parent(c)] <= K[c]
  }

  /** Heap order, except possibly between position m and its parent. */
  ghost predicate HeapAbove(K: seq<nat>, m: nat)
  {
    forall c {:trigger K[Parent(c)]} :: 0 < c < |K| && c != m ==> K[Parent(c)] <= K[c]
  }

  /** The children of position m are not below m's parent. */
  ghost predicate Bridged(K: seq<nat>, m: nat)
  {
    0 < m < |K| ==> forall c :: 0 < c < |K| && Parent(c) == m ==> K[Parent(m)] <= K[c]
  }

  /** K with positions j and k exchanged. */
  function Swapped(K: seq<nat>, j: nat, k: nat): (L: seq<nat>)
    requires j < |K| && k < |K|
    ensures |L| == |K| && L[j] == K[k] && L[k] == K[j]
    ensures forall c :: 0 <= c < |K| && c != j && c != k ==> L[c] == K[c]
    ensures multiset(L) == multiset(K)
  {
    K[j := K[k]][k := K[j]]
  }

  /** The minimum of a heap is at its root. */
  lemma RootIsMinimal(K: seq<nat>)
    requires Heap(K)
    ensures forall c :: 0 <= c < |K| ==> K[0] <= K[c]
  {
    forall c | 0 <= c < |K| ensures K[0] <= K[c] {
      AncestorBelow(K, c);
    }
  }

  lemma {:induction false} AncestorBelow(K: seq<nat>, c: nat)
    requires Heap(K) && c < |K|
    ensures K[0] <= K[c]
    decreases c
  {
    if c > 0 {
      AncestorBelow(K, Parent(c));
    }
  }

  /** One swap of heapify: the smaller child k of j is below j, so the two
      change places, and the disorder moves down to k. */
  lemma SwapDown(K: seq<nat>, j: nat, k: nat)
    requires (k == 2 * j + 1 || k == 2 * j + 2) && k < |K|
    requires K[k] < K[j] && K[k] <= K[2 * j + 1] && (2 * j + 2 < |K| ==> K[k] <= K[2 * j + 2])
    requires HeapBelow(K, j) && Bridged(K, j)
    ensures HeapBelow(Swapped(K, j, k), k) && Bridged(Swapped(K, j, k), k)
  {
    var L := Swapped(K, j, k);
    forall c | 0 < c < |L| && Parent(c) != k ensures L[Parent(c)] <= L[c] {
      if c == k {
      } else if Parent(c) == j {
        assert L[c] == K[c];
      } else if c == j {
        assert L[c] == K[k] && L[Parent(c)] == K[Parent(j)];
      } else {
        assert L[c] == K[c] && L[Parent(c)] == K[Parent(c)];
      }
    }
    assert HeapBelow(L, k);
    forall c | 0 < c < |L| && Parent(c) == k ensures L[j] <= L[c] {
      assert L[c] == K[c];
    }
  }

  /** Heapify going on down without a swap: j is not above its smaller
      child k, so only the order below k may still be broken. */
  lemma PassDown(K: seq<nat>, j: nat, k: nat)
    requires (k == 2 * j + 1 || k == 2 * j + 2) && k < |K|
    requires K[j] <= K[k] && K[k] <= K[2 * j + 1] && (2 * j + 2 < |K| ==> K[k] <= K[2 * j + 2])
    requires HeapBelow(K, j) && Bridged(K, j)
    ensures HeapBelow(K, k) && Bridged(K, k)
  {
  }

  /** One step of insert's loop: the parent of the hole at i moves down
      into it, and the hole moves up to the parent. */
  lemma RiseUp(K: seq<nat>, i: nat)
    requires 0 < i < |K| && K[i] < K[Parent(i)]
    requires HeapAbove(K, i) && Bridged(K, i)
    ensures HeapAbove(Swapped(K, Parent(i), i), Parent(i))
    ensures Bridged(Swapped(K, Parent(i), i), Parent(i))
  {
    var up := Parent(i);
    var L := Swapped(K, up, i);
    forall c | 0 < c < |L| && c != up ensures L[Parent(c)] <= L[c] {
      if c == i {
      } else if Parent(c) == up {
      } else if Parent(c) == i {
      } else {
        assert L[c] == K[c];
      }
    }
  }

  /** Insert's loop stops at the root, or where the parent is not above the
      new key: the heap is then in order. */
  lemma RiseStop(K: seq<nat>, i: nat)
    requires i < |K| && HeapAbove(K, i)
    requires i == 0 || K[Parent(i)] <= K[i]
    ensures Heap(K)
  {
  }

  /** Heapify stops when j has no child: the heap is then in order. */
  lemma DownStop(K: seq<nat>, j: nat)
    requires HeapBelow(K, j) && |K| <= 2 * j + 1
    ensures Heap(K)
  {
    assert forall c :: 0 < c < |K| ==> Parent(c) != j;
  }

  /** Insert appends a key at the end: only the edge into it may be out of
      order. */
  lemma Appended(K: seq<nat>, x: nat)
    requires Heap(K)
    ensures HeapAbove(K + [x], |K|) && Bridged(K + [x], |K|)
  {
    var L := K + [x];
    forall c | 0 < c < |L| && c != |K| ensures L[Parent(c)] <= L[c] {
      assert L[c] == K[c] && L[Parent(c)] == K[Parent(c)];
    }
  }

  /** insert's append stated on the peers h by position: adding peer p,
      which h does not hold, with number x adds p and appends x to the
      keys, which leaves the order broken above the new position only. */
  lemma Grown(h: seq<nat>, v: seq<nat>, p: nat, x: nat)
    requires p < |v| && forall c :: 0 <= c < |h| ==> h[c] != p
    ensures multiset(h + [p]) == multiset(h) + multiset{p}
    ensures Heap(KeysOf(h, v)) ==>
      HeapAbove(KeysOf(h + [p], v[p := x]), |h|) && Bridged(KeysOf(h + [p], v[p := x]), |h|)
  {
    var K := KeysOf(h, v);
    assert KeysOf(h + [p], v[p := x]) == K + [x];
    if Heap(K) {
      Appended(K, x);
    }
  }

  /** update_seq raises the key at i: only the order below i may break. */
  lemma Raised(K: seq<nat>, i: nat, x: nat)
    requires Heap(K) && i < |K| && K[i] <= x
    ensures HeapBelow(K[i := x], i) && Bridged(K[i := x], i)
  {
  }

  /** delete moves the last key into the freed position i: below i the
      order may break when the key is larger than the one it replaces, and
      above i when it is smaller than i's parent. */
  lemma Refilled(K: seq<nat>, i: nat)
    requires Heap(K) && i < |K| - 1
    ensures Displaced(K[..|K| - 1][i := K[|K| - 1]], i)
  {
    var L := K[..|K| - 1][i := K[|K| - 1]];
    forall c | 0 < c < |L| && c != i && Parent(c) != i ensures L[Parent(c)] <= L[c] {
      assert L[c] == K[c] && L[Parent(c)] == K[Parent(c)];
    }
    if i > 0 {
      forall c | 0 < c < |L| && Parent(c) == i ensures K[Parent(i)] <= L[c] {
        assert L[c] == K[c];
        assert K[Parent(i)] <= K[i];
      }
    }
  }

  /** Where delete leaves the key moved into position i: either it is
      below its new parent and only the order above i is broken, or it is
      not and only the order below i may be. */
  ghost predicate Displaced(L: seq<nat>, i: nat)
    requires i < |L|
  {
    if i > 0 && L[i] < L[Parent(i)] then HeapAbove(L, i) && Bridged(L, i)
    else HeapBelow(L, i) && Bridged(L, i)
  }

  /** Keys by position of peers h, numbers v (a peer without a number,
      which a valid heap does not hold, counts as 0). */
  function KeysOf(h: seq<nat>, v: seq<nat>): (K: seq<nat>)
    ensures |K| == |h| && forall c :: 0 <= c < |h| && h[c] < |v| ==> K[c] == v[h[c]]
  {
    seq(|h|, c requires 0 <= c < |h| => if h[c] < |v| then v[h[c]] else 0)
  }

  /** Exchanging two peers exchanges their keys. */
  lemma SwappedKeys(h: seq<nat>, v: seq<nat>, j: nat, k: nat)
    requires j < |h| && k < |h|
    ensures KeysOf(Swapped(h, j, k), v) == Swapped(KeysOf(h, v), j, k)
  {
  }

  /** Moving the last peer x of a + [x] into position i of a drops the
      peer that was there, and only that one. */
  lemma RefillCount(a: seq<nat>, x: nat, i: nat)
    requires i < |a| && x != a[i]
    requires forall c :: 0 <= c < |a| && c != i ==> a[c] != a[i]
    ensures multiset(a[i := x]) == multiset(a + [x]) - multiset{a[i]}
    ensures a[i] !in multiset(a[i := x])
  {
    var s := a[i := x];
    forall c | 0 <= c < |s| ensures s[c] != a[i] {
    }
  }

  /** delete's move stated on the peers h by position: moving the last
      peer into position i drops the peer that was there, and only that
      one, and leaves the keys displaced at i only. */
  lemma Removed(h: seq<nat>, v: seq<nat>, i: nat)
    requires i < |h| - 1
    requires forall c :: 0 <= c < |h| && c != i ==> h[c] != h[i]
    ensures multiset(h[..|h| - 1][i := h[|h| - 1]]) == multiset(h) - multiset{h[i]}
    ensures h[i] !in multiset(h[..|h| - 1][i := h[|h| - 1]])
    ensures Heap(KeysOf(h, v)) ==> Displaced(KeysOf(h[..|h| - 1][i := h[|h| - 1]], v), i)
  {
    RemovedCount(h, i);
    RemovedKeys(h, v, i);
  }

  /** The peers left by delete's move: all but the deleted one. */
  lemma RemovedCount(h: seq<nat>, i: nat)
    requires i < |h| - 1
    requires forall c :: 0 <= c < |h| && c != i ==> h[c] != h[i]
    ensures multiset(h[..|h| - 1][i := h[|h| - 1]]) == multiset(h) - multiset{h[i]}
    ensures h[i] !in multiset(h[..|h| - 1][i := h[|h| - 1]])
  {
    var a, x := h[..|h| - 1], h[|h| - 1];
    assert h == a + [x];
    RefillCount(a, x, i);
  }

  /** The keys left by delete's move: disordered at the hole only. */
  lemma RemovedKeys(h: seq<nat>, v: seq<nat>, i: nat)
    requires i < |h| - 1
    ensures Heap(KeysOf(h, v)) ==> Displaced(KeysOf(h[..|h| - 1][i := h[|h| - 1]], v), i)
  {
    if Heap(KeysOf(h, v)) {
      var K := KeysOf(h, v);
      Refilled(K, i);
      assert KeysOf(h[..|h| - 1][i := h[|h| - 1]], v) == K[..|K| - 1][i := K[|K| - 1]];
    }
  }

  /** The keys left by delete's move, named by the sequence of peers it
      leaves: disordered at the hole only, when the heap was in order. */
  lemma VacatedKeys(h: seq<nat>, g: seq<nat>, v: seq<nat>, i: nat)
    requires i < |h| - 1 && g == h[..|h| - 1][i := h[|h| - 1]]
    ensures Heap(KeysOf(h, v)) ==> Displaced(KeysOf(g, v), i)
  {
    RemovedKeys(h, v, i);
  }

  /** Dropping the last peer drops its key and leaves the others. */
  lemma DroppedLast(a: seq<nat>, x: nat, v: seq<nat>)
    ensures KeysOf(a, v) == KeysOf(a + [x], v)[..|a|]
    ensures multiset(a + [x]) == multiset(a) + multiset{x}
  {
  }

  /** A prefix of a heap is a heap. */
  lemma HeapPrefix(K: seq<nat>, m: nat)
    requires Heap(K) && m <= |K|
    ensures Heap(K[..m])
  {
    forall c | 0 < c < m ensures K[..m][Parent(c)] <= K[..m][c] {
      assert K[..m][c] == K[c] && K[..m][Parent(c)] == K[Parent(c)];
    }
  }

  class MinSeqHeap {
    /** Number of peers in the heap. */
    var n: nat
    /** Heap position -> peer. */
    const hx: array<nat>
    /** Peer -> heap position (the `i` field of minseqheap_idx_t). */
    const ix: array<nat>
    /** Peer -> sequence number. */
    const vs: array<nat>
    /** PEERIDX_INVALID: not a peer index and not a heap position. */
    const invalid: nat

    /** The back index: positions 0 .. n-1 hold peers, each peer in the heap
        knows its position, and every other peer is marked invalid. */
    ghost predicate Valid()
      reads this, hx, ix
    {
      && hx.Length == ix.Length == vs.Length
      && hx != ix && hx != vs && ix != vs
      && n <= hx.Length <= invalid
      && (forall j :: 0 <= j < n ==> hx[j] < ix.Length && ix[hx[j]] == j)
      && (forall p :: 0 <= p < ix.Length ==> ix[p] == invalid || (ix[p] < n && hx[ix[p]] == p))
    }

    /** The sequence numbers of the peers in the heap, by position. */
    ghost function Keys(): (K: seq<nat>)
      requires n <= hx.Length
      reads this, hx, vs
      ensures |K| == n && forall c :: 0 <= c < n && hx[c] < vs.Length ==> K[c] == vs[hx[c]]
    {
      KeysOf(hx[..n], vs[..])
    }

    /** The heap is in order. */
    ghost predicate Ordered()
      requires n <= hx.Length
      reads this, hx, vs
    {
      Heap(Keys())
    }

    /** The state in the middle of insert's loop: position i is a hole that
        peer p will fill; every other position holds a peer that knows its
        position, p is not among them, and ix[p] is not yet set. */
    ghost predicate HoleValid(i: nat, p: nat)
      reads this, hx, ix
    {
      && hx.Length == ix.Length == vs.Length
      && hx != ix && hx != vs && ix != vs
      && n <= hx.Length <= invalid && i < n && p < ix.Length
      && (forall j :: 0 <= j < n && j != i ==> hx[j] < ix.Length && hx[j] != p && ix[hx[j]] == j)
      && (forall q :: 0 <= q < ix.Length && q != p ==>
            ix[q] == invalid || (ix[q] < n && ix[q] != i && hx[ix[q]] == q))
    }

    /** The keys by position with the hole at i holding p's number. */
    ghost function HoleKeys(i: nat, p: nat): (K: seq<nat>)
      requires n <= hx.Length && i < n
      reads this, hx, vs
    {
      KeysOf(hx[..n][i := p], vs[..])
    }

    /** The empty heap over `slots` peer indices, as the surrounding code
        sets it up: no peer present. */
    constructor Empty(slots: nat, none: nat)
      requires slots <= none
      ensures Valid() && n == 0 && hx.Length == slots && invalid == none
      ensures forall p :: 0 <= p < slots ==> ix[p] == none
      ensures fresh(hx) && fresh(ix) && fresh(vs)
    {
      n := 0;
      invalid := none;
      hx := new nat[slots](_ => none);
      ix := new nat[slots](_ => none);
      vs := new nat[slots](_ => 0);
    }

    /** A peer absent from the heap leaves a free position: the peers in the
        heap are distinct and all differ from it. */
    lemma RoomForAbsent(peer: nat)
      requires Valid() && peer < ix.Length && ix[peer] == invalid
      ensures n < hx.Length
    {
      var s := hx[..n];
      forall a, b | 0 <= a < b < |s| ensures s[a] != s[b] {
        assert ix[s[a]] == a && ix[s[b]] == b;
      }
      forall a | 0 <= a < |s| ensures s[a] < hx.Length && s[a] != peer {
        assert ix[s[a]] == a;
      }
      Pigeonhole(s, hx.Length, peer);
    }

    /** heapify: sift the number at position j0 down, swapping with the
        smaller child while it is smaller; the walk goes on down the path of
        the smaller child until j has no child. Positions before j0 and from
        n on are left alone, the peers in the heap are permuted, and heap
        order holds afterwards if it held everywhere except below j0. */
    method Heapify(j0: nat)
      requires Valid()
      modifies hx, ix
      ensures Valid()
      ensures forall p :: 0 <= p < hx.Length && (p < j0 || p >= n) ==> hx[p] == old(hx[p])
      ensures multiset(hx[..n]) == old(multiset(hx[..n]))
      ensures old(HeapBelow(Keys(), j0) && Bridged(Keys(), j0)) ==> Ordered()
    {
      ghost var sound := HeapBelow(Keys(), j0) && Bridged(Keys(), j0);
      var j := j0;
      var k := 2 * j + 1;
      while j < n / 2 && k < n
        invariant Valid() && k == 2 * j + 1 && j0 <= j
        invariant forall p :: 0 <= p < hx.Length && (p < j0 || p >= n) ==> hx[p] == old(hx[p])
        invariant multiset(hx[..n]) == old(multiset(hx[..n]))
        invariant sound ==> HeapBelow(Keys(), j) && Bridged(Keys(), j)
        decreases n - j
      {
        k := SiftStep(j, sound);
        j, k := k, k + k + 1;
      }
      if sound {
        DownStop(Keys(), j);
      }
    }

    /** The loop of insert: the hole at i0, which peer p will fill, rises
        while p's number is below the parent's; each parent passes down into
        the hole. The peers in the heap are those with the hole filled by p,
        and heap order holds afterwards if it held everywhere except
        between the hole and its parent. */
    method Rise(p: nat, i0: nat)
      requires HoleValid(i0, p)
      modifies hx, ix
      ensures Valid() && ix[p] < n && hx[ix[p]] == p
      ensures multiset(hx[..n]) == old(multiset(hx[..n][i0 := p]))
      ensures old(HeapAbove(HoleKeys(i0, p), i0) && Bridged(HoleKeys(i0, p), i0)) ==> Ordered()
    {
      ghost var sound := HeapAbove(HoleKeys(i0, p), i0) && Bridged(HoleKeys(i0, p), i0);
      var i := i0;
      while i > 0 && vs[p] < vs[hx[Parent(i)]]
        invariant HoleValid(i, p)
        invariant multiset(hx[..n][i := p]) == old(multiset(hx[..n][i0 := p]))
        invariant sound ==> HeapAbove(HoleKeys(i, p), i) && Bridged(HoleKeys(i, p), i)
        decreases i
      {
        ghost var K := HoleKeys(i, p);
        if sound {
          assert K[i] == vs[p] && K[Parent(i)] == vs[hx[Parent(i)]];
          RiseUp(K, i);
        }
        MoveUp(i, p);
        i := Parent(i);
      }
      ghost var K := HoleKeys(i, p);
      if sound {
        assert i > 0 ==> K[i] == vs[p] && K[Parent(i)] == vs[hx[Parent(i)]];
        RiseStop(K, i);
      }
      Fill(i, p);
    }

    /** The end of insert: peer p takes the hole at i. */
    method Fill(i: nat, p: nat)
      requires HoleValid(i, p)
      modifies hx, ix
      ensures Valid() && ix[p] == i && hx[i] == p
      ensures hx[..n] == old(hx[..n][i := p])
      ensures Keys() == old(HoleKeys(i, p))
    {
      hx[i] := p;
      ix[hx[i]] := i;
      assert hx[..n] == old(hx[..n][i := p]);
    }

    /** One turn of insert's loop: the peer at the parent of the hole moves
        down into it, and the hole moves up. */
    method MoveUp(i: nat, p: nat)
      requires HoleValid(i, p) && i > 0
      modifies hx, ix
      ensures HoleValid(Parent(i), p)
      ensures hx[..n][Parent(i) := p] == Swapped(old(hx[..n][i := p]), Parent(i), i)
      ensures multiset(hx[..n][Parent(i) := p]) == old(multiset(hx[..n][i := p]))
      ensures HoleKeys(Parent(i), p) == Swapped(old(HoleKeys(i, p)), Parent(i), i)
    {
      ghost var h := hx[..n][i := p];
      hx[i] := hx[Parent(i)];
      ix[hx[i]] := i;
      assert hx[..n][Parent(i) := p] == Swapped(h, Parent(i), i);
      SwappedKeys(h, vs[..], Parent(i), i);
    }

    /** insert: the peer, absent from the heap, joins it with number
        seqbase at the end, and rises to its place. */
    method Insert(peer: nat, seqbase: nat)
      requires Valid() && peer < ix.Length && ix[peer] == invalid
      modifies this, hx, ix, vs
      ensures Valid() && n == old(n) + 1
      ensures vs[..] == old(vs[..])[peer := seqbase]
      ensures ix[peer] < n && hx[ix[peer]] == peer
      ensures multiset(hx[..n]) == old(multiset(hx[..n])) + multiset{peer}
      ensures old(Ordered()) ==> Ordered()
    {
      var i := n;
      Extend(peer, seqbase);
      Rise(peer, i);
    }

    /** The first half of insert: the peer gets its number and the heap
        grows by one position, a hole for the peer at the end; filling it
        would add the peer and leave the order broken above the hole only. */
    method Extend(peer: nat, seqbase: nat)
      requires Valid() && peer < ix.Length && ix[peer] == invalid
      modifies this, vs
      ensures n == old(n) + 1 && vs[..] == old(vs[..])[peer := seqbase]
      ensures HoleValid(old(n), peer)
      ensures multiset(hx[..n][old(n) := peer]) == old(multiset(hx[..n])) + multiset{peer}
      ensures old(Ordered()) ==>
        HeapAbove(HoleKeys(old(n), peer), old(n)) && Bridged(HoleKeys(old(n), peer), old(n))
    {
      RoomForAbsent(peer);
      ghost var h := hx[..n];
      forall c | 0 <= c < |h| ensures h[c] != peer {
        assert ix[h[c]] == c;
      }
      Grown(h, vs[..], peer, seqbase);
      vs[peer] := seqbase;
      n := n + 1;
      assert hx[..n][|h| := peer] == h + [peer];
    }

    /** get_min: the number at the root, which is the smallest number in an
        ordered heap. */
    method GetMin() returns (r: nat)
      requires Valid() && n > 0
      ensures r == vs[hx[0]]
      ensures Ordered() ==> forall j :: 0 <= j < n ==> r <= vs[hx[j]]
    {
      r := vs[hx[0]];
      if Ordered() {
        RootIsMinimal(Keys());
      }
    }

    /** update_seq: a peer in the heap whose number grows takes the new
        number and sinks to its place, and the new minimum is returned;
        otherwise (absent peer, or a number that does not grow) nothing
        changes and seqbase_if_discarded is returned. */
    method UpdateSeq(peer: nat, seqbase: nat, ifDiscarded: nat) returns (r: nat)
      requires Valid() && peer < ix.Length
      modifies hx, ix, vs
      ensures Valid()
      ensures old(ix[peer] == invalid || seqbase <= vs[peer]) ==>
        r == ifDiscarded && hx[..] == old(hx[..]) && ix[..] == old(ix[..]) && vs[..] == old(vs[..])
      ensures !old(ix[peer] == invalid || seqbase <= vs[peer]) ==>
        && vs[..] == old(vs[..])[peer := seqbase]
        && multiset(hx[..n]) == old(multiset(hx[..n]))
        && 0 < n && r == vs[hx[0]]
        && (old(Ordered()) ==> Ordered() && forall j :: 0 <= j < n ==> r <= vs[hx[j]])
    {
      if ix[peer] == invalid || seqbase <= vs[peer] {
        return ifDiscarded;
      }
      ghost var K := Keys();
      var i := ix[peer];
      vs[peer] := seqbase;
      assert Keys() == K[i := seqbase] by {
        forall c | 0 <= c < n && c != i ensures hx[c] != peer {
          assert ix[hx[c]] == c;
        }
      }
      if old(Ordered()) {
        Raised(K, i, seqbase);
      }
      Heapify(i);
      r := vs[hx[0]];
      if old(Ordered()) {
        RootIsMinimal(Keys());
      }
    }

    /** isempty: no peer in the heap, which is every peer marked absent. */
    method IsEmpty() returns (b: bool)
      requires Valid()
      ensures b <==> n == 0
      ensures b <==> forall p :: 0 <= p < ix.Length ==> ix[p] == invalid
    {
      b := n == 0;
      if !b {
        assert ix[hx[0]] == 0;
      }
    }

    /** delete, corrected: the peer leaves the heap; the last peer takes its
        position and rises when its number is below the new parent's, and
        sinks otherwise. Returns 1 when the peer was in the heap, 0 when it
        was not (nothing changes then). */
    method Delete(peer: nat) returns (r: nat)
      requires Valid() && peer < ix.Length
      modifies this, hx, ix
      ensures Valid() && ix[peer] == invalid
      ensures r == if old(ix[peer]) == invalid then 0 else 1
      ensures r == 0 ==> n == old(n) && hx[..] == old(hx[..]) && ix[..] == old(ix[..])
      ensures r == 1 ==> n == old(n) - 1 && multiset(hx[..n]) == old(multiset(hx[..n])) - multiset{peer}
      ensures r == 1 && n == 0 ==> hx[0] == invalid
      ensures old(Ordered()) ==> Ordered()
    {
      var i := ix[peer];
      if i == invalid {
        return 0;
      }
      if n > 1 {
        Shrink(peer);
      } else {
        Clear(peer);
      }
      r := 1;
    }

    /** delete of the only peer: the heap becomes empty and position 0 is
        marked invalid. */
    method Clear(peer: nat)
      requires Valid() && peer < ix.Length && ix[peer] != invalid && n == 1
      modifies this, hx, ix
      ensures Valid() && ix[peer] == invalid && n == 0 && hx[0] == invalid
      ensures multiset(hx[..n]) == old(multiset(hx[..n])) - multiset{peer}
      ensures forall q :: 0 <= q < ix.Length && q != peer ==> ix[q] == old(ix[q])
    {
      ghost var h := hx[..n];
      ix[peer] := invalid;
      n := 0;
      hx[0] := invalid;
      assert h == [peer];
    }

    /** minseqheap_delete as written. When the peer is the last of several,
        the write of the moved peer's position puts the peer's own position
        back into its index, so the peer still looks present; and heapify
        only sinks the moved peer, so a number below its new parent's leaves
        the heap out of order. Otherwise it agrees with Delete. */
    method DeleteAsWritten(peer: nat) returns (r: nat)
      requires Valid() && peer < ix.Length
      modifies this, hx, ix
      ensures r == if old(ix[peer]) == invalid then 0 else 1
      ensures r == 0 ==> n == old(n) && hx[..] == old(hx[..]) && ix[..] == old(ix[..])
      ensures r == 1 ==> n == old(n) - 1
      ensures r == 1 && old(n) == 1 ==> hx[0] == invalid && ix[peer] == invalid
      ensures r == 1 ==> forall q :: 0 <= q < old(ix[peer]) ==> hx[q] == old(hx[q])
      ensures old(1 < n && ix[peer] == n - 1) ==> ix[peer] == n && !Valid()
      ensures r == 1 && !old(1 < n && ix[peer] == n - 1) ==>
        Valid() && ix[peer] == invalid && multiset(hx[..n]) == old(multiset(hx[..n])) - multiset{peer}
      ensures old(Ordered() && ix[peer] < n - 1 && (ix[peer] == 0 || vs[hx[Parent(ix[peer])]] <= vs[hx[n - 1]]))
        ==> Ordered()
    {
      var i := ix[peer];
      if i == invalid {
        return 0;
      }
      if n > 1 {
        if i < n - 1 {
          SinkAsWritten(peer);
        } else {
          SelfMoveAsWritten(peer);
        }
      } else {
        Clear(peer);
      }
      r := 1;
    }

    /** delete as written when the peer is not the last one: the last peer
        takes its position and heapify sinks it. The order is kept when the
        moved number is not below the new parent's. */
    method SinkAsWritten(peer: nat)
      requires Valid() && peer < ix.Length && ix[peer] < n - 1
      modifies this, hx, ix
      ensures Valid() && ix[peer] == invalid && n == old(n) - 1
      ensures multiset(hx[..n]) == old(multiset(hx[..n])) - multiset{peer}
      ensures forall q :: 0 <= q < old(ix[peer]) ==> hx[q] == old(hx[q])
      ensures old(Ordered() && (ix[peer] == 0 || vs[hx[Parent(ix[peer])]] <= vs[hx[n - 1]])) ==> Ordered()
    {
      var i := ix[peer];
      Vacate(peer);
      Sink(i, hx[n]);
      AbsentIsInvalid(peer);
    }

    /** delete as written when the peer is the last of several: the peer is
        moved onto its own position, whose number then goes back into its
        index; the index no longer matches the heap. heapify(n, n) does
        nothing. */
    method SelfMoveAsWritten(peer: nat)
      requires Valid() && peer < ix.Length && 1 < n && ix[peer] == n - 1
      modifies this, hx, ix
      ensures n == old(n) - 1 && hx[..] == old(hx[..]) && ix[..] == old(ix[..])
      ensures ix[peer] == n && !Valid()
    {
      var i := ix[peer];
      ix[peer] := invalid;
      n := n - 1;
      hx[i] := hx[n];
      ix[hx[i]] := i;
    }

    /** delete from a heap of more than one peer, corrected: the last peer
        fills the position of the one that leaves, and settles. */
    method Shrink(peer: nat)
      requires Valid() && peer < ix.Length && ix[peer] != invalid && n > 1
      modifies this, hx, ix
      ensures Valid() && ix[peer] == invalid && n == old(n) - 1
      ensures multiset(hx[..n]) == old(multiset(hx[..n])) - multiset{peer}
      ensures old(Ordered()) ==> Ordered()
    {
      if ix[peer] < n - 1 {
        Replace(peer);
      } else {
        DropLast(peer);
      }
    }

    /** Shrink when the peer is not the last one: the last peer takes its
        position and settles there. */
    method Replace(peer: nat)
      requires Valid() && peer < ix.Length && ix[peer] < n - 1
      modifies this, hx, ix
      ensures Valid() && ix[peer] == invalid && n == old(n) - 1
      ensures multiset(hx[..n]) == old(multiset(hx[..n])) - multiset{peer}
      ensures old(Ordered()) ==> Ordered()
    {
      var i := ix[peer];
      Vacate(peer);
      Settle(i, hx[n]);
      AbsentIsInvalid(peer);
    }

    /** The first half of Replace: the peer is marked absent, the heap
        shrinks by one, and the peer's position becomes a hole for the last
        peer; filling it would drop the peer and leave the order broken at
        the hole only. */
    method Vacate(peer: nat)
      requires Valid() && peer < ix.Length && ix[peer] < n - 1
      modifies this, ix
      ensures n == old(n) - 1 && ix[..] == old(ix[..])[peer := invalid]
      ensures HoleValid(old(ix[peer]), hx[n])
      ensures multiset(hx[..n][old(ix[peer]) := hx[n]]) == old(multiset(hx[..n])) - multiset{peer}
      ensures peer !in multiset(hx[..n][old(ix[peer]) := hx[n]])
      ensures old(Ordered()) ==> Displaced(HoleKeys(old(ix[peer]), hx[n]), old(ix[peer]))
    {
      var i := ix[peer];
      OnlyAt(i);
      ghost var h := hx[..n];
      Removed(h, vs[..], i);
      assert h[i] == peer;
      Detach(peer);
      VacatedKeys(h, hx[..n][i := hx[n]], vs[..], i);
    }

    /** Shrink when the peer is the last one: the heap just loses it. */
    method DropLast(peer: nat)
      requires Valid() && peer < ix.Length && n > 1 && ix[peer] == n - 1
      modifies this, ix
      ensures Valid() && ix[peer] == invalid && n == old(n) - 1
      ensures multiset(hx[..n]) == old(multiset(hx[..n])) - multiset{peer}
      ensures old(Ordered()) ==> Ordered()
    {
      ghost var K := Keys();
      ghost var h := hx[..n];
      Detach(peer);
      ghost var a := hx[..n];
      assert h == a + [peer];
      DroppedLast(a, peer, vs[..]);
      if old(Ordered()) {
        HeapPrefix(K, n);
      }
    }

    /** The first half of delete for a heap of more than one peer: the peer
        is marked absent and the heap shrinks by one. When the peer was not
        the last one, its position is a hole for the last peer. */
    method Detach(peer: nat)
      requires Valid() && peer < ix.Length && ix[peer] != invalid && n > 1
      modifies this, ix
      ensures n == old(n) - 1 && ix[..] == old(ix[..])[peer := invalid]
      ensures hx[..n] == old(hx[..n])[..n] && hx[n] == old(hx[..n])[n]
      ensures old(ix[peer]) < n ==> HoleValid(old(ix[peer]), hx[n])
      ensures old(ix[peer]) < n ==>
                hx[..n][old(ix[peer]) := hx[n]] == old(hx[..n])[..n][old(ix[peer]) := old(hx[..n])[n]]
      ensures old(ix[peer]) == n ==> Valid()
    {
      ix[peer] := invalid;
      n := n - 1;
    }

    /** The corrected end of delete: peer p, the last one, takes the hole
        at i, rising when its number is below the parent's and sinking
        otherwise. */
    method Settle(i: nat, p: nat)
      requires HoleValid(i, p)
      modifies hx, ix
      ensures Valid()
      ensures multiset(hx[..n]) == old(multiset(hx[..n][i := p]))
      ensures old(Displaced(HoleKeys(i, p), i)) ==> Ordered()
    {
      ghost var L := HoleKeys(i, p);
      if i > 0 && vs[p] < vs[hx[Parent(i)]] {
        assert L[i] == vs[p] && L[Parent(i)] == vs[hx[Parent(i)]];
        Rise(p, i);
      } else {
        Sink(i, p);
      }
    }

    /** Peer p fills the hole at i and heapify sinks it: the positions
        above i keep their peers, and the order holds when the keys were
        displaced at i only and p's number is not below the parent's. */
    method Sink(i: nat, p: nat)
      requires HoleValid(i, p)
      modifies hx, ix
      ensures Valid()
      ensures multiset(hx[..n]) == old(multiset(hx[..n][i := p]))
      ensures forall q :: 0 <= q < i ==> hx[q] == old(hx[q])
      ensures old(Displaced(HoleKeys(i, p), i) && (i == 0 || vs[hx[Parent(i)]] <= vs[p])) ==> Ordered()
    {
      ghost var L := HoleKeys(i, p);
      assert i > 0 ==> L[i] == vs[p] && L[Parent(i)] == vs[hx[Parent(i)]];
      Fill(i, p);
      Heapify(i);
    }

    /** The peer at position i is at no other position. */
    lemma OnlyAt(i: nat)
      requires Valid() && i < n
      ensures forall c :: 0 <= c < n && c != i ==> hx[c] != hx[i]
    {
      forall c | 0 <= c < n && c != i ensures hx[c] != hx[i] {
        assert ix[hx[c]] == c && ix[hx[i]] == i;
      }
    }

    /** A peer is marked absent exactly when it is at no position of the
        heap: delete's debug scan checks one direction, its use of the
        index after the scan relies on the other. */
    lemma AbsentIsInvalid(peer: nat)
      requires Valid() && peer < ix.Length
      ensures ix[peer] == invalid <==> peer !in multiset(hx[..n])
    {
      if peer !in multiset(hx[..n]) {
        forall c | 0 <= c < n ensures hx[c] != peer {
          assert hx[..n][c] in multiset(hx[..n]);
        }
      } else {
        var c :| c in multiset(hx[..n]) && c == peer;
        assert c in hx[..n];
        var k :| 0 <= k < n && hx[..n][k] == peer;
        assert ix[peer] == k;
      }
    }

    /** One turn of heapify's loop: k, the smaller child of j, moves up
        into j when it is smaller, and the walk goes on at k. */
    method SiftStep(j: nat, ghost sound: bool) returns (k: nat)
      requires Valid() && 2 * j + 1 < n
      requires sound ==> HeapBelow(Keys(), j) && Bridged(Keys(), j)
      modifies hx, ix
      ensures Valid() && (k == 2 * j + 1 || k == 2 * j + 2) && k < n
      ensures k == 2 * j + 2 <==> 2 * j + 2 < n && vs[old(hx[2 * j + 2])] < vs[old(hx[2 * j + 1])]
      ensures vs[old(hx[k])] <= vs[old(hx[2 * j + 1])]
      ensures 2 * j + 2 < n ==> vs[old(hx[k])] <= vs[old(hx[2 * j + 2])]
      ensures vs[old(hx[k])] < vs[old(hx[j])] ==> hx[j] == old(hx[k]) && hx[k] == old(hx[j])
      ensures !(vs[old(hx[k])] < vs[old(hx[j])]) ==> hx[j] == old(hx[j]) && hx[k] == old(hx[k])
      ensures forall p :: 0 <= p < hx.Length && p != j && p != k ==> hx[p] == old(hx[p])
      ensures multiset(hx[..n]) == old(multiset(hx[..n]))
      ensures sound ==> HeapBelow(Keys(), k) && Bridged(Keys(), k)
    {
      k := SmallerChild(j);
      ghost var K := Keys();
      assert K[j] == vs[hx[j]] && K[k] == vs[hx[k]] && K[2 * j + 1] == vs[hx[2 * j + 1]];
      assert 2 * j + 2 < n ==> K[2 * j + 2] == vs[hx[2 * j + 2]];
      if vs[hx[k]] < vs[hx[j]] {
        if sound {
          SwapDown(K, j, k);
        }
        Swap(j, k);
      } else if sound {
        PassDown(K, j, k);
      }
    }

    /** The child of j that heapify compares with j: the right one only
        when it exists and its number is strictly below the left one's. */
    method SmallerChild(j: nat) returns (k: nat)
      requires Valid() && 2 * j + 1 < n
      ensures (k == 2 * j + 1 || k == 2 * j + 2) && k < n
      ensures k == 2 * j + 2 <==> 2 * j + 2 < n && vs[hx[2 * j + 2]] < vs[hx[2 * j + 1]]
      ensures vs[hx[k]] <= vs[hx[2 * j + 1]]
      ensures 2 * j + 2 < n ==> vs[hx[k]] <= vs[hx[2 * j + 2]]
    {
      k := 2 * j + 1;
      if k + 1 < n && vs[hx[k + 1]] < vs[hx[k]] {
        k := k + 1;
      }
    }

    /** One swap of heapify, with the back index updated for both peers. */
    method Swap(j: nat, k: nat)
      requires Valid() && j < n && k < n && j != k
      modifies hx, ix
      ensures Valid()
      ensures hx[j] == old(hx[k]) && hx[k] == old(hx[j])
      ensures forall p :: 0 <= p < hx.Length && p != j && p != k ==> hx[p] == old(hx[p])
      ensures multiset(hx[..n]) == old(multiset(hx[..n]))
      ensures Keys() == Swapped(old(Keys()), j, k)
    {
      ghost var h := hx[..n];
      var t := hx[j];
      hx[j] := hx[k];
      hx[k] := t;
      ix[hx[j]] := j;
      ix[hx[k]] := k;
      assert hx[..n] == Swapped(h, j, k);
      SwappedKeys(h, vs[..], j, k);
    }
  }

  /** A heap holding peer p at position p with number keys[p], for every
      peer; PEERIDX_INVALID is |keys|. */
  method Identity(keys: seq<nat>) returns (h: MinSeqHeap)
    ensures fresh(h) && fresh(h.hx) && fresh(h.ix) && fresh(h.vs)
    ensures h.Valid() && h.n == |keys| && h.hx.Length == |keys| && h.invalid == |keys|
    ensures forall p :: 0 <= p < |keys| ==> h.hx[p] == p && h.ix[p] == p
    ensures h.vs[..] == keys && h.Keys() == keys
  {
    h := new MinSeqHeap.Empty(|keys|, |keys|);
    forall p | 0 <= p < |keys| {
      h.hx[p] := p;
    }
    forall p | 0 <= p < |keys| {
      h.ix[p] := p;
    }
    forall p | 0 <= p < |keys| {
      h.vs[p] := keys[p];
    }
    h.n := |keys|;
    assert h.hx[..h.n] == h.hx[..];
  }

  /** delete as written of the last of two peers (numbers 5 and 7, peer 1
      at position 1) returns 1 but leaves peer 1's index at 1, the new
      heap size: the back index no longer holds. Delete, on the same heap,
      marks the peer absent. */
  method DeleteLastCounterexample() returns (h: MinSeqHeap, r: nat)
    ensures r == 1 && h.n == 1 && h.ix.Length == 2 && h.ix[1] == 1 && !h.Valid()
  {
    h := Identity([5, 7]);
    r := h.DeleteAsWritten(1);
  }

  /** delete as written of peer 3 from the ordered heap of numbers
      [1, 10, 2, 11, 12, 3], peer p at position p: peer 5 (number 3) moves
      to position 3, below position 1 (number 10), and heapify only looks
      below it, so the heap is left out of order. */
  method DeleteUnorderedCounterexample() returns (h: MinSeqHeap, r: nat)
    ensures r == 1 && h.Valid() && !h.Ordered()
  {
    var keys := [1, 10, 2, 11, 12, 3];
    assert Heap(keys);
    h := Identity(keys);
    ghost var t := h.hx[..h.n];
    r := h.DeleteAsWritten(3);
    LeftAbove(h.hx[..h.n], t, h.vs[..]);
  }

  /** The heap left by delete as written in DeleteUnorderedCounterexample:
      positions 0 to 2 keep peers 0 to 2, so peer 5 (number 3) is at
      position 3 or 4, whose parent, position 1, holds number 10. */
  lemma LeftAbove(s: seq<nat>, t: seq<nat>, v: seq<nat>)
    requires |t| == 6 && forall p :: 0 <= p < 6 ==> t[p] == p
    requires |s| == 5 && forall p :: 0 <= p < 3 ==> s[p] == t[p]
    requires multiset(s) == multiset(t) - multiset{3} && v == [1, 10, 2, 11, 12, 3]
    ensures !Heap(KeysOf(s, v))
  {
    assert t[5] in multiset(t);
    assert multiset(s)[5] == multiset(t)[5];
    var j :| 0 <= j < 5 && s[j] == 5;
    assert s[0] == 0 && s[1] == 1 && s[2] == 2;
    assert Parent(j) == 1;
    assert KeysOf(s, v)[j] < KeysOf(s, v)[Parent(j)];
  }

  /** n distinct numbers below `bound`, none of them `miss` (also below
      `bound`), leave at least one number free: n < bound. */
  lemma Pigeonhole(s: seq<nat>, bound: nat, miss: nat)
    requires miss < bound
    requires forall a, b :: 0 <= a < b < |s| ==> s[a] != s[b]
    requires forall a :: 0 <= a < |s| ==> s[a] < bound && s[a] != miss
    ensures |s| < bound
  {
    var r: seq<nat> := seq(bound, x => x);
    var used := set a | 0 <= a < |s| :: s[a];
    var all := set x | 0 <= x < |r| :: r[x];
    DistinctCard(s);
    DistinctCard(r);
    forall a | 0 <= a < |s| ensures s[a] in all - {miss} {
      assert r[s[a]] == s[a];
    }
    assert miss in all by {
      assert r[miss] == miss;
    }
    SubsetCard(used, all - {miss});
  }

  /** Distinct elements make a set of the same size. */
  lemma {:induction false} DistinctCard(s: seq<nat>)
    requires forall a, b :: 0 <= a < b < |s| ==> s[a] != s[b]
    ensures |set a | 0 <= a < |s| :: s[a]| == |s|
  {
    if |s| > 0 {
      var t := s[..|s| - 1];
      DistinctCard(t);
      assert (set a | 0 <= a < |s| :: s[a]) == (set a | 0 <= a < |t| :: t[a]) + {s[|s| - 1]};
    }
  }

  lemma SubsetCard(a: set<nat>, b: set<nat>)
    requires a <= b
    ensures |a| <= |b|
  {
    assert b == a + (b - a);
  }
}
