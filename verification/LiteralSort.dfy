/** The heapsort that orders literals by size and then lexicographically. */
module LiteralSort {
  import opened MachineWords
  import PathEncoder

  type CodeUnit = x: int | 0 <= x < 0x1_0000
  type Text = seq<CodeUnit>

  /** The bytes of one code unit in CESU-8. */
  function UnitSize(u: CodeUnit): nat { if u < 0x80 then 1 else if u < 0x800 then 2 else 3 }

  function Size(t: Text): nat {
    if t == [] then 0 else UnitSize(t[0]) + Size(t[1..])
  }

  predicate Lexicographic(a: Text, b: Text) {
    if b == [] then false
    else if a == [] then true
    else a[0] < b[0] || (a[0] == b[0] && Lexicographic(a[1..], b[1..]))
  }

  /** jjs_save_literals_compare: by size, then by code units. */
  predicate Less(a: Text, b: Text) {
    if Size(a) == Size(b) then Lexicographic(a, b) else Size(a) < Size(b)
  }

  /** The size of a string is the number of its bytes. */
  lemma {:induction false} SizeIs(t: Text)
    ensures Size(t) == |PathEncoder.Cesu8(t)|
  {
    if t != [] {
      SizeIs(t[1..]);
    }
  }

  ghost predicate DiffersAt(a: Text, b: Text, k: nat) {
    k < |a| && k < |b| && a[..k] == b[..k] && a[k] < b[k]
  }

  /** A text comes before another that it is a proper prefix of, or that has a greater code unit where they first differ. */
  lemma {:induction false} LexicographicIs(a: Text, b: Text)
    ensures Lexicographic(a, b) <==> (a < b || exists k: nat :: DiffersAt(a, b, k))
  {
    if a != [] && b != [] {
      var a', b' := a[1..], b[1..];
      LexicographicIs(a', b');
      assert a == [a[0]] + a' && b == [b[0]] + b';
      if a[0] == b[0] {
        assert a < b <==> a' < b';
        forall k: nat | DiffersAt(a', b', k)
          ensures DiffersAt(a, b, k + 1)
        {
          assert a[..k + 1] == [a[0]] + a'[..k] && b[..k + 1] == [b[0]] + b'[..k];
        }
        forall k: nat | DiffersAt(a, b, k)
          ensures k > 0 && DiffersAt(a', b', k - 1)
        {
          assert a'[..k - 1] == a[..k][1..] && b'[..k - 1] == b[..k][1..];
        }
      } else if a[0] < b[0] {
        assert DiffersAt(a, b, 0);
      } else {
        assert forall k: nat | 0 < k <= |a| && k <= |b| :: a[..k][0] == a[0] && b[..k][0] == b[0];
      }
    }
  }

  lemma {:induction false} LexicographicTransitive(a: Text, b: Text, c: Text)
    requires Lexicographic(a, b) && Lexicographic(b, c)
    ensures Lexicographic(a, c)
  {
    if a != [] && a[0] == b[0] && b[0] == c[0] {
      LexicographicTransitive(a[1..], b[1..], c[1..]);
    }
  }

  lemma {:induction false} LexicographicTotal(a: Text, b: Text)
    ensures Lexicographic(a, b) || Lexicographic(b, a) || a == b
    ensures !(Lexicographic(a, b) && Lexicographic(b, a)) && !Lexicographic(a, a)
    decreases |a| + |b|
  {
    if a != [] && b != [] {
      if a[0] == b[0] {
        LexicographicTotal(a[1..], b[1..]);
        assert a == [a[0]] + a[1..] && b == [b[0]] + b[1..];
      }
    }
    LexicographicIrreflexive(a);
  }

  lemma {:induction false} LexicographicIrreflexive(a: Text)
    ensures !Lexicographic(a, a)
  {
    if a != [] {
      LexicographicIrreflexive(a[1..]);
    }
  }

  /** The comparison is a strict total order, so the sorted order of a set of literals is unique. */
  lemma LessIsStrictTotalOrder(a: Text, b: Text, c: Text)
    ensures !Less(a, a)
    ensures Less(a, b) && Less(b, c) ==> Less(a, c)
    ensures Less(a, b) || Less(b, a) || a == b
    ensures !(Less(a, b) && Less(b, a))
  {
    LexicographicIrreflexive(a);
    LexicographicTotal(a, b);
    if Lexicographic(a, b) && Lexicographic(b, c) {
      LexicographicTransitive(a, b, c);
    }
  }

  predicate AtMost(a: Text, b: Text) { !Less(b, a) }

  lemma AtMostTransitive(a: Text, b: Text, c: Text)
    requires AtMost(a, b) && AtMost(b, c)
    ensures AtMost(a, c)
  {
    LessIsStrictTotalOrder(c, a, b);
    LessIsStrictTotalOrder(b, a, c);
    LessIsStrictTotalOrder(a, b, c);
    LessIsStrictTotalOrder(c, b, a);
  }

  lemma LessIsAtMost(a: Text, b: Text)
    requires Less(a, b)
    ensures AtMost(a, b)
  {
    LessIsStrictTotalOrder(a, b, a);
  }

  ghost predicate Sorted(s: seq<Text>) {
    forall i, j | 0 <= i < j < |s| :: AtMost(s[i], s[j])
  }

  /** Nodes from `lo` on are no smaller than their children among the first n elements. */
  ghost predicate Heap(s: seq<Text>, lo: nat, n: nat)
    requires n <= |s|
  {
    forall i, c | lo <= i && (c == 2 * i + 1 || c == 2 * i + 2) && c < n :: AtMost(s[c], s[i])
  }

  lemma {:induction false} RootIsMax(s: seq<Text>, n: nat, i: nat)
    requires n <= |s| && i < n && Heap(s, 0, n)
    ensures AtMost(s[i], s[0])
  {
    if i == 0 {
      LessIsStrictTotalOrder(s[0], s[0], s[0]);
    } else {
      var parent := (i - 1) / 2;
      assert i == 2 * parent + 1 || i == 2 * parent + 2;
      RootIsMax(s, n, parent);
      AtMostTransitive(s[i], s[parent], s[0]);
    }
  }

  method HeapMax(a: array<Text>, n: nat, node: nat, child1: nat, child2: nat) returns (max: nat)
    requires n <= a.Length && node < a.Length
    ensures max == node || (max == child1 < n) || (max == child2 < n)
    ensures AtMost(a[node], a[max])
    ensures child1 < n ==> AtMost(a[child1], a[max])
    ensures child2 < n ==> AtMost(a[child2], a[max])
    ensures max != node ==> Less(a[node], a[max])
  {
    hide Less;
    max := node;
    LessIsStrictTotalOrder(a[node], a[node], a[node]);
    if child1 < n && Less(a[max], a[child1]) {
      max := child1;
      LessIsStrictTotalOrder(a[max], a[max], a[max]);
      LessIsAtMost(a[node], a[max]);
    }
    if child2 < n && Less(a[max], a[child2]) {
      LessIsAtMost(a[max], a[child2]);
      LessIsStrictTotalOrder(a[node], a[max], a[child2]);
      AtMostTransitive(a[node], a[max], a[child2]);
      if child1 < n {
        AtMostTransitive(a[child1], a[max], a[child2]);
      }
      max := child2;
      LessIsStrictTotalOrder(a[max], a[max], a[max]);
    }
  }

  /** A heap but for one node, whose children are still no larger than its parent. */
  ghost predicate HeapBut(s: seq<Text>, lo: nat, n: nat, node: nat)
    requires n <= |s|
  {
    && (forall i, c | lo <= i && i != node && (c == 2 * i + 1 || c == 2 * i + 2) && c < n :: AtMost(s[c], s[i]))
    && (forall i, c | lo <= i && (node == 2 * i + 1 || node == 2 * i + 2)
                      && (c == 2 * node + 1 || c == 2 * node + 2) && c < n :: AtMost(s[c], s[i]))
  }

  function Swapped(s: seq<Text>, i: nat, j: nat): seq<Text>
    requires i < |s| && j < |s|
  {
    s[i := s[j]][j := s[i]]
  }

  lemma SwapKeeps(s: seq<Text>, i: nat, j: nat, n: nat)
    requires i < n && j < n && n <= |s|
    ensures multiset(Swapped(s, i, j)[..n]) == multiset(s[..n]) && Swapped(s, i, j)[n..] == s[n..]
  {
    assert Swapped(s, i, j)[..n] == Swapped(s[..n], i, j);
  }

  /** Sifting one step down: the larger child goes up and the hole moves to it. */
  lemma SiftStep(s: seq<Text>, lo: nat, n: nat, node: nat, max: nat)
    requires n <= |s| && lo <= node < |s| && HeapBut(s, lo, n, node)
    requires (max == 2 * node + 1 || max == 2 * node + 2) && max < n
    requires AtMost(s[node], s[max])
    requires 2 * node + 1 < n ==> AtMost(s[2 * node + 1], s[max])
    requires 2 * node + 2 < n ==> AtMost(s[2 * node + 2], s[max])
    ensures HeapBut(Swapped(s, node, max), lo, n, max)
  {
    hide AtMost;
    var t := Swapped(s, node, max);
    forall i, c | lo <= i && i != max && (c == 2 * i + 1 || c == 2 * i + 2) && c < n
      ensures AtMost(t[c], t[i])
    {
      if c == node {
        assert AtMost(s[max], s[i]);
      }
    }
    forall i, c | lo <= i && (max == 2 * i + 1 || max == 2 * i + 2) && (c == 2 * max + 1 || c == 2 * max + 2) && c < n
      ensures AtMost(t[c], t[i])
    {
      assert i == node;
    }
  }

  lemma SiftStart(s: seq<Text>, n: nat, node: nat)
    requires n <= |s| && Heap(s, node + 1, n)
    ensures HeapBut(s, node, n, node)
  {}

  lemma SiftEnd(s: seq<Text>, lo: nat, n: nat, node: nat)
    requires n <= |s| && node < |s| && HeapBut(s, lo, n, node)
    requires 2 * node + 1 < n ==> AtMost(s[2 * node + 1], s[node])
    requires 2 * node + 2 < n ==> AtMost(s[2 * node + 2], s[node])
    ensures Heap(s, lo, n)
  {}

  ghost predicate PrefixPermuted(s: seq<Text>, t: seq<Text>, n: nat)
    requires n <= |s|
  {
    |t| == |s| && multiset(t[..n]) == multiset(s[..n]) && t[n..] == s[n..]
  }

  method DownHeap(a: array<Text>, n: nat, node: nat)
    requires node < a.Length && n <= a.Length <= 0x7FFF_FFFF && (n == 0 || node < n)
    requires Heap(a[..], node + 1, n)
    modifies a
    ensures Heap(a[..], node, n) && PrefixPermuted(old(a[..]), a[..], n)
  {
    hide Heap, HeapBut, AtMost, Less, Wrap32;
    var i := node;
    SiftStart(a[..], n, node);
    while true
      invariant node <= i < a.Length && (n == 0 || i < n)
      invariant HeapBut(a[..], node, n, i) && PrefixPermuted(old(a[..]), a[..], n)
      decreases a.Length - i
    {
      var max := HeapMax(a, n, i, Wrap32(2 * i + 1), Wrap32(2 * i + 2));
      ghost var s := a[..];
      if max == i {
        SiftEnd(s, node, n, i);
        break;
      }
      SiftStep(s, node, n, i, max);
      SwapKeeps(s, i, max, n);
      a[i], a[max] := a[max], a[i];
      assert a[..] == Swapped(s, i, max);
      i := max;
    }
  }

  /** Before the first sift no node that is checked has children, and nothing is parted yet. */
  lemma StartSort(s: seq<Text>)
    requires |s| >= 2
    ensures Heap(s, (|s| - 2) / 2 + 1, |s|)
  {}

  method Sort(a: array<Text>, numOfLiterals: nat)
    requires numOfLiterals == a.Length <= 0x7FFF_FFFF
    modifies a
    ensures Sorted(a[..]) && multiset(a[..]) == multiset(old(a[..]))
  {
    hide Heap, Parted, AtMost, Less, Wrap32;
    if numOfLiterals < 2 {
      return;
    }
    StartSort(a[..]);
    var litIdx: nat := (numOfLiterals - 2) / 2;
    while litIdx <= (numOfLiterals - 2) / 2
      invariant litIdx <= (numOfLiterals - 2) / 2 || litIdx == UINT32 - 1
      invariant Heap(a[..], if litIdx == UINT32 - 1 then 0 else litIdx + 1, numOfLiterals)
      invariant multiset(a[..]) == multiset(old(a[..]))
      decreases if litIdx == UINT32 - 1 then 0 else litIdx + 1
    {
      ghost var s := a[..];
      DownHeap(a, numOfLiterals, litIdx);
      assert a[..][..numOfLiterals] == a[..] && s[..numOfLiterals] == s;
      litIdx := Wrap32(litIdx - 1);
    }
    NothingParted(a[..]);
    litIdx := 0;
    while litIdx < numOfLiterals
      invariant 0 <= litIdx <= numOfLiterals
      invariant Heap(a[..], 0, numOfLiterals - litIdx)
      invariant Parted(a[..], numOfLiterals - litIdx)
      invariant multiset(a[..]) == multiset(old(a[..]))
    {
      PopMax(a, numOfLiterals - litIdx - 1);
      litIdx := litIdx + 1;
    }
    AllParted(a[..]);
  }

  lemma NothingParted(s: seq<Text>)
    ensures Parted(s, |s|)
  {}

  lemma AllParted(s: seq<Text>)
    requires Parted(s, 0)
    ensures Sorted(s)
  {}

  /** The body of the second loop: the maximum goes behind the heap, and the rest is sifted. */
  method PopMax(a: array<Text>, lastIdx: nat)
    requires lastIdx < a.Length <= 0x7FFF_FFFF && Heap(a[..], 0, lastIdx + 1) && Parted(a[..], lastIdx + 1)
    modifies a
    ensures Heap(a[..], 0, lastIdx) && Parted(a[..], lastIdx) && multiset(a[..]) == multiset(old(a[..]))
  {
    hide Heap, Parted, AtMost, Less, Wrap32;
    ghost var s := a[..];
    PopStep(s, lastIdx);
    SwapKeeps(s, 0, lastIdx, a.Length);
    a[lastIdx], a[0] := a[0], a[lastIdx];
    ghost var t := a[..];
    assert t == Swapped(s, 0, lastIdx);
    assert t[..a.Length] == t && s[..a.Length] == s;
    DownHeap(a, lastIdx, 0);
    PartedByPermutation(t, a[..], lastIdx);
  }

  /** The elements from n on are sorted and no smaller than any before n. */
  ghost predicate Parted(s: seq<Text>, n: nat)
    requires n <= |s|
  {
    forall i, j | 0 <= i < j < |s| && n <= j :: AtMost(s[i], s[j])
  }

  lemma PopStep(s: seq<Text>, last: nat)
    requires last < |s| && Heap(s, 0, last + 1) && Parted(s, last + 1)
    ensures Parted(Swapped(s, 0, last), last) && Heap(Swapped(s, 0, last), 1, last)
  {
    hide AtMost;
    var t := Swapped(s, 0, last);
    forall i, j | 0 <= i < j < |t| && last <= j
      ensures AtMost(t[i], t[j])
    {
      if j == last {
        RootIsMax(s, last + 1, if i == 0 then last else i);
      }
    }
  }

  lemma PartedByPermutation(t: seq<Text>, u: seq<Text>, n: nat)
    requires n <= |t| && Parted(t, n) && PrefixPermuted(t, u, n)
    ensures Parted(u, n) && multiset(u) == multiset(t)
  {
    hide AtMost;
    forall i, j | 0 <= i < j < |u| && n <= j
      ensures AtMost(u[i], u[j])
    {
      assert u[j] == u[n..][j - n] == t[j];
      if i < n {
        assert u[..n][i] in multiset(u[..n]);
        var k :| 0 <= k < n && t[..n][k] == u[i];
        assert AtMost(t[k], t[j]);
      } else {
        assert u[i] == u[n..][i - n] == t[i];
      }
    }
    assert u == u[..n] + u[n..] && t == t[..n] + t[n..];
  }
}
