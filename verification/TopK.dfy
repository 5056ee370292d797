/**
 The bounded min-heap that keeps the best candidates (scoredHeap in
 internal/controlplane/scheduler.go) with the sifting of Go's container/heap.
 */
module TopK {
  import opened GoText

  datatype Scored<T> = Scored(item: T, score: real)

  // ---------- Heap order ----------

  function Parent(j: int): int { (j - 1) / 2 }

  ghost predicate Ordered<T>(s: seq<Scored<T>>) {
    forall j | 1 <= j < |s| :: s[Parent(j)].score <= s[j].score
  }

  // Order except between j and its parent; j's children are not below its parent.
  ghost predicate OrderedBut<T>(s: seq<Scored<T>>, j: int) {
    && (forall c | 1 <= c < |s| && c != j :: s[Parent(c)].score <= s[c].score)
    && (forall c | 1 <= c < |s| && Parent(c) == j && 1 <= j < |s| :: s[Parent(j)].score <= s[c].score)
  }

  // Order in the first n, except between i and its children, which are not below its parent.
  ghost predicate OrderedUnder<T>(s: seq<Scored<T>>, n: int, i: int) {
    && 0 <= n <= |s|
    && (forall c | 1 <= c < n && Parent(c) != i :: s[Parent(c)].score <= s[c].score)
    && (forall c | 1 <= c < n && Parent(c) == i && 1 <= i :: s[Parent(i)].score <= s[c].score)
  }

  function Swapped<T>(s: seq<Scored<T>>, i: int, j: int): seq<Scored<T>>
    requires 0 <= i < |s| && 0 <= j < |s|
  {
    s[i := s[j]][j := s[i]]
  }

  ghost predicate Permutes<T>(a: seq<Scored<T>>, b: seq<Scored<T>>) {
    multiset(a) == multiset(b)
  }

  lemma SwapPermutes<T>(s: seq<Scored<T>>, i: int, j: int)
    requires 0 <= i < |s| && 0 <= j < |s|
    ensures Permutes(Swapped(s, i, j), s)
  {
  }

  // s is s0 rearranged within its first n.
  ghost predicate Sifted<T>(s0: seq<Scored<T>>, s: seq<Scored<T>>, n: int) {
    |s| == |s0| && 0 <= n <= |s| && s[n..] == s0[n..] && Permutes(s, s0)
  }

  lemma SwapSifts<T>(s0: seq<Scored<T>>, s: seq<Scored<T>>, n: int, i: int, j: int)
    requires Sifted(s0, s, n) && 0 <= i < n && 0 <= j < n
    ensures Sifted(s0, Swapped(s, i, j), n)
  {
    SwapPermutes(s, i, j);
  }

  lemma UpStep<T>(s: seq<Scored<T>>, j: int)
    requires 1 <= j < |s| && OrderedBut(s, j) && s[j].score < s[Parent(j)].score
    ensures OrderedBut(Swapped(s, Parent(j), j), Parent(j))
  {
    var i, t := Parent(j), Swapped(s, Parent(j), j);
    forall c | 1 <= c < |t| && c != i ensures t[Parent(c)].score <= t[c].score {
      if c != j && Parent(c) == i {
        assert s[i].score <= s[c].score;
      }
    }
    forall c | 1 <= c < |t| && Parent(c) == i && 1 <= i ensures t[Parent(i)].score <= t[c].score {
      assert s[Parent(i)].score <= s[i].score;
      assert c != j ==> s[i].score <= s[c].score;
    }
  }

  // j is the lesser child of i within the first n.
  predicate LesserChild<T>(s: seq<Scored<T>>, n: int, i: int, j: int) {
    && 0 <= i && n <= |s| && j < n && (j == 2 * i + 1 || j == 2 * i + 2)
    && (2 * i + 1 < n ==> s[j].score <= s[2 * i + 1].score)
    && (2 * i + 2 < n ==> s[j].score <= s[2 * i + 2].score)
  }

  lemma DownStep<T>(s: seq<Scored<T>>, n: int, i: int, j: int)
    requires OrderedUnder(s, n, i) && LesserChild(s, n, i, j) && s[j].score < s[i].score
    ensures OrderedUnder(Swapped(s, i, j), n, j)
  {
    var t := Swapped(s, i, j);
    forall c | 1 <= c < n && Parent(c) != j ensures t[Parent(c)].score <= t[c].score {
      if Parent(c) == i {
        assert c == 2 * i + 1 || c == 2 * i + 2;
      }
    }
    forall c | 1 <= c < n && Parent(c) == j ensures t[Parent(j)].score <= t[c].score {
      assert s[j].score <= s[c].score;
    }
  }

  lemma DownStops<T>(s: seq<Scored<T>>, n: int, i: int, j: int)
    requires OrderedUnder(s, n, i) && LesserChild(s, n, i, j) && s[i].score <= s[j].score
    ensures OrderedUnder(s, n, n)
  {
    forall c | 1 <= c < n ensures s[Parent(c)].score <= s[c].score {
      if Parent(c) == i {
        assert c == 2 * i + 1 || c == 2 * i + 2;
      }
    }
  }

  lemma {:induction false} RootIsLeast<T>(s: seq<Scored<T>>, k: nat)
    requires Ordered(s) && k < |s|
    ensures s[0].score <= s[k].score
  {
    if k > 0 {
      RootIsLeast(s, Parent(k));
    }
  }

  lemma LeastOf<T>(s: seq<Scored<T>>)
    requires Ordered(s)
    ensures forall y | y in multiset(s) :: s[0].score <= y.score
  {
    forall y | y in multiset(s) ensures s[0].score <= y.score {
      var k :| 0 <= k < |s| && s[k] == y;
      RootIsLeast(s, k);
    }
  }

  // Storing at the root leaves order everywhere but just below it.
  lemma ReplaceRoot<T>(s: seq<Scored<T>>, x: Scored<T>)
    requires Ordered(s) && s != []
    ensures OrderedUnder(s[0 := x], |s|, 0)
    ensures multiset(s[0 := x]) == multiset(s) - multiset{s[0]} + multiset{x}
  {
  }

  // ---------- The best k ----------

  /** kept is a selection of `offered` of size k, or all of it, and nothing left out scores above
      anything kept. */
  ghost predicate IsTopK<T>(kept: multiset<Scored<T>>, offered: multiset<Scored<T>>, k: nat) {
    && kept <= offered && |kept| == Min(k, |offered|)
    && forall x, y | x in kept && y in offered - kept :: y.score <= x.score
  }

  lemma KeepsAll<T>(kept: multiset<Scored<T>>, offered: multiset<Scored<T>>, k: nat, x: Scored<T>)
    requires IsTopK(kept, offered, k) && |kept| < k
    ensures IsTopK(kept + multiset{x}, offered + multiset{x}, k)
  {
    SameSize(kept, offered);
    assert offered + multiset{x} - (kept + multiset{x}) == multiset{};
  }

  lemma SameSize<T>(a: multiset<T>, b: multiset<T>)
    requires a <= b && |a| == |b|
    ensures a == b
  {
    assert b == a + (b - a);
    assert |b - a| == 0;
  }

  lemma Replaces<T>(kept: multiset<Scored<T>>, offered: multiset<Scored<T>>, k: nat, least: Scored<T>, x: Scored<T>)
    requires IsTopK(kept, offered, k) && least in kept && least.score <= x.score
    requires (forall y | y in kept :: least.score <= y.score) && |kept| == k
    ensures IsTopK(kept - multiset{least} + multiset{x}, offered + multiset{x}, k)
  {
    var kept', offered' := kept - multiset{least} + multiset{x}, offered + multiset{x};
    assert offered' - kept' == offered - kept + multiset{least};
  }

  lemma TurnsAway<T>(kept: multiset<Scored<T>>, offered: multiset<Scored<T>>, k: nat, x: Scored<T>)
    requires IsTopK(kept, offered, k) && |kept| == k
    requires forall y | y in kept :: x.score <= y.score
    ensures IsTopK(kept, offered + multiset{x}, k)
  {
    assert offered + multiset{x} - kept == offered - kept + multiset{x};
  }

  // What Push does to the heap's contents.
  ghost predicate Taken<T>(s: seq<Scored<T>>, s': seq<Scored<T>>, k: nat, x: Scored<T>) {
    if |s| < k then multiset(s') == multiset(s) + multiset{x}
    else if s != [] && x.score > s[0].score then multiset(s') == multiset(s) - multiset{s[0]} + multiset{x}
    else s' == s
  }

  /** If the heap held the best k of all offers so far, then after one more offer it does again. */
  lemma PushKeepsBest<T>(s: seq<Scored<T>>, s': seq<Scored<T>>, offered: multiset<Scored<T>>, k: nat, x: Scored<T>)
    requires Ordered(s) && IsTopK(multiset(s), offered, k) && Taken(s, s', k, x)
    ensures IsTopK(multiset(s'), offered + multiset{x}, k)
  {
    if |s| < k {
      KeepsAll(multiset(s), offered, k, x);
    } else if s != [] && x.score > s[0].score {
      LeastOf(s);
      Replaces(multiset(s), offered, k, s[0], x);
    } else {
      LeastOf(s);
      TurnsAway(multiset(s), offered, k, x);
    }
  }

  class ScoredHeap<T(==)> {
    var nodes: seq<Scored<T>>
    var max: int

    constructor (max: int)
      ensures nodes == [] && this.max == max
    {
      nodes := [];
      this.max := max;
    }

    // heap.up
    method Up(start: int)
      requires 0 <= start < |nodes| && OrderedBut(nodes, start)
      modifies this`nodes
      ensures Ordered(nodes) && Permutes(nodes, old(nodes))
    {
      var j := start;
      while true
        invariant 0 <= j < |nodes| && OrderedBut(nodes, j)
        invariant Permutes(nodes, old(nodes))
        decreases j
      {
        var i := if j == 0 then 0 else Parent(j);
        if i == j || !(nodes[j].score < nodes[i].score) {
          break;
        }
        SwapPermutes(nodes, i, j);
        UpStep(nodes, j);
        nodes := Swapped(nodes, i, j);
        j := i;
      }
    }

    // heap.down over the first n
    method Down(start: int, n: int)
      requires 0 <= start && 0 <= n <= |nodes| && OrderedUnder(nodes, n, start)
      modifies this`nodes
      ensures OrderedUnder(nodes, n, n) && Sifted(old(nodes), nodes, n)
    {
      var i := start;
      while 2 * i + 1 < n
        invariant 0 <= i && OrderedUnder(nodes, n, i) && Sifted(old(nodes), nodes, n)
        decreases n - i
      {
        var j := 2 * i + 1;
        if j + 1 < n && nodes[j + 1].score < nodes[j].score {
          j := j + 1;
        }
        if !(nodes[j].score < nodes[i].score) {
          DownStops(nodes, n, i, j);
          return;
        }
        SwapSifts(old(nodes), nodes, n, i, j);
        DownStep(nodes, n, i, j);
        nodes := Swapped(nodes, i, j);
        i := j;
      }
      assert forall c | 1 <= c < n :: Parent(c) != i;
    }

    // heap.Pop
    method Pop() returns (x: Scored<T>)
      requires nodes != [] && Ordered(nodes)
      modifies this`nodes
      ensures Ordered(nodes) && Permutes(old(nodes), nodes + [x])
      ensures |nodes| == |old(nodes)| - 1 && x == old(nodes)[0]
    {
      var n := |nodes| - 1;
      SwapPermutes(nodes, 0, n);
      nodes := Swapped(nodes, 0, n);
      Down(0, n);
      x := nodes[n];
      assert nodes[n..] == [x];
      assert nodes == nodes[..n] + [x];
      nodes := nodes[..n];
    }

    /** Offers one node: a heap that is not full takes it, a full one takes it in place of its
        least if it scores above that, and a heap of no capacity takes nothing. */
    method Push(sn: Scored<T>)
      requires Ordered(nodes) && |nodes| <= Max(max, 0)
      modifies this`nodes
      ensures Ordered(nodes) && Taken(old(nodes), nodes, Max(max, 0), sn)
    {
      if max > 0 && |nodes| < max {
        nodes := nodes + [sn];
        Up(|nodes| - 1);
        return;
      }
      if max > 0 && sn.score > nodes[0].score {
        ReplaceRoot(nodes, sn);
        nodes := nodes[0 := sn];
        Down(0, |nodes|);
      }
    }

    /** Empties the heap into a list in ascending order. */
    method Sorted() returns (result: seq<Scored<T>>)
      requires Ordered(nodes)
      modifies this`nodes
      ensures nodes == [] && multiset(result) == multiset(old(nodes))
      ensures forall i, j | 0 <= i < j < |result| :: result[i].score <= result[j].score
    {
      result := [];
      while nodes != []
        invariant Ordered(nodes) && multiset(result) + multiset(nodes) == multiset(old(nodes))
        invariant forall i, j | 0 <= i < j < |result| :: result[i].score <= result[j].score
        invariant forall i, y | 0 <= i < |result| && y in multiset(nodes) :: result[i].score <= y.score
        decreases |nodes|
      {
        ghost var before := nodes;
        LeastOf(before);
        var x := Pop();
        assert multiset(before) == multiset(nodes) + multiset{x};
        result := result + [x];
      }
    }
  }

  // ---------- Ranking a list ----------

  ghost predicate Descending<T>(s: seq<Scored<T>>) {
    forall i, j | 0 <= i < j < |s| :: s[i].score >= s[j].score
  }

  // The loop that reads the sorted list from its end.
  method Backwards<T>(s: seq<T>) returns (r: seq<T>)
    ensures multiset(r) == multiset(s) && |r| == |s|
    ensures forall j | 0 <= j < |r| :: r[j] == s[|s| - 1 - j]
  {
    r := [];
    for i := |s| downto 0
      invariant |r| == |s| - i && forall j | 0 <= j < |r| :: r[j] == s[|s| - 1 - j]
      invariant multiset(r) == multiset(s[i..])
    {
      assert s[i..] == [s[i]] + s[i + 1..];
      r := r + [s[i]];
    }
    assert s[0..] == s;
  }

  // The heap holds the best k of the first n offers.
  ghost predicate HoldsBest<T>(s: seq<Scored<T>>, offers: seq<Scored<T>>, n: nat, k: nat) {
    n <= |offers| && |s| <= k && Ordered(s) && IsTopK(multiset(s), multiset(offers[..n]), k)
  }

  lemma NextOffer<T>(s: seq<Scored<T>>, s': seq<Scored<T>>, offers: seq<Scored<T>>, n: nat, k: nat)
    requires HoldsBest(s, offers, n, k) && n < |offers| && Ordered(s') && Taken(s, s', k, offers[n])
    ensures HoldsBest(s', offers, n + 1, k)
  {
    assert offers[..n + 1] == offers[..n] + [offers[n]];
    PushKeepsBest(s, s', multiset(offers[..n]), k, offers[n]);
    assert |multiset(s')| == |s'|;
  }

  method PushAll<T(==)>(offers: seq<Scored<T>>, k: int) returns (h: ScoredHeap<T>)
    ensures fresh(h) && HoldsBest(h.nodes, offers, |offers|, Max(k, 0))
  {
    h := new ScoredHeap<T>(k);
    var i := 0;
    while i < |offers|
      invariant fresh(h) && h.max == k && i <= |offers|
      invariant HoldsBest(h.nodes, offers, i, Max(k, 0))
    {
      ghost var before := h.nodes;
      h.Push(offers[i]);
      NextOffer(before, h.nodes, offers, i, Max(k, 0));
      i := i + 1;
    }
  }

  /** Pushing a whole list and reading the result backwards gives its best max(k, 0), best first. */
  method Rank<T(==)>(offers: seq<Scored<T>>, k: int) returns (ranked: seq<Scored<T>>)
    ensures IsTopK(multiset(ranked), multiset(offers), Max(k, 0)) && Descending(ranked)
  {
    var h := PushAll(offers, k);
    assert offers[..|offers|] == offers;
    var scored := h.Sorted();
    ranked := Backwards(scored);
  }
}
