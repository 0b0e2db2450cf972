/** The order the IR sorters establish: by block, and by original position within
    a block. Facts about index sequences, independent of how they are permuted. */
module IrOrder {

  const NOP_BLOCK := 0x7fff_ffff

  /** Position a comes before position b in the sorted IR. */
  predicate Less(keys: seq<nat>, a: nat, b: nat) {
    a < |keys| && b < |keys| && (keys[a] < keys[b] || (keys[a] == keys[b] && a < b))
  }

  ghost predicate InRange(keys: seq<nat>, s: seq<nat>) {
    forall i :: 0 <= i < |s| ==> s[i] < |keys|
  }

  ghost predicate Sorted(keys: seq<nat>, s: seq<nat>) {
    forall i, j :: 0 <= i < j < |s| ==> Less(keys, s[i], s[j])
  }

  /** Positions of one block appear in increasing order. */
  ghost predicate Ascends(keys: seq<nat>, s: seq<nat>) {
    InRange(keys, s) && forall i, j :: 0 <= i < j < |s| && keys[s[i]] == keys[s[j]] ==> s[i] < s[j]
  }

  ghost predicate AllLess(keys: seq<nat>, s: seq<nat>, t: seq<nat>) {
    forall x, y :: x in s && y in t ==> Less(keys, x, y)
  }

  /** Where blocks are equal, everything in s is before everything in t. */
  ghost predicate Cross(keys: seq<nat>, s: seq<nat>, t: seq<nat>) {
    forall x, y :: x in s && y in t ==> x < |keys| && y < |keys| && (keys[x] == keys[y] ==> x < y)
  }

  lemma SortedConcat(keys: seq<nat>, s: seq<nat>, t: seq<nat>)
    requires Sorted(keys, s) && Sorted(keys, t) && AllLess(keys, s, t)
    ensures Sorted(keys, s + t)
  {
    forall i, j | 0 <= i < j < |s + t| ensures Less(keys, (s + t)[i], (s + t)[j]) {
      if i < |s| <= j {
        assert s[i] in s && t[j - |s|] in t;
      }
    }
  }

  lemma SortedSplit(keys: seq<nat>, s: seq<nat>, k: nat)
    requires Sorted(keys, s) && k <= |s|
    ensures Sorted(keys, s[..k]) && Sorted(keys, s[k..]) && AllLess(keys, s[..k], s[k..])
  {
    forall x, y | x in s[..k] && y in s[k..] ensures Less(keys, x, y) {
      var i :| 0 <= i < k && s[i] == x;
      var j :| 0 <= j < |s| - k && s[k..][j] == y;
      assert s[k + j] == y;
    }
  }

  lemma MultisetMembers(s: seq<nat>, t: seq<nat>)
    requires multiset(s) == multiset(t)
    ensures forall x :: x in s <==> x in t
    ensures |s| == |t|
  {
    assert |multiset(s)| == |s| && |multiset(t)| == |t|;
    forall x ensures x in s <==> x in t {
      assert x in s <==> x in multiset(s);
      assert x in t <==> x in multiset(t);
    }
  }

  lemma SameHead(keys: seq<nat>, s: seq<nat>, t: seq<nat>)
    requires Sorted(keys, s) && Sorted(keys, t) && s != [] && t != []
    requires s[0] in t && t[0] in s
    ensures s[0] == t[0]
  {
    var i :| 0 <= i < |t| && t[i] == s[0];
    var j :| 0 <= j < |s| && s[j] == t[0];
    assert 0 < i ==> Less(keys, t[0], t[i]);
    assert 0 < j ==> Less(keys, s[0], s[j]);
  }

  lemma DropHead(s: seq<nat>)
    requires s != []
    ensures multiset(s[1..]) == multiset(s) - multiset{s[0]}
  {
    assert s == [s[0]] + s[1..];
  }

  /** A sorted arrangement is unique, so every stable sort gives the same one. */
  lemma {:induction false} SortedUnique(keys: seq<nat>, s: seq<nat>, t: seq<nat>)
    requires Sorted(keys, s) && Sorted(keys, t) && multiset(s) == multiset(t)
    ensures s == t
    decreases |s|
  {
    MultisetMembers(s, t);
    if s != [] {
      SameHead(keys, s, t);
      DropHead(s);
      DropHead(t);
      SortedUnique(keys, s[1..], t[1..]);
      assert s == [s[0]] + s[1..] && t == [t[0]] + t[1..];
    }
  }

  // ----- Adjacent exchanges -----

  function Swapped(s: seq<nat>, i: nat): (r: seq<nat>)
    requires i + 1 < |s|
    ensures |r| == |s|
  {
    s[i := s[i + 1]][i + 1 := s[i]]
  }

  lemma SwapKeepsMultiset(s: seq<nat>, i: nat)
    requires i + 1 < |s|
    ensures multiset(Swapped(s, i)) == multiset(s)
  {
    assert s == s[..i] + [s[i], s[i + 1]] + s[i + 2..];
    assert Swapped(s, i) == s[..i] + [s[i + 1], s[i]] + s[i + 2..];
  }

  lemma SwapKeepsAscends(keys: seq<nat>, s: seq<nat>, i: nat)
    requires Ascends(keys, s) && i + 1 < |s| && keys[s[i]] != keys[s[i + 1]]
    ensures Ascends(keys, Swapped(s, i))
  {
  }

  /** The number of earlier entries with a larger key. */
  function Larger(keys: seq<nat>, s: seq<nat>, x: nat): nat
    requires InRange(keys, s) && x < |keys|
  {
    if s == [] then 0
    else Larger(keys, s[..|s| - 1], x) + (if keys[s[|s| - 1]] > keys[x] then 1 else 0)
  }

  function Inversions(keys: seq<nat>, s: seq<nat>): nat
    requires InRange(keys, s)
  {
    if s == [] then 0
    else Inversions(keys, s[..|s| - 1]) + Larger(keys, s[..|s| - 1], s[|s| - 1])
  }

  lemma {:induction false} LargerSwapped(keys: seq<nat>, s: seq<nat>, x: nat, i: nat)
    requires InRange(keys, s) && x < |keys| && i + 1 < |s|
    ensures InRange(keys, Swapped(s, i)) && Larger(keys, Swapped(s, i), x) == Larger(keys, s, x)
    decreases |s|
  {
    var n := |s|;
    var t := Swapped(s, i);
    if i + 2 == n {
      assert s[..n - 1][..n - 2] == t[..n - 1][..n - 2];
    } else {
      assert t[..n - 1] == Swapped(s[..n - 1], i);
      LargerSwapped(keys, s[..n - 1], x, i);
    }
  }

  lemma LastTwo(keys: seq<nat>, s: seq<nat>)
    requires InRange(keys, s) && |s| >= 2
    ensures var p, a, b := s[..|s| - 2], s[|s| - 2], s[|s| - 1];
      Inversions(keys, s) == Inversions(keys, p) + Larger(keys, p, a) + Larger(keys, p, b) + (if keys[a] > keys[b] then 1 else 0)
  {
    assert s[..|s| - 1][..|s| - 2] == s[..|s| - 2];
  }

  /** Exchanging neighbours that are out of order removes exactly one inversion. */
  lemma {:induction false} SwapRemovesInversion(keys: seq<nat>, s: seq<nat>, i: nat)
    requires InRange(keys, s) && i + 1 < |s| && keys[s[i + 1]] < keys[s[i]]
    ensures InRange(keys, Swapped(s, i)) && Inversions(keys, Swapped(s, i)) == Inversions(keys, s) - 1
    decreases |s|
  {
    var n := |s|;
    var t := Swapped(s, i);
    if i + 2 == n {
      assert s[..n - 2] == t[..n - 2];
      LastTwo(keys, s);
      LastTwo(keys, t);
    } else {
      assert t[..n - 1] == Swapped(s[..n - 1], i);
      SwapRemovesInversion(keys, s[..n - 1], i);
      LargerSwapped(keys, s[..n - 1], s[n - 1], i);
    }
  }

  // ----- Rotation -----

  /** s with the stretch from..to (inclusive) mirrored. */
  function Mirror(s: seq<nat>, from: nat, to: int): (r: seq<nat>)
    requires from <= to + 1 <= |s|
    ensures |r| == |s|
  {
    seq(|s|, k requires 0 <= k < |s| => if from <= k <= to then s[from + to - k] else s[k])
  }

  /** Mirroring both halves and then the whole exchanges the halves. */
  lemma ThreeMirrors(s: seq<nat>, from: nat, mid: nat, to: nat)
    requires from <= mid <= to <= |s|
    ensures Mirror(Mirror(Mirror(s, from, mid - 1), mid, to - 1), from, to - 1)
         == s[..from] + s[mid..to] + s[from..mid] + s[to..]
  {
    var a := Mirror(s, from, mid - 1);
    var b := Mirror(a, mid, to - 1);
    var c := Mirror(b, from, to - 1);
    var t := s[..from] + s[mid..to] + s[from..mid] + s[to..];
    forall k | 0 <= k < |s| ensures c[k] == t[k] {
      MirrorAt(b, from, to - 1, k);
      var m := if from <= k < to then from + to - 1 - k else k;
      MirrorAt(a, mid, to - 1, m);
      MirrorAt(s, from, mid - 1, if mid <= m < to then mid + to - 1 - m else m);
    }
  }

  lemma MirrorAt(s: seq<nat>, from: nat, to: int, k: nat)
    requires from <= to + 1 <= |s| && k < |s|
    ensures Mirror(s, from, to)[k] == if from <= k <= to then s[from + to - k] else s[k]
  {
  }

  // ----- Merging -----

  /** Keys of s are at most (or below) the key k. */
  ghost predicate KeysUpTo(keys: seq<nat>, s: seq<nat>, k: nat, strict: bool) {
    forall x :: x in s ==> x < |keys| && (if strict then keys[x] < k else keys[x] <= k)
  }

  ghost predicate KeysFrom(keys: seq<nat>, s: seq<nat>, k: nat, strict: bool) {
    forall x :: x in s ==> x < |keys| && (if strict then keys[x] > k else keys[x] >= k)
  }

  /** Two runs cut around a key: what goes left is before what goes right. The key
      belongs to the right part of the first run (`lower` cut of the second) or of
      the second run (`upper` cut of the first). */
  lemma CutSeparates(keys: seq<nat>, a1: seq<nat>, a2: seq<nat>, b1: seq<nat>, b2: seq<nat>, k: nat, first: bool)
    requires Sorted(keys, a1 + a2) && Sorted(keys, b1 + b2) && Cross(keys, a1 + a2, b1 + b2)
    requires KeysUpTo(keys, a1, k, false) && KeysFrom(keys, a2, k, !first)
    requires KeysUpTo(keys, b1, k, first) && KeysFrom(keys, b2, k, false)
    ensures AllLess(keys, a1 + b1, a2 + b2)
  {
    assert (a1 + a2)[..|a1|] == a1 && (a1 + a2)[|a1|..] == a2;
    assert (b1 + b2)[..|b1|] == b1 && (b1 + b2)[|b1|..] == b2;
    SortedSplit(keys, a1 + a2, |a1|);
    SortedSplit(keys, b1 + b2, |b1|);
    forall x, y | x in a1 + b1 && y in a2 + b2 ensures Less(keys, x, y) {
      assert x in a1 ==> x in a1 + a2;
      assert y in b2 ==> y in b1 + b2;
    }
  }

  /** Two pairs of runs, each ready to be merged, all of one before all of the other. */
  ghost predicate TwoMerges(keys: seq<nat>, a1: seq<nat>, b1: seq<nat>, a2: seq<nat>, b2: seq<nat>) {
    && Sorted(keys, a1) && Sorted(keys, b1) && Cross(keys, a1, b1)
    && Sorted(keys, a2) && Sorted(keys, b2) && Cross(keys, a2, b2)
    && AllLess(keys, a1 + b1, a2 + b2)
  }

  lemma CutMerges(keys: seq<nat>, a1: seq<nat>, a2: seq<nat>, b1: seq<nat>, b2: seq<nat>, k: nat, first: bool)
    requires Sorted(keys, a1 + a2) && Sorted(keys, b1 + b2) && Cross(keys, a1 + a2, b1 + b2)
    requires KeysUpTo(keys, a1, k, false) && KeysFrom(keys, a2, k, !first)
    requires KeysUpTo(keys, b1, k, first) && KeysFrom(keys, b2, k, false)
    ensures TwoMerges(keys, a1, b1, a2, b2)
  {
    CutSeparates(keys, a1, a2, b1, b2, k, first);
    assert (a1 + a2)[..|a1|] == a1 && (a1 + a2)[|a1|..] == a2;
    assert (b1 + b2)[..|b1|] == b1 && (b1 + b2)[|b1|..] == b2;
    SortedSplit(keys, a1 + a2, |a1|);
    SortedSplit(keys, b1 + b2, |b1|);
    assert forall x :: x in a1 ==> x in a1 + a2;
    assert forall x :: x in a2 ==> x in a1 + a2;
    assert forall x :: x in b1 ==> x in b1 + b2;
    assert forall x :: x in b2 ==> x in b1 + b2;
  }

  /** Sorting each side of a separated split sorts the whole. */
  lemma MergedHalves(keys: seq<nat>, l: seq<nat>, r: seq<nat>, l0: seq<nat>, r0: seq<nat>)
    requires Sorted(keys, l) && Sorted(keys, r) && AllLess(keys, l0, r0)
    requires multiset(l) == multiset(l0) && multiset(r) == multiset(r0)
    ensures Sorted(keys, l + r) && multiset(l + r) == multiset(l0 + r0)
  {
    MultisetMembers(l, l0);
    MultisetMembers(r, r0);
    SortedConcat(keys, l, r);
  }

  // ----- Rearranging a stretch -----

  /** t is s with the stretch [from, to) rearranged. */
  ghost predicate Rearranged(s: seq<nat>, t: seq<nat>, from: nat, to: nat) {
    && from <= to <= |s| == |t|
    && multiset(s[from..to]) == multiset(t[from..to])
    && s[..from] == t[..from] && s[to..] == t[to..]
  }

  lemma RearrangedTransitive(s: seq<nat>, t: seq<nat>, u: seq<nat>, from: nat, to: nat)
    requires Rearranged(s, t, from, to) && Rearranged(t, u, from, to)
    ensures Rearranged(s, u, from, to)
  {
  }

  lemma RearrangedWider(s: seq<nat>, t: seq<nat>, i: nat, j: nat, from: nat, to: nat)
    requires Rearranged(s, t, i, j) && from <= i && j <= to <= |s|
    ensures Rearranged(s, t, from, to)
  {
    Unchanged(s, t, i, j);
    assert s[from..to] == s[from..i] + s[i..j] + s[j..to];
    assert t[from..to] == t[from..i] + t[i..j] + t[j..to];
    assert s[from..i] == t[from..i] && s[j..to] == t[j..to];
  }

  lemma Unchanged(s: seq<nat>, t: seq<nat>, from: nat, to: nat)
    requires Rearranged(s, t, from, to)
    ensures |s| == |t|
    ensures forall k :: 0 <= k < |s| && !(from <= k < to) ==> s[k] == t[k]
  {
    assert forall k :: 0 <= k < from ==> s[k] == s[..from][k] == t[..from][k] == t[k];
    assert forall k :: to <= k < |s| ==> s[k] == s[to..][k - to] == t[to..][k - to] == t[k];
  }

  lemma UnchangedSlice(s: seq<nat>, t: seq<nat>, from: nat, to: nat, i: nat, j: nat)
    requires Rearranged(s, t, from, to) && i <= j <= |s| && (j <= from || to <= i)
    ensures |s| == |t| && s[i..j] == t[i..j]
  {
    Unchanged(s, t, from, to);
  }

  /** The halves of a stretch, each sorted by itself, are sorted together. */
  lemma BothMerged(keys: seq<nat>, was: seq<nat>, half: seq<nat>, done: seq<nat>, from: nat, mid: nat, to: nat)
    requires Rearranged(was, half, from, mid) && Sorted(keys, half[from..mid])
    requires Rearranged(half, done, mid, to) && Sorted(keys, done[mid..to])
    requires AllLess(keys, was[from..mid], was[mid..to])
    ensures Rearranged(was, done, from, to) && Sorted(keys, done[from..to])
  {
    RearrangedWider(was, half, from, mid, from, to);
    RearrangedWider(half, done, mid, to, from, to);
    RearrangedTransitive(was, half, done, from, to);
    UnchangedSlice(was, half, from, mid, mid, to);
    UnchangedSlice(half, done, mid, to, from, mid);
    MergedHalves(keys, done[from..mid], done[mid..to], was[from..mid], was[mid..to]);
    assert done[from..to] == done[from..mid] + done[mid..to];
  }

  lemma RearrangedRefl(s: seq<nat>, from: nat, to: nat)
    requires from <= to <= |s|
    ensures Rearranged(s, s, from, to)
  {
  }

  // ----- Insertion and halving -----

  /** s with the entry at i moved down to j. */
  function Moved(s: seq<nat>, j: nat, i: nat): (r: seq<nat>)
    requires j <= i < |s|
    ensures |r| == |s|
  {
    s[..j] + [s[i]] + s[j..i] + s[i + 1..]
  }

  lemma MovedAt(s: seq<nat>, j: nat, i: nat)
    requires j <= i < |s|
    ensures Moved(s, j, i)[j] == s[i]
    ensures forall k :: 0 <= k < j ==> Moved(s, j, i)[k] == s[k]
  {
  }

  lemma MovedStep(s: seq<nat>, j: nat, i: nat, t: seq<nat>)
    requires 1 <= j <= i < |s| && |t| == |s|
    requires t[j] == Moved(s, j, i)[j - 1] && t[j - 1] == Moved(s, j, i)[j]
    requires forall k :: 0 <= k < |s| && k != j && k != j - 1 ==> t[k] == Moved(s, j, i)[k]
    ensures t == Moved(s, j - 1, i)
  {
  }

  lemma MovedSlice(s: seq<nat>, from: nat, j: nat, i: nat)
    requires from <= j <= i < |s|
    ensures Moved(s, j, i)[from..i + 1] == s[from..j] + [s[i]] + s[j..i]
    ensures Rearranged(s, Moved(s, j, i), from, i + 1)
  {
    var t := Moved(s, j, i);
    assert t[from..i + 1] == s[from..j] + [s[i]] + s[j..i];
    assert s[from..i + 1] == s[from..j] + s[j..i] + [s[i]];
  }

  /** An entry put between the keys it does not precede and those it does. */
  lemma InsertSorted(keys: seq<nat>, a: seq<nat>, v: nat, b: seq<nat>)
    requires Sorted(keys, a) && Sorted(keys, b) && AllLess(keys, a, b) && v < |keys|
    requires Cross(keys, a, [v]) && InRange(keys, b)
    requires a != [] ==> a[|a| - 1] < |keys| && keys[a[|a| - 1]] <= keys[v]
    requires forall k :: 0 <= k < |b| ==> keys[v] < keys[b[k]]
    ensures Sorted(keys, a + [v] + b)
  {
    assert AllLess(keys, a, [v]) by {
      forall x | x in a ensures Less(keys, x, v) {
        assert v in [v];
        var k :| 0 <= k < |a| && a[k] == x;
        assert k < |a| - 1 ==> Less(keys, a[k], a[|a| - 1]);
      }
    }
    SortedConcat(keys, a, [v]);
    SortedConcat(keys, a + [v], b);
  }

  lemma SplitSlice(s: seq<nat>, from: nat, j: nat, i: nat)
    requires from <= j <= i <= |s|
    ensures s[from..i][..j - from] == s[from..j] && s[from..i][j - from..] == s[j..i]
  {
  }

  lemma CrossPrefix(keys: seq<nat>, s: seq<nat>, k: nat, t: seq<nat>)
    requires Cross(keys, s, t) && k <= |s|
    ensures Cross(keys, s[..k], t)
  {
    assert forall x :: x in s[..k] ==> x in s;
  }

  /** Moving an entry below exactly the larger keys keeps the stretch sorted. */
  lemma SunkSorted(keys: seq<nat>, s: seq<nat>, from: nat, j: nat, i: nat)
    requires InRange(keys, s) && from <= j <= i < |s|
    requires Sorted(keys, s[from..i]) && Cross(keys, s[from..i], [s[i]])
    requires forall k :: j <= k < i ==> keys[s[i]] < keys[s[k]]
    requires j > from ==> keys[s[j - 1]] <= keys[s[i]]
    ensures Sorted(keys, Moved(s, j, i)[from..i + 1]) && Rearranged(s, Moved(s, j, i), from, i + 1)
  {
    hide Sorted, AllLess, Rearranged, Moved, Cross;
    var r := s[from..i];
    SortedSplit(keys, r, j - from);
    CrossPrefix(keys, r, j - from, [s[i]]);
    SplitSlice(s, from, j, i);
    InsertSorted(keys, s[from..j], s[i], s[j..i]);
    MovedSlice(s, from, j, i);
  }

  lemma AscendsParts(keys: seq<nat>, a: seq<nat>, b: seq<nat>, r: seq<nat>)
    requires r == a + b && Ascends(keys, r)
    ensures Ascends(keys, a) && Ascends(keys, b) && Cross(keys, a, b)
  {
    assert forall k :: 0 <= k < |a| ==> r[k] == a[k];
    assert forall k :: 0 <= k < |b| ==> r[|a| + k] == b[k];
    forall x, y | x in a && y in b ensures x < |keys| && y < |keys| && (keys[x] == keys[y] ==> x < y) {
      var i :| 0 <= i < |a| && a[i] == x;
      var j :| 0 <= j < |b| && b[j] == y;
      assert r[i] == x && r[|a| + j] == y;
    }
  }

  lemma AscendsSplit(keys: seq<nat>, s: seq<nat>, from: nat, mid: nat, to: nat)
    requires from <= mid <= to <= |s| && Ascends(keys, s[from..to])
    ensures Ascends(keys, s[from..mid]) && Ascends(keys, s[mid..to]) && Cross(keys, s[from..mid], s[mid..to])
  {
    var r := s[from..to];
    assert s[from..mid] == r[..mid - from] && s[mid..to] == r[mid - from..];
    AscendsParts(keys, r[..mid - from], r[mid - from..], r);
  }

  /** What holds across two stretches still holds once each is rearranged. */
  lemma CrossMembers(keys: seq<nat>, a: seq<nat>, b: seq<nat>, a': seq<nat>, b': seq<nat>)
    requires Cross(keys, a, b) && multiset(a) == multiset(a') && multiset(b) == multiset(b')
    ensures Cross(keys, a', b')
  {
    MultisetMembers(a, a');
    MultisetMembers(b, b');
  }

  lemma CrossRearranged(keys: seq<nat>, s: seq<nat>, t: seq<nat>, u: seq<nat>, from: nat, mid: nat, to: nat)
    requires Rearranged(s, t, from, mid) && Rearranged(t, u, mid, to) && Cross(keys, s[from..mid], s[mid..to])
    ensures |u| == |s| && Cross(keys, u[from..mid], u[mid..to])
  {
    UnchangedSlice(s, t, from, mid, mid, to);
    UnchangedSlice(t, u, mid, to, from, mid);
    CrossMembers(keys, s[from..mid], s[mid..to], u[from..mid], u[mid..to]);
  }

  lemma NextCross(keys: seq<nat>, s: seq<nat>, t: seq<nat>, from: nat, i: nat, to: nat)
    requires from <= i < to <= |s| && Ascends(keys, s[from..to]) && Rearranged(s, t, from, i)
    ensures |t| == |s| && Cross(keys, t[from..i], [t[i]])
  {
    AscendsSplit(keys, s, from, i, to);
    Unchanged(s, t, from, i);
    assert s[i] in s[i..to] by {
      assert s[i..to][0] == s[i];
    }
    MultisetMembers(s[from..i], t[from..i]);
  }

  // ----- The reference: a stable sort on values -----

  /** v put after every entry whose key is not larger. */
  function Place(keys: seq<nat>, s: seq<nat>, v: nat): (r: seq<nat>)
    requires InRange(keys, s) && v < |keys|
    ensures multiset(r) == multiset(s) + multiset{v} && InRange(keys, r)
  {
    if s == [] then [v] else
      var last := s[|s| - 1];
      assert s == s[..|s| - 1] + [last];
      if keys[last] <= keys[v] then s + [v] else Place(keys, s[..|s| - 1], v) + [last]
  }

  function StableSort(keys: seq<nat>, s: seq<nat>): (r: seq<nat>)
    requires InRange(keys, s)
    ensures multiset(r) == multiset(s) && InRange(keys, r)
  {
    if s == [] then [] else
      assert s == s[..|s| - 1] + [s[|s| - 1]];
      Place(keys, StableSort(keys, s[..|s| - 1]), s[|s| - 1])
  }

  lemma {:induction false} PlaceSorted(keys: seq<nat>, s: seq<nat>, v: nat)
    requires InRange(keys, s) && v < |keys| && Sorted(keys, s) && Cross(keys, s, [v])
    ensures Sorted(keys, Place(keys, s, v))
  {
    if s != [] {
      var init, last := s[..|s| - 1], s[|s| - 1];
      SortedSplit(keys, s, |s| - 1);
      CrossPrefix(keys, s, |s| - 1, [v]);
      if keys[last] <= keys[v] {
        InsertSorted(keys, s, v, []);
        assert s + [v] + [] == s + [v];
      } else {
        PlaceSorted(keys, init, v);
        PlaceBelow(keys, init, v, last);
        SortedConcat(keys, Place(keys, init, v), [last]);
      }
    }
  }

  lemma PlaceBelow(keys: seq<nat>, s: seq<nat>, v: nat, last: nat)
    requires InRange(keys, s) && v < |keys| && last < |keys| && keys[v] < keys[last]
    requires AllLess(keys, s, [last])
    ensures AllLess(keys, Place(keys, s, v), [last])
  {
    forall x | x in Place(keys, s, v) ensures Less(keys, x, last) {
      assert x in multiset(Place(keys, s, v));
      assert x in s || x == v;
      assert last in [last];
    }
  }

  lemma {:induction false} StableSortSorted(keys: seq<nat>, s: seq<nat>)
    requires Ascends(keys, s)
    ensures Sorted(keys, StableSort(keys, s))
    decreases |s|
  {
    if s != [] {
      var init := s[..|s| - 1];
      StableSortSorted(keys, init);
      AscendsSplit(keys, s, 0, |s| - 1, |s|);
      assert s[0..|s|] == s && s[0..|s| - 1] == init && s[|s| - 1..|s|] == [s[|s| - 1]];
      CrossMembers(keys, init, [s[|s| - 1]], StableSort(keys, init), [s[|s| - 1]]);
      PlaceSorted(keys, StableSort(keys, init), s[|s| - 1]);
    }
  }

  /** Any sorted rearrangement is the reference one. */
  lemma SortedIsStable(keys: seq<nat>, s: seq<nat>, t: seq<nat>)
    requires Ascends(keys, s) && Sorted(keys, t) && multiset(t) == multiset(s)
    ensures t == StableSort(keys, s)
  {
    StableSortSorted(keys, s);
    SortedUnique(keys, t, StableSort(keys, s));
  }

  // ----- Picking out positions -----

  /** The entries of s that belong to block b, in order. */
  function Members(keys: seq<nat>, s: seq<nat>, b: nat): (r: seq<nat>)
    requires InRange(keys, s)
    ensures InRange(keys, r)
  {
    if s == [] then [] else
      Members(keys, s[..|s| - 1], b) + (if keys[s[|s| - 1]] == b then [s[|s| - 1]] else [])
  }

  lemma {:induction false} MembersCount(keys: seq<nat>, s: seq<nat>, b: nat, x: nat)
    requires InRange(keys, s)
    ensures multiset(Members(keys, s, b))[x] == if x < |keys| && keys[x] == b then multiset(s)[x] else 0
    decreases |s|
  {
    if s != [] {
      MembersCount(keys, s[..|s| - 1], b, x);
      assert s == s[..|s| - 1] + [s[|s| - 1]];
    }
  }
}
