/** What NopFilter does to an array of positions: the entries that are not NOPs move up,
    and the NOPs they pass wait behind them in a run that turns. */
module IrNops {
  import BinaryText
  import opened IrOrder

  ghost predicate IsNop(keys: seq<nat>, s: seq<nat>, k: nat) {
    k < |s| && s[k] < |keys| && keys[s[k]] == NOP_BLOCK
  }

  ghost predicate Nops(keys: seq<nat>, s: seq<nat>, from: nat, to: nat) {
    forall k :: from <= k < to ==> IsNop(keys, s, k)
  }

  /** Those of the first n entries that are not NOPs, in order. */
  ghost function Real(keys: seq<nat>, s: seq<nat>, n: nat): (r: seq<nat>)
    requires n <= |s|
    ensures |r| <= n
  {
    if n == 0 then [] else Real(keys, s, n - 1) + if IsNop(keys, s, n - 1) then [] else [s[n - 1]]
  }

  /** Those of the first n entries that are NOPs, in order. */
  ghost function NopsOf(keys: seq<nat>, s: seq<nat>, n: nat): (r: seq<nat>)
    requires n <= |s|
    ensures |r| <= n
  {
    if n == 0 then [] else NopsOf(keys, s, n - 1) + if IsNop(keys, s, n - 1) then [s[n - 1]] else []
  }

  function Rotated(p: seq<nat>): (r: seq<nat>)
    ensures |r| == |p|
  {
    if p == [] then [] else p[1..] + [p[0]]
  }

  /** The NOPs among the first n entries as they wait: a NOP joins at the end, and an entry
      that passes the run turns it by one place. */
  ghost function Pending(keys: seq<nat>, s: seq<nat>, n: nat): (r: seq<nat>)
    requires n <= |s|
    ensures |r| == |NopsOf(keys, s, n)| && |r| + |Real(keys, s, n)| == n
  {
    if n == 0 then [] else
      var p := Pending(keys, s, n - 1);
      if IsNop(keys, s, n - 1) then p + [s[n - 1]] else Rotated(p)
  }

  /** What the filter leaves. */
  ghost function Filtered(keys: seq<nat>, s: seq<nat>): (r: seq<nat>)
    ensures |r| == |s|
  {
    Real(keys, s, |s|) + Pending(keys, s, |s|)
  }

  /** What one more NOP adds. */
  lemma NextNop(keys: seq<nat>, s: seq<nat>, n: nat)
    requires 0 < n <= |s| && IsNop(keys, s, n - 1)
    ensures Pending(keys, s, n) == Pending(keys, s, n - 1) + [s[n - 1]]
    ensures NopsOf(keys, s, n) == NopsOf(keys, s, n - 1) + [s[n - 1]]
    ensures Real(keys, s, n) == Real(keys, s, n - 1)
  {
    assert Real(keys, s, n - 1) + [] == Real(keys, s, n - 1);
  }

  /** What one more entry of another kind adds. */
  lemma NextReal(keys: seq<nat>, s: seq<nat>, n: nat)
    requires 0 < n <= |s| && !IsNop(keys, s, n - 1)
    ensures Pending(keys, s, n) == Rotated(Pending(keys, s, n - 1))
    ensures NopsOf(keys, s, n) == NopsOf(keys, s, n - 1)
    ensures Real(keys, s, n) == Real(keys, s, n - 1) + [s[n - 1]]
  {
    assert NopsOf(keys, s, n - 1) + [] == NopsOf(keys, s, n - 1);
  }

  // ----- The filter's progress -----

  /** d entries of s have been seen: the real ones are in front, the NOPs wait behind. */
  ghost predicate Stage(keys: seq<nat>, s: seq<nat>, t: seq<nat>, slow: nat, d: nat) {
    && slow <= d <= |s| == |t|
    && t[..slow] == Real(keys, s, d) && t[slow..d] == Pending(keys, s, d) && t[d..] == s[d..]
  }

  lemma StageStart(keys: seq<nat>, s: seq<nat>)
    ensures Stage(keys, s, s, 0, 0)
  {
  }

  lemma StageEnd(keys: seq<nat>, s: seq<nat>, t: seq<nat>, slow: nat)
    requires Stage(keys, s, t, slow, |s|)
    ensures t == Filtered(keys, s)
  {
    assert t == t[..slow] + t[slow..|s|];
  }

  lemma StageRest(keys: seq<nat>, s: seq<nat>, t: seq<nat>, slow: nat, d: nat, k: nat)
    requires Stage(keys, s, t, slow, d) && d <= k < |s|
    ensures t[k] == s[k] && IsNop(keys, t, k) == IsNop(keys, s, k)
  {
    assert t[k] == t[d..][k - d] == s[d..][k - d] == s[k];
  }

  /** Another NOP joins the waiting ones. */
  lemma StageNop(keys: seq<nat>, s: seq<nat>, t: seq<nat>, slow: nat, d: nat)
    requires Stage(keys, s, t, slow, d) && d < |s| && IsNop(keys, t, d)
    ensures Stage(keys, s, t, slow, d + 1)
  {
    StageRest(keys, s, t, slow, d, d);
    assert t[slow..d + 1] == t[slow..d] + [s[d]];
    assert Real(keys, s, d) + [] == Real(keys, s, d);
    assert t[d + 1..] == t[d..][1..] && s[d + 1..] == s[d..][1..];
  }

  lemma {:induction false} StageNops(keys: seq<nat>, s: seq<nat>, t: seq<nat>, slow: nat, d: nat, e: nat)
    requires Stage(keys, s, t, slow, d) && d <= e <= |s| && Nops(keys, t, d, e)
    ensures Stage(keys, s, t, slow, e)
    decreases e - d
  {
    if d < e {
      assert IsNop(keys, t, d);
      StageNop(keys, s, t, slow, d);
      StageNops(keys, s, t, slow, d + 1, e);
    }
  }

  /** With no NOP waiting, an entry that is none stays where it is. */
  lemma StageReal(keys: seq<nat>, s: seq<nat>, t: seq<nat>, d: nat)
    requires Stage(keys, s, t, d, d) && d < |s| && !IsNop(keys, t, d)
    ensures Stage(keys, s, t, d + 1, d + 1)
  {
    StageRest(keys, s, t, d, d, d);
    assert t[..d + 1] == t[..d] + [s[d]];
    assert t[d + 1..] == t[d..][1..] && s[d + 1..] == s[d..][1..];
  }

  /** Exchanging the first waiting NOP with the next entry turns the waiting run. */
  lemma StageExchange(keys: seq<nat>, s: seq<nat>, t: seq<nat>, u: seq<nat>, slow: nat, fast: nat)
    requires Stage(keys, s, t, slow, fast) && slow < fast < |s| && !IsNop(keys, t, fast)
    requires |u| == |t| && u[slow] == t[fast] && u[fast] == t[slow]
    requires forall k :: 0 <= k < |t| && k != slow && k != fast ==> u[k] == t[k]
    ensures Stage(keys, s, u, slow + 1, fast + 1)
  {
    StageRest(keys, s, t, slow, fast, fast);
    var p := t[slow..fast];
    assert u[..slow + 1] == t[..slow] + [s[fast]];
    assert |u[slow + 1..fast]| == |p[1..]|;
    forall k | 0 <= k < fast - slow - 1 ensures u[slow + 1..fast][k] == p[1..][k] {
      assert u[slow + 1 + k] == t[slow + 1 + k];
    }
    assert u[slow + 1..fast] == p[1..];
    assert u[slow + 1..fast + 1] == u[slow + 1..fast] + [p[0]];
    assert u[fast + 1..] == t[fast..][1..] && s[fast + 1..] == s[fast..][1..];
  }

  // ----- Counting entries -----

  ghost function Count(s: seq<nat>, x: nat): (c: nat) {
    if s == [] then 0 else Count(s[..|s| - 1], x) + if s[|s| - 1] == x then 1 else 0
  }

  lemma CountSnoc(s: seq<nat>, y: nat, x: nat)
    ensures Count(s + [y], x) == Count(s, x) + if y == x then 1 else 0
  {
    assert (s + [y])[..|s + [y]| - 1] == s;
  }

  lemma {:induction false} CountCons(y: nat, s: seq<nat>, x: nat)
    ensures Count([y] + s, x) == Count(s, x) + if y == x then 1 else 0
    decreases |s|
  {
    if s == [] {
      assert [y] + s == s + [y];
      CountSnoc(s, y, x);
    } else {
      var init, last := s[..|s| - 1], s[|s| - 1];
      CountCons(y, init, x);
      CountSnoc([y] + init, last, x);
      assert [y] + s == ([y] + init) + [last];
    }
  }

  lemma {:induction false} CountIsMultiset(s: seq<nat>, x: nat)
    ensures Count(s, x) == multiset(s)[x]
    decreases |s|
  {
    if s != [] {
      CountIsMultiset(s[..|s| - 1], x);
      assert s == s[..|s| - 1] + [s[|s| - 1]];
    }
  }

  lemma Counted(a: seq<nat>, b: seq<nat>)
    requires forall x: nat :: Count(a, x) == Count(b, x)
    ensures multiset(a) == multiset(b)
  {
    forall x: nat ensures multiset(a)[x] == multiset(b)[x] {
      CountIsMultiset(a, x);
      CountIsMultiset(b, x);
    }
  }

  lemma CountedTogether(a: seq<nat>, b: seq<nat>, c: seq<nat>)
    requires forall x: nat :: Count(a, x) + Count(b, x) == Count(c, x)
    ensures multiset(a + b) == multiset(c)
  {
    hide Count;
    forall x: nat ensures multiset(a + b)[x] == multiset(c)[x] {
      CountIsMultiset(a, x);
      CountIsMultiset(b, x);
      CountIsMultiset(c, x);
    }
  }

  lemma RotatedCount(p: seq<nat>, x: nat)
    ensures Count(Rotated(p), x) == Count(p, x)
  {
    if p != [] {
      assert p == [p[0]] + p[1..];
      CountCons(p[0], p[1..], x);
      CountSnoc(p[1..], p[0], x);
    }
  }

  lemma {:induction false} PendingCount(keys: seq<nat>, s: seq<nat>, n: nat, x: nat)
    requires n <= |s|
    ensures Count(Pending(keys, s, n), x) == Count(NopsOf(keys, s, n), x)
  {
    if n > 0 {
      hide *;
      PendingCount(keys, s, n - 1, x);
      if IsNop(keys, s, n - 1) {
        NextNop(keys, s, n);
        CountSnoc(Pending(keys, s, n - 1), s[n - 1], x);
        CountSnoc(NopsOf(keys, s, n - 1), s[n - 1], x);
      } else {
        NextReal(keys, s, n);
        RotatedCount(Pending(keys, s, n - 1), x);
      }
    }
  }

  /** The waiting NOPs are those seen, none lost and none added. */
  lemma PendingMembers(keys: seq<nat>, s: seq<nat>, n: nat)
    requires n <= |s|
    ensures multiset(Pending(keys, s, n)) == multiset(NopsOf(keys, s, n))
  {
    forall x: nat ensures Count(Pending(keys, s, n), x) == Count(NopsOf(keys, s, n), x) {
      PendingCount(keys, s, n, x);
    }
    Counted(Pending(keys, s, n), NopsOf(keys, s, n));
  }

  lemma {:induction false} NopsOfAreNops(keys: seq<nat>, s: seq<nat>, n: nat)
    requires n <= |s|
    ensures forall x :: x in NopsOf(keys, s, n) ==> x < |keys| && keys[x] == NOP_BLOCK && x in s[..n]
  {
    if n > 0 {
      NopsOfAreNops(keys, s, n - 1);
      assert s[n - 1] in s[..n] && forall x :: x in s[..n - 1] ==> x in s[..n];
    }
  }

  lemma PendingSeen(keys: seq<nat>, s: seq<nat>, n: nat)
    requires n <= |s|
    ensures forall x :: x in Pending(keys, s, n) ==> x in s[..n]
  {
    PendingMembers(keys, s, n);
    NopsOfAreNops(keys, s, n);
    forall x | x in Pending(keys, s, n) ensures x in s[..n] {
      assert x in multiset(Pending(keys, s, n));
    }
  }

  lemma PendingAreNops(keys: seq<nat>, s: seq<nat>, n: nat)
    requires n <= |s|
    ensures Nops(keys, Pending(keys, s, n), 0, |Pending(keys, s, n)|)
  {
    var p := Pending(keys, s, n);
    PendingMembers(keys, s, n);
    NopsOfAreNops(keys, s, n);
    forall k: nat | k < |p| ensures IsNop(keys, p, k) {
      assert p[k] in multiset(p);
      assert p[k] in NopsOf(keys, s, n);
    }
  }

  /** The waiting entries are NOPs where they stand. */
  lemma StageWaiting(keys: seq<nat>, s: seq<nat>, t: seq<nat>, slow: nat, d: nat, k: nat)
    requires Stage(keys, s, t, slow, d) && slow <= k < d
    ensures IsNop(keys, t, k)
  {
    PendingAreNops(keys, s, d);
    assert t[k] == t[slow..d][k - slow];
    assert IsNop(keys, Pending(keys, s, d), k - slow);
  }

  /** The real entries of s first, as they stood, and only NOPs after them. */
  ghost predicate Compacted(keys: seq<nat>, s: seq<nat>, t: seq<nat>) {
    var kept := Real(keys, s, |s|);
    |kept| <= |t| && t[..|kept|] == kept && Nops(keys, t, |kept|, |t|)
  }

  lemma FilteredCompacted(keys: seq<nat>, s: seq<nat>)
    ensures Compacted(keys, s, Filtered(keys, s))
  {
    var kept, p, t := Real(keys, s, |s|), Pending(keys, s, |s|), Filtered(keys, s);
    PendingAreNops(keys, s, |s|);
    forall k: nat | |kept| <= k < |t| ensures IsNop(keys, t, k) {
      assert IsNop(keys, p, k - |kept|);
    }
  }

  // ----- When the NOPs keep their order -----

  ghost function NopCount(keys: seq<nat>, s: seq<nat>, n: nat): (m: nat)
    requires n <= |s|
  {
    |NopsOf(keys, s, n)|
  }

  /** How many of the first n entries come after the last NOP among them. */
  ghost function Since(keys: seq<nat>, s: seq<nat>, n: nat): (r: nat)
    requires n <= |s|
    ensures r <= n
    ensures forall k :: n - r <= k < n ==> !IsNop(keys, s, k)
    ensures r < n ==> IsNop(keys, s, n - r - 1)
  {
    if n == 0 || IsNop(keys, s, n - 1) then 0 else Since(keys, s, n - 1) + 1
  }

  /** Between the m-th NOP and the next, or the end, the number of other entries is a
      multiple of m. */
  ghost predicate WholeTurns(keys: seq<nat>, s: seq<nat>, n: nat)
    requires n <= |s|
  {
    forall k :: 0 <= k <= n && (k == n || IsNop(keys, s, k)) ==> WholeTurn(keys, s, k)
  }

  /** The entries since the last NOP of the first n have turned the NOPs all the way round. */
  ghost predicate WholeTurn(keys: seq<nat>, s: seq<nat>, n: nat)
    requires n <= |s|
  {
    NopCount(keys, s, n) > 0 ==> Since(keys, s, n) % NopCount(keys, s, n) == 0
  }

  /** The run after r turns. */
  ghost function Turned(p: seq<nat>, r: nat): (q: seq<nat>)
    ensures |q| == |p|
  {
    if r == 0 then p else Rotated(Turned(p, r - 1))
  }

  function Mod(r: nat, m: nat): (k: nat)
    requires m > 0
    ensures k < m
  {
    r % m
  }

  lemma ModZero(m: nat)
    requires m > 0
    ensures Mod(0, m) == 0
  {
  }

  lemma ModNext(r: nat, m: nat)
    requires m > 0
    ensures Mod(r + 1, m) == if Mod(r, m) + 1 == m then 0 else Mod(r, m) + 1
  {
    var q, k := r / m, r % m;
    assert r == m * q + k;
    if k + 1 == m {
      assert m * (q + 1) == m * q + m;
      BinaryText.DivModUnique(r + 1, m, q + 1, 0);
    } else {
      BinaryText.DivModUnique(r + 1, m, q, k + 1);
    }
  }

  /** The run as it stands when it has been turned by k places. */
  ghost function From(p: seq<nat>, k: nat): (q: seq<nat>)
    requires k < |p|
    ensures |q| == |p|
  {
    p[k..] + p[..k]
  }

  lemma RotatedFrom(p: seq<nat>, k: nat)
    requires k < |p|
    ensures Rotated(From(p, k)) == From(p, if k + 1 == |p| then 0 else k + 1)
  {
    var q := From(p, k);
    assert q[0] == p[k];
    if k + 1 == |p| {
      assert q[1..] == p[..k];
    } else {
      assert q[1..] == p[k + 1..] + p[..k];
      assert p[..k + 1] == p[..k] + [p[k]];
    }
  }

  lemma {:induction false} TurnedAt(p: seq<nat>, r: nat)
    requires p != []
    ensures Turned(p, r) == From(p, Mod(r, |p|))
    decreases r
  {
    hide Mod, Rotated;
    if r == 0 {
      ModZero(|p|);
      assert p[0..] + p[..0] == p;
    } else {
      hide From;
      TurnedAt(p, r - 1);
      ModNext(r - 1, |p|);
      RotatedFrom(p, Mod(r - 1, |p|));
    }
  }

  lemma {:induction false} NopsSince(keys: seq<nat>, s: seq<nat>, n: nat)
    requires n <= |s|
    ensures NopsOf(keys, s, n) == NopsOf(keys, s, n - Since(keys, s, n))
  {
    if n > 0 && !IsNop(keys, s, n - 1) {
      NopsSince(keys, s, n - 1);
      NextReal(keys, s, n);
    }
  }

  lemma {:induction false} PendingTurned(keys: seq<nat>, s: seq<nat>, n: nat)
    requires n <= |s|
    ensures Pending(keys, s, n) == Turned(Pending(keys, s, n - Since(keys, s, n)), Since(keys, s, n))
  {
    hide Pending, Rotated;
    if n > 0 && !IsNop(keys, s, n - 1) {
      PendingTurned(keys, s, n - 1);
      NextReal(keys, s, n);
    }
  }

  /** A turned run ends with the entry it ended with before just after whole turns. */
  lemma TurnedSame(q: seq<nat>, x: nat, r: nat, o: seq<nat>)
    requires x !in q && |o| == |q|
    ensures Turned(q + [x], r) == o + [x] <==> r % |q + [x]| == 0 && q == o
  {
    var p := q + [x];
    TurnedAt(p, r);
    var k := r % |p|;
    if k == 0 {
      assert p[0..] + p[..0] == p;
      assert q == p[..|q|] && o == (o + [x])[..|o|];
    } else {
      assert From(p, k)[|q|] == p[k - 1] == q[k - 1];
      assert (o + [x])[|q|] == x;
    }
  }

  ghost predicate NoDuplicates(s: seq<nat>) {
    forall i, j :: 0 <= i < j < |s| ==> s[i] != s[j]
  }

  /** The filter keeps the NOPs of distinct entries in order if and only if the turns
      between them are whole. */
  lemma {:induction false} NopOrderKept(keys: seq<nat>, s: seq<nat>, n: nat)
    requires n <= |s| && NoDuplicates(s)
    ensures Pending(keys, s, n) == NopsOf(keys, s, n) <==> WholeTurns(keys, s, n)
    decreases n
  {
    hide WholeTurns, WholeTurn, Turned, Pending, NopsOf, Since;
    var r := Since(keys, s, n);
    PendingTurned(keys, s, n);
    NopsSince(keys, s, n);
    if r == n {
      NoNops(keys, s, n);
    } else {
      var j := n - r - 1;
      var q, o, x := Pending(keys, s, j), NopsOf(keys, s, j), s[j];
      PendingSeen(keys, s, j);
      assert x !in s[..j];
      TurnedSame(q, x, r, o);
      NopOrderKept(keys, s, j);
      LastTurns(keys, s, n);
      LastTurn(keys, s, n);
      NextNop(keys, s, j + 1);
    }
  }

  lemma {:induction false} NoNops(keys: seq<nat>, s: seq<nat>, n: nat)
    requires n <= |s| && Since(keys, s, n) == n
    ensures NopsOf(keys, s, n) == [] && WholeTurns(keys, s, n)
  {
    if n > 0 {
      NoNops(keys, s, n - 1);
    }
  }

  lemma LastTurn(keys: seq<nat>, s: seq<nat>, n: nat)
    requires n <= |s| && Since(keys, s, n) < n
    ensures var r := Since(keys, s, n);
      WholeTurn(keys, s, n) <==> r % (NopCount(keys, s, n - r - 1) + 1) == 0
  {
    var r := Since(keys, s, n);
    NopsSince(keys, s, n);
    NextNop(keys, s, n - r);
    assert NopCount(keys, s, n) == NopCount(keys, s, n - r - 1) + 1;
    hide Since, NopsOf;
  }

  /** The turns up to n are those up to the last NOP, and the last ones. */
  lemma LastTurns(keys: seq<nat>, s: seq<nat>, n: nat)
    requires n <= |s| && Since(keys, s, n) < n
    ensures WholeTurns(keys, s, n) <==> WholeTurns(keys, s, n - Since(keys, s, n) - 1) && WholeTurn(keys, s, n)
  {
    hide WholeTurn, Since;
  }

  /** Two NOPs in front of another entry change places. */
  lemma NopsChangePlaces()
    ensures var keys, s := [NOP_BLOCK, NOP_BLOCK, 0], [0, 1, 2];
      Filtered(keys, s) == [2, 1, 0] && NopsOf(keys, s, 3) == [0, 1]
  {
    var keys, s := [NOP_BLOCK, NOP_BLOCK, 0], [0, 1, 2];
    NextNop(keys, s, 1);
    NextNop(keys, s, 2);
    NextReal(keys, s, 3);
    assert Pending(keys, s, 0) == [] && Real(keys, s, 0) == [] && NopsOf(keys, s, 0) == [];
    hide Pending, Real, NopsOf;
    assert NopsOf(keys, s, 3) == [0, 1] && Pending(keys, s, 3) == Rotated([0, 1]) && Real(keys, s, 3) == [2];
  }

  // ----- The filter as a sort -----

  ghost predicate Increasing(s: seq<nat>) {
    forall i, j :: 0 <= i < j < |s| ==> s[i] < s[j]
  }

  /** Apart from NOPs, the blocks are in order. */
  ghost predicate RealOrdered(keys: seq<nat>, s: seq<nat>, n: nat)
    requires n <= |s|
  {
    forall i, j :: 0 <= i < j < n && !IsNop(keys, s, i) && !IsNop(keys, s, j) ==>
      s[i] < |keys| && s[j] < |keys| && keys[s[i]] <= keys[s[j]]
  }

  /** The entries other than the NOPs are sorted, and before every later one. */
  lemma {:induction false} RealSorted(keys: seq<nat>, s: seq<nat>, n: nat)
    requires n <= |s| && InRange(keys, s) && Increasing(s) && RealOrdered(keys, s, n)
    ensures Sorted(keys, Real(keys, s, n))
    ensures forall x :: x in Real(keys, s, n) ==> exists i: nat :: i < n && s[i] == x && !IsNop(keys, s, i)
  {
    if n > 0 {
      RealSorted(keys, s, n - 1);
      var r, x := Real(keys, s, n - 1), s[n - 1];
      if !IsNop(keys, s, n - 1) {
        forall y | y in r ensures Less(keys, y, x) {
          var i: nat :| i < n - 1 && s[i] == y && !IsNop(keys, s, i);
        }
        SortedConcat(keys, r, [x]);
      } else {
        assert r + [] == r;
      }
    }
  }

  lemma {:induction false} NopsSorted(keys: seq<nat>, s: seq<nat>, n: nat)
    requires n <= |s| && Increasing(s)
    ensures Sorted(keys, NopsOf(keys, s, n))
  {
    if n > 0 {
      hide Sorted, NopsOf;
      NopsSorted(keys, s, n - 1);
      if IsNop(keys, s, n - 1) {
        NextNop(keys, s, n);
        NopsBefore(keys, s, n);
        OneSorted(keys, s[n - 1]);
        SortedConcat(keys, NopsOf(keys, s, n - 1), [s[n - 1]]);
      } else {
        NextReal(keys, s, n);
      }
    }
  }

  lemma OneSorted(keys: seq<nat>, x: nat)
    ensures Sorted(keys, [x])
  {
  }

  lemma NopsBefore(keys: seq<nat>, s: seq<nat>, n: nat)
    requires 0 < n <= |s| && Increasing(s) && IsNop(keys, s, n - 1)
    ensures AllLess(keys, NopsOf(keys, s, n - 1), [s[n - 1]])
  {
    NopsOfAreNops(keys, s, n - 1);
    hide NopsOf;
    var o, x := NopsOf(keys, s, n - 1), s[n - 1];
    forall y | y in o ensures Less(keys, y, x) {
      var i :| 0 <= i < n - 1 && s[..n - 1][i] == y;
    }
  }

  /** Every entry is counted among the one kind or the other. */
  lemma {:induction false} NopsAndReal(keys: seq<nat>, s: seq<nat>, n: nat, x: nat)
    requires n <= |s|
    ensures Count(Real(keys, s, n), x) + Count(NopsOf(keys, s, n), x) == Count(s[..n], x)
  {
    if n > 0 {
      hide *;
      NopsAndReal(keys, s, n - 1, x);
      assert s[..n] == s[..n - 1] + [s[n - 1]];
      CountSnoc(s[..n - 1], s[n - 1], x);
      if IsNop(keys, s, n - 1) {
        NextNop(keys, s, n);
        CountSnoc(NopsOf(keys, s, n - 1), s[n - 1], x);
      } else {
        NextReal(keys, s, n);
        CountSnoc(Real(keys, s, n - 1), s[n - 1], x);
      }
    }
  }

  /** With the other blocks in order, all NOPs moved behind them is the stable sort. */
  lemma NopsBehindSorted(keys: seq<nat>, s: seq<nat>)
    requires InRange(keys, s) && Increasing(s) && RealOrdered(keys, s, |s|)
    requires forall i :: 0 <= i < |keys| ==> keys[i] <= NOP_BLOCK
    ensures Real(keys, s, |s|) + NopsOf(keys, s, |s|) == StableSort(keys, s)
  {
    var r, o := Real(keys, s, |s|), NopsOf(keys, s, |s|);
    RealSorted(keys, s, |s|);
    NopsSorted(keys, s, |s|);
    NopsOfAreNops(keys, s, |s|);
    forall x, y | x in r && y in o ensures Less(keys, x, y) {
      var i: nat :| i < |s| && s[i] == x && !IsNop(keys, s, i);
    }
    SortedConcat(keys, r, o);
    assert s[..|s|] == s;
    forall x: nat ensures Count(r, x) + Count(o, x) == Count(s, x) {
      NopsAndReal(keys, s, |s|, x);
    }
    CountedTogether(r, o, s);
    SortedIsStable(keys, s, r + o);
  }

  /** With the other blocks in order, the filter leaves what the sorts leave if and only if
      the turns between the NOPs are whole. */
  lemma FilterIsSort(keys: seq<nat>, s: seq<nat>)
    requires InRange(keys, s) && Increasing(s) && RealOrdered(keys, s, |s|)
    requires forall i :: 0 <= i < |keys| ==> keys[i] <= NOP_BLOCK
    ensures Filtered(keys, s) == StableSort(keys, s) <==> WholeTurns(keys, s, |s|)
  {
    var r, p, o := Real(keys, s, |s|), Pending(keys, s, |s|), NopsOf(keys, s, |s|);
    NopsBehindSorted(keys, s);
    NopOrderKept(keys, s, |s|);
    assert p == (r + p)[|r|..] && o == (r + o)[|r|..];
  }
}
