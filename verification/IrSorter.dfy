/** IRSorter and its algorithms: they permute an array of instruction positions by
    exchanges, then copy the instructions out in runs. */
module IrSorter {
  import opened Common
  import opened IrNops
  import opened IrOrder

  const SMALL := 200

  /** The sign of the difference orders two keys exactly when they are less than
      half the range apart. */
  lemma DifferenceOrders(a: nat, b: nat)
    requires a < 0x1_0000_0000 && b < 0x1_0000_0000
    ensures (Int32(a - b) < 0 <==> a < b) <==> -0x8000_0000 <= a - b < 0x8000_0000
  {
  }

  class Sorter {
    /** The block of every instruction, by position. */
    const keys: seq<nat>
    /** insn_idxs */
    const idxs: array<nat>

    ghost predicate Valid()
      reads idxs
    {
      |keys| == idxs.Length
      && (forall i :: 0 <= i < |keys| ==> keys[i] <= NOP_BLOCK)
      && InRange(keys, idxs[..])
    }

    constructor (keys: seq<nat>)
      requires forall i :: 0 <= i < |keys| ==> keys[i] <= NOP_BLOCK
      ensures Valid() && this.keys == keys && fresh(idxs)
      ensures forall i :: 0 <= i < |keys| ==> idxs[i] == i
    {
      this.keys := keys;
      idxs := new nat[|keys|](i => i);
    }

    function Key(i: nat): (k: nat)
      reads idxs
      requires Valid() && i < idxs.Length
      ensures k <= NOP_BLOCK
    {
      assert idxs[..][i] == idxs[i];
      keys[idxs[i]]
    }

    function Compare(a: nat, b: nat): (c: int)
      reads idxs
      requires Valid() && a < idxs.Length && b < idxs.Length
      ensures c < 0 <==> Key(a) < Key(b)
    {
      DifferenceOrders(Key(a), Key(b));
      Int32(Key(a) - Key(b))
    }

    method Exchange(a: nat, b: nat)
      requires Valid() && a < idxs.Length && b < idxs.Length
      modifies idxs
      ensures Valid()
      ensures idxs[a] == old(idxs[b]) && idxs[b] == old(idxs[a])
      ensures forall k :: 0 <= k < idxs.Length && k != a && k != b ==> idxs[k] == old(idxs[k])
    {
      assert idxs[..][a] == idxs[a] && idxs[..][b] == idxs[b];
      ghost var was := idxs[..];
      idxs[a], idxs[b] := idxs[b], idxs[a];
      assert forall k :: 0 <= k < idxs.Length ==> idxs[k] in was;
    }

    /** The exchange that moves a smaller key one place back. */
    method GnomeBack(pos: nat)
      requires Valid() && 1 <= pos < idxs.Length && Ascends(keys, idxs[..])
      requires Sorted(keys, idxs[..pos]) && Key(pos) < Key(pos - 1)
      modifies idxs
      ensures Valid() && Ascends(keys, idxs[..]) && multiset(idxs[..]) == old(multiset(idxs[..]))
      ensures Inversions(keys, idxs[..]) < old(Inversions(keys, idxs[..]))
      ensures Sorted(keys, idxs[..pos - 1]) && Sorted(keys, idxs[..1])
    {
      hide Inversions;
      ghost var s := idxs[..];
      Exchange(pos, pos - 1);
      assert idxs[..] == Swapped(s, pos - 1);
      SwapKeepsMultiset(s, pos - 1);
      SwapKeepsAscends(keys, s, pos - 1);
      SwapRemovesInversion(keys, s, pos - 1);
      assert idxs[..pos - 1] == s[..pos - 1] && s[..pos][..pos - 1] == s[..pos - 1];
    }

    method GnomeSort()
      requires Valid() && Ascends(keys, idxs[..])
      modifies idxs
      ensures Valid() && idxs[..] == StableSort(keys, old(idxs[..]))
    {
      hide Inversions, Sorted, Ascends;
      SortedShort(keys, idxs[..]);
      var pos := 1;
      while pos < idxs.Length
        invariant 1 <= pos && Valid() && Ascends(keys, idxs[..])
        invariant pos <= idxs.Length || idxs.Length == 0
        invariant idxs.Length > 0 ==> Sorted(keys, idxs[..pos])
        invariant multiset(idxs[..]) == old(multiset(idxs[..]))
        decreases Inversions(keys, idxs[..]), idxs.Length - pos
      {
        if Key(pos) >= Key(pos - 1) {
          GnomeForward(keys, idxs[..], pos);
          pos := pos + 1;
        } else {
          GnomeBack(pos);
          if pos > 1 {
            pos := pos - 1;
          }
        }
      }
      assert idxs.Length > 0 ==> idxs[..pos] == idxs[..];
      SortedIsStable(keys, old(idxs[..]), idxs[..]);
    }

    // ----- MergeSort -----

    /** reverse: exchanges from both ends, `to` included. */
    method Reverse(from: nat, to: int)
      requires Valid() && from <= to + 1 <= idxs.Length
      modifies idxs
      ensures Valid() && idxs[..] == Mirror(old(idxs[..]), from, to)
    {
      var i, j := from, to;
      while i < j
        invariant from <= i && j <= to && i - from == to - j && i <= j + 1 && Valid()
        invariant forall k :: from <= k < i ==> idxs[k] == old(idxs[from + to - k])
        invariant forall k :: j < k <= to ==> idxs[k] == old(idxs[from + to - k])
        invariant forall k :: i <= k <= j ==> idxs[k] == old(idxs[k])
        invariant forall k :: 0 <= k < idxs.Length && !(from <= k <= to) ==> idxs[k] == old(idxs[k])
      {
        Exchange(i, j);
        i, j := i + 1, j - 1;
      }
      forall k | 0 <= k < idxs.Length ensures idxs[k] == Mirror(old(idxs[..]), from, to)[k] {
        MirrorAt(old(idxs[..]), from, to, k);
      }
    }

    /** rotate: three reversals exchange two neighbouring stretches. */
    method Rotate(from: nat, mid: nat, to: nat)
      requires Valid() && from <= mid <= to <= idxs.Length
      modifies idxs
      ensures Valid()
      ensures idxs[..] == old(idxs[..from]) + old(idxs[mid..to]) + old(idxs[from..mid]) + old(idxs[to..])
    {
      hide Valid, Mirror;
      ghost var s := idxs[..];
      assert idxs.Length == |s|;
      Reverse(from, mid - 1);
      Reverse(mid, to - 1);
      Reverse(from, to - 1);
      ThreeMirrors(s, from, mid, to);
    }

    /** lower: the first position in [from, to) whose key is not below val's. */
    method Lower(from0: nat, to: nat, val: nat) returns (from: nat)
      requires Valid() && from0 <= to <= idxs.Length && val < idxs.Length
      requires Sorted(keys, idxs[from0..to])
      ensures from0 <= from <= to
      ensures forall k :: from0 <= k < from ==> Key(k) < Key(val)
      ensures forall k :: from <= k < to ==> Key(k) >= Key(val)
    {
      from := from0;
      var len := to - from;
      while len > 0
        invariant from0 <= from && 0 <= len && from + len <= to
        invariant forall k :: from0 <= k < from ==> Key(k) < Key(val)
        invariant forall k :: from + len <= k < to ==> Key(k) >= Key(val)
      {
        var half := len / 2;
        var mid := from + half;
        KeysNondecreasing(from0, to, mid);
        if Compare(mid, val) < 0 {
          from := mid + 1;
          len := len - half - 1;
        } else {
          len := half;
        }
      }
    }

    /** upper: the first position in [from, to) whose key is above val's. */
    method Upper(from0: nat, to: nat, val: nat) returns (from: nat)
      requires Valid() && from0 <= to <= idxs.Length && val < idxs.Length
      requires Sorted(keys, idxs[from0..to])
      ensures from0 <= from <= to
      ensures forall k :: from0 <= k < from ==> Key(k) <= Key(val)
      ensures forall k :: from <= k < to ==> Key(k) > Key(val)
    {
      from := from0;
      var len := to - from;
      while len > 0
        invariant from0 <= from && 0 <= len && from + len <= to
        invariant forall k :: from0 <= k < from ==> Key(k) <= Key(val)
        invariant forall k :: from + len <= k < to ==> Key(k) > Key(val)
      {
        var half := len / 2;
        var mid := from + half;
        KeysNondecreasing(from0, to, mid);
        if Compare(val, mid) < 0 {
          len := half;
        } else {
          from := mid + 1;
          len := len - half - 1;
        }
      }
    }

    /** Where to cut both runs: the longer one in half, the other around the key
        found there. `key` and `first` say what separates the parts. */
    method Cuts(from: nat, pivot: nat, to: nat) returns (firstCut: nat, secondCut: nat, ghost key: nat, ghost first: bool)
      requires Valid() && from < pivot < to <= idxs.Length && to - from > 2
      requires Sorted(keys, idxs[from..pivot]) && Sorted(keys, idxs[pivot..to])
      ensures from <= firstCut <= pivot <= secondCut <= to
      ensures 0 < (firstCut - from) + (secondCut - pivot) < to - from
      ensures KeysUpTo(keys, idxs[from..firstCut], key, false) && KeysFrom(keys, idxs[firstCut..pivot], key, !first)
      ensures KeysUpTo(keys, idxs[pivot..secondCut], key, first) && KeysFrom(keys, idxs[secondCut..to], key, false)
    {
      var len1, len2 := pivot - from, to - pivot;
      if len1 > len2 {
        firstCut := from + len1 / 2;
        secondCut := Lower(pivot, to, firstCut);
        key, first := Key(firstCut), true;
        KeysNondecreasing(from, pivot, firstCut);
      } else {
        secondCut := pivot + len2 / 2;
        firstCut := Upper(from, pivot, secondCut);
        key, first := Key(secondCut), false;
        KeysNondecreasing(pivot, to, secondCut);
      }
      SliceUpTo(from, firstCut, key, false);
      SliceFrom(firstCut, pivot, key, !first);
      SliceUpTo(pivot, secondCut, key, first);
      SliceFrom(secondCut, to, key, false);
    }

    lemma SliceUpTo(i: nat, j: nat, k: nat, strict: bool)
      requires Valid() && i <= j <= idxs.Length
      requires forall t :: i <= t < j ==> if strict then Key(t) < k else Key(t) <= k
      ensures KeysUpTo(keys, idxs[i..j], k, strict)
    {
      forall x | x in idxs[i..j] ensures x < |keys| && (if strict then keys[x] < k else keys[x] <= k) {
        var t :| 0 <= t < j - i && idxs[i..j][t] == x;
        assert Key(i + t) == keys[x];
      }
    }

    lemma SliceFrom(i: nat, j: nat, k: nat, strict: bool)
      requires Valid() && i <= j <= idxs.Length
      requires forall t :: i <= t < j ==> if strict then Key(t) > k else Key(t) >= k
      ensures KeysFrom(keys, idxs[i..j], k, strict)
    {
      forall x | x in idxs[i..j] ensures x < |keys| && (if strict then keys[x] > k else keys[x] >= k) {
        var t :| 0 <= t < j - i && idxs[i..j][t] == x;
        assert Key(i + t) == keys[x];
      }
    }

    /** merge: two neighbouring sorted runs become one. */
    method Merge(from: nat, pivot: nat, to: nat, len1: nat, len2: nat)
      requires Valid() && from <= pivot <= to <= idxs.Length && len1 == pivot - from && len2 == to - pivot
      requires Sorted(keys, idxs[from..pivot]) && Sorted(keys, idxs[pivot..to])
      requires Cross(keys, idxs[from..pivot], idxs[pivot..to])
      modifies idxs
      ensures Valid() && Sorted(keys, idxs[from..to])
      ensures Rearranged(old(idxs[..]), idxs[..], from, to)
      decreases len1 + len2, 2
    {
      if len1 == 0 || len2 == 0 {
        assert len1 == 0 ==> idxs[from..to] == idxs[pivot..to];
        assert len2 == 0 ==> idxs[from..to] == idxs[from..pivot];
        return;
      }
      if len1 + len2 == 2 {
        MergeTwo(from);
        return;
      }
      MergeLong(from, pivot, to);
    }

    method MergeLong(from: nat, pivot: nat, to: nat)
      requires Valid() && from < pivot < to <= idxs.Length && to - from > 2
      requires Sorted(keys, idxs[from..pivot]) && Sorted(keys, idxs[pivot..to])
      requires Cross(keys, idxs[from..pivot], idxs[pivot..to])
      modifies idxs
      ensures Valid() && Sorted(keys, idxs[from..to])
      ensures Rearranged(old(idxs[..]), idxs[..], from, to)
      decreases (to - from), 1
    {
      hide Sorted, Cross, TwoMerges, Valid, Rearranged;
      var firstCut, secondCut := CutRuns(from, pivot, to);
      ghost var was := idxs[..];
      RotateWithin(from, firstCut, pivot, secondCut, to);
      ghost var rotated := idxs[..];
      MergeBoth(from, firstCut, firstCut + (secondCut - pivot), secondCut, to);
      RearrangedTransitive(was, rotated, idxs[..], from, to);
    }

    method CutRuns(from: nat, pivot: nat, to: nat) returns (firstCut: nat, secondCut: nat)
      requires Valid() && from < pivot < to <= idxs.Length && to - from > 2
      requires Sorted(keys, idxs[from..pivot]) && Sorted(keys, idxs[pivot..to])
      requires Cross(keys, idxs[from..pivot], idxs[pivot..to])
      ensures from <= firstCut <= pivot <= secondCut <= to
      ensures 0 < (firstCut - from) + (secondCut - pivot) < to - from
      ensures var a1, a2, b1, b2 := idxs[from..firstCut], idxs[firstCut..pivot], idxs[pivot..secondCut], idxs[secondCut..to];
        TwoMerges(keys, a1, b1, a2, b2)
    {
      hide Sorted, Cross, KeysUpTo, KeysFrom, TwoMerges, Valid;
      ghost var key, first;
      firstCut, secondCut, key, first := Cuts(from, pivot, to);
      ghost var a1, a2, b1, b2 := idxs[from..firstCut], idxs[firstCut..pivot], idxs[pivot..secondCut], idxs[secondCut..to];
      assert idxs[from..pivot] == a1 + a2 && idxs[pivot..to] == b1 + b2;
      CutMerges(keys, a1, a2, b1, b2, key, first);
    }

    /** The two smaller merges after the rotation. */
    method MergeBoth(from: nat, firstCut: nat, newMid: nat, secondCut: nat, to: nat)
      requires Valid() && from <= firstCut <= newMid <= secondCut <= to <= idxs.Length && 0 < newMid - from < to - from
      requires TwoMerges(keys, idxs[from..firstCut], idxs[firstCut..newMid], idxs[newMid..secondCut], idxs[secondCut..to])
      modifies idxs
      ensures Valid() && Sorted(keys, idxs[from..to])
      ensures Rearranged(old(idxs[..]), idxs[..], from, to)
      decreases (to - from), 0
    {
      hide Sorted, Cross, AllLess, Valid, Rearranged;
      ghost var was := idxs[..];
      JoinSlices(was, from, firstCut, newMid);
      JoinSlices(was, newMid, secondCut, to);
      Merge(from, firstCut, newMid, firstCut - from, newMid - firstCut);
      ghost var half := idxs[..];
      UnchangedSlice(was, half, from, newMid, newMid, secondCut);
      UnchangedSlice(was, half, from, newMid, secondCut, to);
      Merge(newMid, secondCut, to, secondCut - newMid, to - secondCut);
      BothMerged(keys, was, half, idxs[..], from, newMid, to);
    }

    /** The rotation inside a merge, stretch by stretch. */
    method RotateWithin(from: nat, firstCut: nat, pivot: nat, secondCut: nat, to: nat)
      requires Valid() && from <= firstCut <= pivot <= secondCut <= to <= idxs.Length
      modifies idxs
      ensures Valid()
      ensures var newMid := firstCut + (secondCut - pivot);
        && idxs[from..firstCut] == old(idxs[from..firstCut]) && idxs[firstCut..newMid] == old(idxs[pivot..secondCut])
        && idxs[newMid..secondCut] == old(idxs[firstCut..pivot]) && idxs[secondCut..to] == old(idxs[secondCut..to])
      ensures Rearranged(old(idxs[..]), idxs[..], from, to)
    {
      hide Valid, Rearranged;
      ghost var s := idxs[..];
      Rotate(firstCut, pivot, secondCut);
      RotatedSlices(s, from, firstCut, pivot, secondCut, to, idxs[..]);
    }

    method MergeTwo(from: nat)
      requires Valid() && from + 2 <= idxs.Length
      requires Cross(keys, idxs[from..from + 1], idxs[from + 1..from + 2])
      modifies idxs
      ensures Valid() && Sorted(keys, idxs[from..from + 2])
      ensures Rearranged(old(idxs[..]), idxs[..], from, from + 2)
    {
      assert idxs[from] in idxs[from..from + 1] && idxs[from + 1] in idxs[from + 1..from + 2];
      ghost var a, b := idxs[from], idxs[from + 1];
      assert idxs[from..from + 2] == [a, b];
      if Compare(from + 1, from) < 0 {
        Exchange(from + 1, from);
        assert idxs[from..from + 2] == [b, a];
        assert multiset([a, b]) == multiset([b, a]);
      }
    }

    /** One turn of insert_sort's outer loop: the entry at i sinks into place. */
    method Sink(from: nat, i: nat)
      requires Valid() && from <= i < idxs.Length
      requires Sorted(keys, idxs[from..i]) && Cross(keys, idxs[from..i], [idxs[i]])
      modifies idxs
      ensures Valid() && Sorted(keys, idxs[from..i + 1])
      ensures Rearranged(old(idxs[..]), idxs[..], from, i + 1)
    {
      hide Sorted, Cross, Rearranged, Moved;
      ghost var s := idxs[..];
      ghost var v := s[i];
      MovedNowhere(s, i);
      var j := i;
      while j > from && Compare(j, j - 1) < 0
        invariant from <= j <= i && Valid()
        invariant idxs[..] == Moved(s, j, i)
        invariant forall k :: j <= k < i ==> keys[v] < keys[s[k]]
      {
        MovedAt(s, j, i);
        Exchange(j, j - 1);
        MovedStep(s, j, i, idxs[..]);
        j := j - 1;
      }
      MovedAt(s, j, i);
      assert j > from ==> keys[s[j - 1]] <= keys[v];
      SunkSorted(keys, s, from, j, i);
    }

    /** Entries before i are done; the one at i joins them. */
    method InsertNext(from: nat, i: nat, to: nat, ghost s: seq<nat>)
      requires Valid() && from < i < to <= idxs.Length == |s| && Ascends(keys, s[from..to])
      requires Sorted(keys, idxs[from..i]) && Rearranged(s, idxs[..], from, i)
      modifies idxs
      ensures Valid() && Sorted(keys, idxs[from..i + 1]) && Rearranged(s, idxs[..], from, i + 1)
    {
      hide Rearranged, Cross, Sorted, Ascends;
      ghost var t := idxs[..];
      NextCross(keys, s, t, from, i, to);
      assert t[from..i] == idxs[from..i] && t[i] == idxs[i];
      Sink(from, i);
      RearrangedWider(s, t, from, i, from, i + 1);
      RearrangedTransitive(s, t, idxs[..], from, i + 1);
    }

    /** insert_sort */
    method InsertSort(from: nat, to: nat)
      requires Valid() && from <= to <= idxs.Length && Ascends(keys, idxs[from..to])
      modifies idxs
      ensures Valid() && Sorted(keys, idxs[from..to])
      ensures Rearranged(old(idxs[..]), idxs[..], from, to)
    {
      hide Rearranged, Sorted, Ascends, InRange;
      ghost var s := idxs[..];
      assert s[from..to] == idxs[from..to];
      RearrangedRefl(s, from, from);
      FewSorted(keys, idxs[from..to]);
      if to > from + 1 {
        FewSorted(keys, idxs[from..from + 1]);
        var i := from + 1;
        RearrangedWider(s, s, from, from, from, from + 1);
        while i < to
          invariant from < i <= to && Valid() && Sorted(keys, idxs[from..i])
          invariant Rearranged(s, idxs[..], from, i)
        {
          InsertNext(from, i, to, s);
          i := i + 1;
        }
      } else {
        RearrangedWider(s, s, from, from, from, to);
      }
    }

    /** sort: halves by recursion, short stretches by insertion. */
    method Sort(from: nat, to: nat)
      requires Valid() && from <= to <= idxs.Length && Ascends(keys, idxs[from..to])
      modifies idxs
      ensures Valid() && Sorted(keys, idxs[from..to])
      ensures Rearranged(old(idxs[..]), idxs[..], from, to)
      decreases (to - from)
    {
      if to - from < SMALL {
        InsertSort(from, to);
        return;
      }
      hide Rearranged, Cross, Sorted, Ascends, Valid;
      var middle := (from + to) / 2;
      ghost var s := idxs[..];
      AscendsSplit(keys, s, from, middle, to);
      Sort(from, middle);
      ghost var t := idxs[..];
      UnchangedSlice(s, t, from, middle, middle, to);
      Sort(middle, to);
      ghost var u := idxs[..];
      UnchangedSlice(t, u, middle, to, from, middle);
      CrossRearranged(keys, s, t, u, from, middle, to);
      Merge(from, middle, to, middle - from, to - middle);
      RearrangedWider(s, t, from, middle, from, to);
      RearrangedWider(t, u, middle, to, from, to);
      RearrangedTransitive(s, t, u, from, to);
      RearrangedTransitive(s, u, idxs[..], from, to);
    }

    /** Leaves exactly the array that GnomeSort leaves. */
    method MergeSort()
      requires Valid() && Ascends(keys, idxs[..])
      modifies idxs
      ensures Valid() && idxs[..] == StableSort(keys, old(idxs[..]))
    {
      assert idxs[0..idxs.Length] == idxs[..];
      Sort(0, idxs.Length);
      assert idxs[0..idxs.Length] == idxs[..];
      SortedIsStable(keys, old(idxs[..]), idxs[..]);
    }

    // ----- NopFilter -----

    /** The scan of fast_ptr for the next entry that is not a NOP. */
    method NextReal(from: nat) returns (next: nat)
      requires Valid() && from <= idxs.Length
      ensures from <= next <= idxs.Length && Nops(keys, idxs[..], from, next)
      ensures next < idxs.Length ==> !IsNop(keys, idxs[..], next)
    {
      next := from;
      while next < idxs.Length && Key(next) == NOP_BLOCK
        invariant from <= next <= idxs.Length && Nops(keys, idxs[..], from, next)
      {
        next := next + 1;
      }
    }

    /** The entries that are not NOPs come first, in their original order; the NOPs follow
        as the passing entries have turned them. */
    method NopFilter()
      requires Valid()
      modifies idxs
      ensures Valid() && multiset(idxs[..]) == multiset(old(idxs[..]))
      ensures idxs[..] == Filtered(keys, old(idxs[..]))
    {
      hide Stage, Filtered;
      ghost var s := idxs[..];
      ghost var d := 0;
      StageStart(keys, s);
      var slow, fast := 0, 1;
      while slow < idxs.Length
        invariant 0 <= slow <= d <= idxs.Length && 0 < fast && Valid()
        invariant multiset(idxs[..]) == multiset(s) && Stage(keys, s, idxs[..], slow, d)
        invariant (d == slow && fast <= slow + 1) || d == fast + 1
      {
        assert IsNop(keys, idxs[..], slow) == (Key(slow) == NOP_BLOCK);
        if Key(slow) == NOP_BLOCK {
          if fast <= slow {
            fast := slow + 1;
          }
          fast, d := SkipNops(slow, fast, s, d);
          if fast >= idxs.Length {
            StageEnd(keys, s, idxs[..], slow);
            return;
          }
          ghost var t := idxs[..];
          Exchange(slow, fast);
          ExchangedMultiset(t, idxs[..], slow, fast);
          StageExchange(keys, s, t, idxs[..], slow, fast);
          d := fast + 1;
        } else {
          if slow < d {
            StageWaiting(keys, s, idxs[..], slow, d, slow);
            assert false;
          }
          StageReal(keys, s, idxs[..], slow);
          d := slow + 1;
        }
        slow := slow + 1;
      }
      StageEnd(keys, s, idxs[..], slow);
    }

    /** fast_ptr moves past the NOPs, which join the waiting ones. */
    method SkipNops(slow: nat, from: nat, ghost s: seq<nat>, ghost d0: nat) returns (fast: nat, ghost d: nat)
      requires Valid() && slow < from <= idxs.Length && Stage(keys, s, idxs[..], slow, d0)
      requires IsNop(keys, idxs[..], slow) && (d0 == from || d0 == from + 1 || (d0 == slow && from == slow + 1))
      ensures slow < fast <= idxs.Length && d == fast && Stage(keys, s, idxs[..], slow, d)
      ensures fast < idxs.Length ==> !IsNop(keys, idxs[..], fast)
    {
      d := d0;
      if d == slow {
        StageNop(keys, s, idxs[..], slow, d);
        d := d + 1;
      }
      if d == from + 1 {
        StageWaiting(keys, s, idxs[..], slow, d, from);
      }
      fast := from;
      if fast < idxs.Length {
        fast := NextReal(fast);
      }
      StageNops(keys, s, idxs[..], slow, d, fast);
      d := fast;
    }

    lemma KeysNondecreasing(from: nat, to: nat, mid: nat)
      requires Valid() && from <= mid < to <= idxs.Length && Sorted(keys, idxs[from..to])
      ensures forall k :: from <= k <= mid ==> Key(k) <= Key(mid)
      ensures forall k :: mid <= k < to ==> Key(mid) <= Key(k)
    {
      ghost var s := idxs[from..to];
      forall k | from <= k < mid ensures Key(k) <= Key(mid) {
        assert Less(keys, s[k - from], s[mid - from]);
      }
      forall k | mid < k < to ensures Key(mid) <= Key(k) {
        assert Less(keys, s[mid - from], s[k - from]);
      }
    }
  }

  lemma JoinSlices(s: seq<nat>, i: nat, j: nat, k: nat)
    requires i <= j <= k <= |s|
    ensures s[i..k] == s[i..j] + s[j..k]
  {
  }

  /** Where the four pieces of a rotation end up. */
  lemma RotatedPieces(s: seq<nat>, from: nat, firstCut: nat, pivot: nat, secondCut: nat, to: nat, t: seq<nat>)
    requires from <= firstCut <= pivot <= secondCut <= to <= |s|
    requires t == s[..firstCut] + s[pivot..secondCut] + s[firstCut..pivot] + s[secondCut..]
    ensures |t| == |s|
    ensures var newMid := firstCut + (secondCut - pivot);
      && t[from..firstCut] == s[from..firstCut] && t[firstCut..newMid] == s[pivot..secondCut]
      && t[newMid..secondCut] == s[firstCut..pivot] && t[secondCut..to] == s[secondCut..to]
    ensures t[..from] == s[..from] && t[to..] == s[to..]
  {
  }

  lemma FourMultisets(s: seq<nat>, a: nat, b: nat, c: nat, d: nat, e: nat)
    requires a <= b <= c <= d <= e <= |s|
    ensures multiset(s[a..e]) == multiset(s[a..b]) + multiset(s[b..c]) + (multiset(s[c..d]) + multiset(s[d..e]))
  {
    JoinSlices(s, a, b, c);
    JoinSlices(s, c, d, e);
    JoinSlices(s, a, c, e);
  }

  /** Four adjacent pieces whose middle two have changed places. */
  lemma PiecesRegrouped(s: seq<nat>, t: seq<nat>, a: nat, b: nat, c: nat, c': nat, d: nat, e: nat)
    requires a <= b <= c <= d <= e <= |s| && b <= c' <= d && |t| == |s|
    requires multiset(t[a..b]) == multiset(s[a..b]) && multiset(t[b..c']) == multiset(s[c..d])
    requires multiset(t[c'..d]) == multiset(s[b..c]) && multiset(t[d..e]) == multiset(s[d..e])
    ensures multiset(s[a..e]) == multiset(t[a..e])
  {
    FourMultisets(s, a, b, c, d, e);
    FourMultisets(t, a, b, c', d, e);
  }

  lemma RotatedSlices(s: seq<nat>, from: nat, firstCut: nat, pivot: nat, secondCut: nat, to: nat, t: seq<nat>)
    requires from <= firstCut <= pivot <= secondCut <= to <= |s|
    requires t == s[..firstCut] + s[pivot..secondCut] + s[firstCut..pivot] + s[secondCut..]
    ensures |t| == |s|
    ensures var newMid := firstCut + (secondCut - pivot);
      && t[from..firstCut] == s[from..firstCut] && t[firstCut..newMid] == s[pivot..secondCut]
      && t[newMid..secondCut] == s[firstCut..pivot] && t[secondCut..to] == s[secondCut..to]
    ensures Rearranged(s, t, from, to)
  {
    RotatedPieces(s, from, firstCut, pivot, secondCut, to, t);
    PiecesRegrouped(s, t, from, firstCut, pivot, firstCut + (secondCut - pivot), secondCut, to);
  }

  lemma ExchangedMultiset(s: seq<nat>, t: seq<nat>, i: nat, j: nat)
    requires i < j < |s| == |t| && t[i] == s[j] && t[j] == s[i]
    requires forall k :: 0 <= k < |s| && k != i && k != j ==> t[k] == s[k]
    ensures multiset(s) == multiset(t)
  {
    assert t == s[i := s[j]][j := s[i]];
  }

  lemma SortedShort(keys: seq<nat>, s: seq<nat>)
    ensures |s| > 0 ==> Sorted(keys, s[..1])
    ensures s == [] ==> Sorted(keys, s)
  {
  }

  lemma FewSorted(keys: seq<nat>, s: seq<nat>)
    ensures |s| <= 1 ==> Sorted(keys, s)
  {
  }

  lemma MovedNowhere(s: seq<nat>, i: nat)
    requires i < |s|
    ensures Moved(s, i, i) == s
  {
  }

  lemma GnomeForward(keys: seq<nat>, s: seq<nat>, pos: nat)
    requires Ascends(keys, s) && 1 <= pos < |s| && Sorted(keys, s[..pos])
    requires keys[s[pos]] >= keys[s[pos - 1]]
    ensures Sorted(keys, s[..pos + 1])
  {
    forall i | 0 <= i < pos ensures Less(keys, s[i], s[pos]) {
      assert i < pos - 1 ==> Less(keys, s[..pos][i], s[..pos][pos - 1]);
    }
    SortedConcat(keys, s[..pos], [s[pos]]);
    assert s[..pos + 1] == s[..pos] + [s[pos]];
  }
}
