/** The in-place quicksort over received actions (`game_action_partition`, `game_action_quick_sort`). */
module QuickSort {
  import opened Board
  import opened Wire
  import opened Window

  const LIMIT_LAST_NUM_MESSAGE_CLIENT := 4095

  function Abs(n: int): int {
    if n < 0 then -n else n
  }

  /** An element the partition leaves where it is. */
  predicate StaysRight(pivot: ActionMessage, x: ActionMessage, last: seq<int>)
    requires |last| == PLAYER_NUM && 0 <= pivot.id < PLAYER_NUM && 0 <= x.id < PLAYER_NUM
  {
    || x.id != pivot.id
    || (!IsNext(last[pivot.id], pivot.num, LIMIT_LAST_NUM_MESSAGE_CLIENT)
        && IsNext(last[x.id], x.num, LIMIT_LAST_NUM_MESSAGE_CLIENT))
    || Abs(last[pivot.id] - pivot.num) <= Abs(last[x.id] - x.num)
  }

  predicate LegalIds(s: seq<ActionMessage>) {
    forall k :: 0 <= k < |s| ==> 0 <= s[k].id < PLAYER_NUM
  }

  /** `r` is `s` with the entries from start to end (inclusive) in some other order. */
  ghost predicate Rearranged(s: seq<ActionMessage>, r: seq<ActionMessage>, start: int, end: int) {
    && |r| == |s| && 0 <= start && start - 1 <= end < |s|
    && r[..start] == s[..start] && r[end + 1..] == s[end + 1..]
    && multiset(r[start..end + 1]) == multiset(s[start..end + 1])
  }

  lemma SwapRearranges(s: seq<ActionMessage>, i: int, j: int, start: int, end: int)
    requires 0 <= start <= i <= end < |s| && start <= j <= end
    ensures Rearranged(s, s[i := s[j]][j := s[i]], start, end)
  {
    var r := s[i := s[j]][j := s[i]];
    var a, b := s[start..end + 1], r[start..end + 1];
    assert b == a[i - start := a[j - start]][j - start := a[i - start]];
    assert multiset(b) == multiset(a);
  }

  lemma RearrangedTrans(s: seq<ActionMessage>, m: seq<ActionMessage>, r: seq<ActionMessage>, start: int, end: int)
    requires Rearranged(s, m, start, end) && Rearranged(m, r, start, end)
    ensures Rearranged(s, r, start, end)
  {
  }

  /** Rearranging a part of the range rearranges the range. */
  lemma RearrangedWider(s: seq<ActionMessage>, r: seq<ActionMessage>, lo: int, hi: int, start: int, end: int)
    requires Rearranged(s, r, lo, hi) && 0 <= start <= lo && hi <= end < |s| && start - 1 <= end
    ensures Rearranged(s, r, start, end)
  {
    assert s[start..end + 1] == s[start..lo] + s[lo..hi + 1] + s[hi + 1..end + 1];
    assert r[start..end + 1] == r[start..lo] + r[lo..hi + 1] + r[hi + 1..end + 1];
    assert r[start..lo] == s[start..lo] by {
      assert r[..lo][start..] == r[start..lo] && s[..lo][start..] == s[start..lo];
    }
    assert r[hi + 1..end + 1] == s[hi + 1..end + 1] by {
      assert r[hi + 1..][..end - hi] == r[hi + 1..end + 1] && s[hi + 1..][..end - hi] == s[hi + 1..end + 1];
    }
    assert r[..start] == r[..lo][..start] && s[..start] == s[..lo][..start];
    assert r[end + 1..] == r[hi + 1..][end - hi..] && s[end + 1..] == s[hi + 1..][end - hi..];
  }

  lemma RearrangedIds(s: seq<ActionMessage>, r: seq<ActionMessage>, start: int, end: int)
    requires Rearranged(s, r, start, end) && LegalIds(s)
    ensures LegalIds(r)
  {
    forall k | 0 <= k < |r|
      ensures 0 <= r[k].id < PLAYER_NUM
    {
      if k < start {
        assert r[k] == r[..start][k] == s[k];
      } else if k > end {
        assert r[k] == r[end + 1..][k - end - 1] == s[k];
      } else {
        assert r[start..end + 1][k - start] == r[k];
        assert r[k] in multiset(r[start..end + 1]);
        assert r[k] in s[start..end + 1];
      }
    }
  }

  method Swap(a: array<ActionMessage>, i: nat, j: nat)
    requires i < a.Length && j < a.Length
    modifies a
    ensures a[..] == old(a[..])[i := old(a[j])][j := old(a[i])]
  {
    var current := a[j];
    a[j] := a[i];
    a[i] := current;
  }

  method SwapInRange(a: array<ActionMessage>, i: nat, j: nat, start: int, end: int, ghost s: seq<ActionMessage>)
    requires 0 <= start <= i <= end < a.Length && start <= j <= end
    requires Rearranged(s, a[..], start, end) && LegalIds(a[..])
    modifies a
    ensures a[..] == old(a[..])[i := old(a[j])][j := old(a[i])]
    ensures Rearranged(s, a[..], start, end) && LegalIds(a[..])
  {
    ghost var m := a[..];
    SwapRearranges(m, i, j, start, end);
    Swap(a, i, j);
    RearrangedTrans(s, m, a[..], start, end);
    RearrangedIds(m, a[..], start, end);
  }

  /** Of the entries from start to i, exactly those before j do not stay right of the pivot. */
  ghost predicate Parted(s: seq<ActionMessage>, start: int, j: int, i: int, pivot: ActionMessage, last: seq<int>)
    requires LegalIds(s) && 0 <= pivot.id < PLAYER_NUM == |last|
  {
    && 0 <= start <= j <= i <= |s|
    && (forall k :: start <= k < j ==> !StaysRight(pivot, s[k], last))
    && (forall k :: j <= k < i ==> StaysRight(pivot, s[k], last))
  }

  lemma PartedSwap(s: seq<ActionMessage>, r: seq<ActionMessage>, start: int, j: int, i: int, pivot: ActionMessage, last: seq<int>)
    requires LegalIds(s) && LegalIds(r) && 0 <= pivot.id < PLAYER_NUM == |last|
    requires Parted(s, start, j, i, pivot, last) && i < |s| && !StaysRight(pivot, s[i], last)
    requires r == s[i := s[j]][j := s[i]]
    ensures Parted(r, start, j + 1, i + 1, pivot, last)
  {
  }

  /** What a partition around the last entry leaves: nothing before j stays right of the pivot, everything
      behind it does, apart from the entry that stood next to the pivot, which is not looked at. */
  ghost predicate Partitioned(s: seq<ActionMessage>, r: seq<ActionMessage>, start: int, j: int, end: int, last: seq<int>)
    requires LegalIds(r) && |last| == PLAYER_NUM
  {
    && 0 <= start <= j < end < |s| == |r| && r[j] == s[end]
    && (forall k :: start <= k < j ==> !StaysRight(r[j], r[k], last))
    && var skipped := if j < end - 1 then end - 1 else end;
      && r[skipped] == s[end - 1]
      && forall k :: j < k <= end && k != skipped ==> StaysRight(r[j], r[k], last)
  }

  lemma PartedLast(s: seq<ActionMessage>, m: seq<ActionMessage>, r: seq<ActionMessage>, start: int, j: int, end: int,
                   last: seq<int>)
    requires LegalIds(m) && LegalIds(r) && |last| == PLAYER_NUM && 0 <= start < end < |m| == |s|
    requires m[end] == s[end] && m[end - 1] == s[end - 1] && Parted(m, start, j, end - 1, m[end], last)
    requires r == m[j := m[end]][end := m[j]]
    ensures Partitioned(s, r, start, j, end, last)
  {
  }

  /** `game_action_partition`: the loop stops before the entry next to the pivot, so the pivot's final
      place is never the end of the range. */
  method Partition(a: array<ActionMessage>, start: int, end: int, last: seq<int>) returns (j: int)
    requires 0 <= start < end < a.Length && |last| == PLAYER_NUM && LegalIds(a[..])
    modifies a
    ensures start <= j <= end - 1
    ensures Rearranged(old(a[..]), a[..], start, end) && LegalIds(a[..])
    ensures Partitioned(old(a[..]), a[..], start, j, end, last)
    ensures end == start + 1 ==> a[..] == old(a[..])[start := old(a[end])][end := old(a[start])]
  {
    ghost var s := a[..];
    var pivot := a[end];
    j := start;
    for i := start to end - 1
      invariant start <= j <= i
      invariant a[end] == pivot && a[end - 1] == s[end - 1]
      invariant i == start ==> a[..] == s
      invariant Rearranged(s, a[..], start, end) && LegalIds(a[..])
      invariant Parted(a[..], start, j, i, pivot, last)
    {
      ghost var m := a[..];
      if !StaysRight(pivot, a[i], last) {
        SwapInRange(a, i, j, start, end, s);
        PartedSwap(m, a[..], start, j, i, pivot, last);
        j := j + 1;
      }
    }
    ghost var m := a[..];
    SwapInRange(a, j, end, start, end, s);
    PartedLast(s, m, a[..], start, j, end, last);
  }

  /** `game_action_quick_sort`: for any comparison outcomes it ends, permutes exactly the range and
      touches nothing outside it. */
  method QuickSort(a: array<ActionMessage>, start: int, end: int, last: seq<int>)
    requires 0 <= start && start - 1 <= end < a.Length && |last| == PLAYER_NUM && LegalIds(a[..])
    modifies a
    ensures Rearranged(old(a[..]), a[..], start, end) && LegalIds(a[..])
    ensures start >= end ==> a[..] == old(a[..])
    ensures end == start + 1 ==> a[..] == old(a[..])[start := old(a[end])][end := old(a[start])]
    decreases end - start + 1
  {
    if start >= end {
      return;
    }
    ghost var s := a[..];
    var pivot := Partition(a, start, end, last);
    ghost var m := a[..];
    QuickSort(a, start, pivot - 1, last);
    RearrangedWider(m, a[..], start, pivot - 1, start, end);
    RearrangedTrans(s, m, a[..], start, end);
    m := a[..];
    QuickSort(a, pivot + 1, end, last);
    RearrangedWider(m, a[..], pivot + 1, end, start, end);
    RearrangedTrans(s, m, a[..], start, end);
  }

  /** `game_actions_sort` of the first n entries. The frequency thread passes a count that it has reset to 0 but
      reads again without its lock: unless a message has arrived in between, the batch keeps the order of arrival. */
  method GameActionsSort(a: array<ActionMessage>, n: nat, last: seq<int>)
    requires n <= a.Length && |last| == PLAYER_NUM && LegalIds(a[..])
    modifies a
    ensures Rearranged(old(a[..]), a[..], 0, n - 1)
    ensures n <= 1 ==> a[..] == old(a[..])
    ensures n == 2 ==> a[..] == [old(a[1]), old(a[0])] + old(a[2..])
  {
    QuickSort(a, 0, n - 1, last);
  }
}
