/** The bomb list under one pass of `update_bombs`, apart from what the explosions do to the board.
    The pass overwrites an exploded entry with the last one and moves on, so it does not look at
    the entry it has just moved in. */
module BombList {
  import opened Rules

  predicate Expired(b: BombRecord, now: int) {
    now - b.placed >= BOMB_LIFETIME
  }

  function CountExpired(s: seq<BombRecord>, now: int): (n: nat)
    ensures n <= |s|
  {
    if s == [] then 0 else (if Expired(s[0], now) then 1 else 0) + CountExpired(s[1..], now)
  }

  function SwapRemove(bombs: seq<BombRecord>, i: nat): (r: seq<BombRecord>)
    requires i < |bombs|
    ensures |r| == |bombs| - 1
    ensures forall k :: 0 <= k < |r| ==> r[k] == if k == i then bombs[|bombs| - 1] else bombs[k]
  {
    bombs[i := bombs[|bombs| - 1]][..|bombs| - 1]
  }

  /** What is left of the list when the pass has reached index i and runs to its end. */
  function Remaining(bombs: seq<BombRecord>, now: int, i: nat): seq<BombRecord>
    decreases |bombs| - i
  {
    if i >= |bombs| then bombs
    else if Expired(bombs[i], now) then Remaining(SwapRemove(bombs, i), now, i + 1)
    else Remaining(bombs, now, i + 1)
  }

  /** The bombs that explode from index i on, in order. */
  function Exploded(bombs: seq<BombRecord>, now: int, i: nat): seq<BombRecord>
    decreases |bombs| - i
  {
    if i >= |bombs| then []
    else if Expired(bombs[i], now) then [bombs[i]] + Exploded(SwapRemove(bombs, i), now, i + 1)
    else Exploded(bombs, now, i + 1)
  }

  // ---- counting -----------------------------------------------------------------------

  lemma {:induction false} CountAppend(a: seq<BombRecord>, b: seq<BombRecord>, now: int)
    ensures CountExpired(a + b, now) == CountExpired(a, now) + CountExpired(b, now)
  {
    if a == [] {
      assert a + b == b;
    } else {
      CountAppend(a[1..], b, now);
      assert (a + b)[1..] == a[1..] + b;
    }
  }

  lemma CountSplit(s: seq<BombRecord>, i: nat, now: int)
    requires i < |s|
    ensures CountExpired(s[i..], now) == (if Expired(s[i], now) then 1 else 0) + CountExpired(s[i + 1..], now)
  {
    assert s[i..][1..] == s[i + 1..];
  }

  lemma CountLast(s: seq<BombRecord>, i: nat, now: int)
    requires i < |s|
    ensures CountExpired(s[i..], now)
         == CountExpired(s[i..|s| - 1], now) + if Expired(s[|s| - 1], now) then 1 else 0
  {
    var n := |s| - 1;
    assert s[i..] == s[i..n] + [s[n]];
    CountAppend(s[i..n], [s[n]], now);
    assert [s[n]][1..] == [];
  }

  /** The unexamined part after an explosion: the old rest without the entry that was moved away. */
  lemma SwapRemoveRest(bombs: seq<BombRecord>, i: nat, m: nat)
    requires i < m < |bombs|
    ensures SwapRemove(bombs, i)[m..] == bombs[m..|bombs| - 1]
  {
  }

  lemma SwapRemoveFirst(bombs: seq<BombRecord>, now: int)
    requires bombs != []
    ensures CountExpired(SwapRemove(bombs, 0), now)
         == CountExpired(bombs, now) - if Expired(bombs[0], now) then 1 else 0
  {
    var n := |bombs| - 1;
    if n > 0 {
      CountLast(bombs, 1, now);
      assert SwapRemove(bombs, 0)[0] == bombs[n] && SwapRemove(bombs, 0)[1..] == bombs[1..n];
    }
  }

  lemma {:induction false} SwapRemoveCount(bombs: seq<BombRecord>, i: nat, now: int)
    requires i < |bombs|
    ensures CountExpired(SwapRemove(bombs, i), now)
         == CountExpired(bombs, now) - if Expired(bombs[i], now) then 1 else 0
  {
    if i == 0 {
      SwapRemoveFirst(bombs, now);
    } else {
      SwapRemoveCount(bombs[1..], i - 1, now);
      assert SwapRemove(bombs, i)[1..] == SwapRemove(bombs[1..], i - 1);
    }
  }

  lemma SwapRemoveMultiset(bombs: seq<BombRecord>, i: nat)
    requires i < |bombs|
    ensures multiset(SwapRemove(bombs, i)) + multiset{bombs[i]} == multiset(bombs)
  {
    var r, n := SwapRemove(bombs, i), |bombs| - 1;
    assert bombs == bombs[..i] + [bombs[i]] + bombs[i + 1..];
    if i < n {
      assert bombs[i + 1..] == bombs[i + 1..n] + [bombs[n]];
      assert r == bombs[..i] + [bombs[n]] + bombs[i + 1..n];
    } else {
      assert r == bombs[..i];
    }
  }

  // ---- the laws of one pass -----------------------------------------------------------

  /** No bomb is lost or duplicated: what explodes and what remains is what was there. */
  lemma {:induction false} PassConserves(bombs: seq<BombRecord>, now: int, i: nat)
    ensures multiset(Exploded(bombs, now, i)) + multiset(Remaining(bombs, now, i)) == multiset(bombs)
    decreases |bombs| - i
  {
    if i < |bombs| {
      if Expired(bombs[i], now) {
        var rest := SwapRemove(bombs, i);
        PassConserves(rest, now, i + 1);
        SwapRemoveMultiset(bombs, i);
        assert multiset(Exploded(bombs, now, i)) == multiset{bombs[i]} + multiset(Exploded(rest, now, i + 1));
      } else {
        PassConserves(bombs, now, i + 1);
      }
    }
  }

  lemma {:induction false} OnlyExpiredExplode(bombs: seq<BombRecord>, now: int, i: nat)
    ensures forall b :: b in Exploded(bombs, now, i) ==> Expired(b, now)
    decreases |bombs| - i
  {
    if i < |bombs| {
      OnlyExpiredExplode(if Expired(bombs[i], now) then SwapRemove(bombs, i) else bombs, now, i + 1);
    }
  }

  lemma {:induction false} PassCounts(bombs: seq<BombRecord>, now: int, i: nat)
    ensures CountExpired(Remaining(bombs, now, i), now) + |Exploded(bombs, now, i)| == CountExpired(bombs, now)
    decreases |bombs| - i
  {
    if i < |bombs| {
      if Expired(bombs[i], now) {
        PassCounts(SwapRemove(bombs, i), now, i + 1);
        SwapRemoveCount(bombs, i, now);
      } else {
        PassCounts(bombs, now, i + 1);
      }
    }
  }

  /** From index i on, at least half of the expired bombs not yet examined explode. */
  lemma {:induction false} HalfExplodeFrom(bombs: seq<BombRecord>, now: int, i: nat)
    requires i <= |bombs|
    ensures |Exploded(bombs, now, i)| <= CountExpired(bombs[i..], now) <= 2 * |Exploded(bombs, now, i)|
    decreases |bombs| - i
  {
    if i < |bombs| {
      CountSplit(bombs, i, now);
      if !Expired(bombs[i], now) {
        HalfExplodeFrom(bombs, now, i + 1);
      } else if i + 1 < |bombs| {
        HalfExplodeFrom(SwapRemove(bombs, i), now, i + 1);
        SwapRemoveAt(bombs, i, now);
      }
    }
  }

  lemma SwapRemoveAt(bombs: seq<BombRecord>, i: nat, now: int)
    requires i + 1 < |bombs|
    ensures CountExpired(bombs[i + 1..], now)
         == CountExpired(SwapRemove(bombs, i)[i + 1..], now) + if Expired(bombs[|bombs| - 1], now) then 1 else 0
  {
    CountLast(bombs, i + 1, now);
    SwapRemoveRest(bombs, i, i + 1);
  }

  /** The halving law: a pass explodes at least half of the expired bombs, and nothing else. */
  lemma HalvingLaw(bombs: seq<BombRecord>, now: int)
    ensures var k, e := CountExpired(bombs, now), Exploded(bombs, now, 0);
      && (k + 1) / 2 <= |e| <= k
      && (forall b :: b in e ==> now - b.placed >= 3)
      && CountExpired(Remaining(bombs, now, 0), now) == k - |e| <= k / 2
  {
    HalfExplodeFrom(bombs, now, 0);
    assert bombs[0..] == bombs;
    OnlyExpiredExplode(bombs, now, 0);
    PassCounts(bombs, now, 0);
  }

  predicate NoneAtEnd(bombs: seq<BombRecord>, now: int, k: nat)
    requires k <= |bombs|
  {
    k == 0 || CountExpired(bombs[|bombs| - k + 1..], now) == 0
  }

  /** Exploding entry i, which is not the last, leaves the same question about one bomb fewer, unless the
      entry moved in has expired: that one will be missed. */
  lemma AllExplodeStep(bombs: seq<BombRecord>, now: int, i: nat)
    requires i + 1 < |bombs| && Expired(bombs[i], now)
    ensures var rest, k := SwapRemove(bombs, i), CountExpired(bombs[i..], now);
      if Expired(bombs[|bombs| - 1], now)
      then !NoneAtEnd(bombs, now, k) && |Exploded(bombs, now, i)| < k
      else k >= 1 && CountExpired(rest[i + 1..], now) == k - 1 && (NoneAtEnd(rest, now, k - 1) <==> NoneAtEnd(bombs, now, k))
  {
    var rest, n, k := SwapRemove(bombs, i), |bombs|, CountExpired(bombs[i..], now);
    CountSplit(bombs, i, now);
    SwapRemoveAt(bombs, i, now);
    HalfExplodeFrom(rest, now, i + 1);
    if k > 1 {
      CountLast(bombs, n - k + 1, now);
      if !Expired(bombs[n - 1], now) {
        SwapRemoveRest(bombs, i, n - k + 1);
      }
    } else {
      assert bombs[n..] == [];
    }
  }

  /** Every expired bomb not yet examined explodes exactly when, k of them being left, none of the
      last k - 1 entries is one of them. */
  lemma {:induction false} AllExplodeFrom(bombs: seq<BombRecord>, now: int, i: nat)
    requires i <= |bombs|
    ensures var k := CountExpired(bombs[i..], now);
      |Exploded(bombs, now, i)| == k <==> NoneAtEnd(bombs, now, k)
    decreases |bombs| - i
  {
    var n, k := |bombs|, CountExpired(bombs[i..], now);
    if i < n {
      CountSplit(bombs, i, now);
      if !Expired(bombs[i], now) {
        AllExplodeFrom(bombs, now, i + 1);
      } else if i + 1 == n {
        assert bombs[n..] == [];
      } else {
        AllExplodeStep(bombs, now, i);
        AllExplodeFrom(SwapRemove(bombs, i), now, i + 1);
      }
    }
  }

  /** One pass clears every expired bomb exactly when none of the last k - 1 entries has expired, k being
      the number of expired bombs; the interface comment promises it always. */
  lemma ClearedByOnePassIff(bombs: seq<BombRecord>, now: int)
    ensures var k := CountExpired(bombs, now);
      CountExpired(Remaining(bombs, now, 0), now) == 0 <==> NoneAtEnd(bombs, now, k)
  {
    AllExplodeFrom(bombs, now, 0);
    assert bombs[0..] == bombs;
    PassCounts(bombs, now, 0);
  }

  /** Two bombs dropped together: the first pass that finds them expired leaves one of them. */
  lemma OnePassCanLeaveAnExpiredBomb(a: BombRecord, b: BombRecord, now: int)
    requires Expired(a, now) && Expired(b, now)
    ensures Remaining([a, b], now, 0) == [b]
  {
    assert SwapRemove([a, b], 0) == [b];
    assert Remaining([b], now, 1) == [b];
  }

  // ---- repeated passes ----------------------------------------------------------------

  function Passes(bombs: seq<BombRecord>, now: int, n: nat): seq<BombRecord>
    decreases n
  {
    if n == 0 then bombs else Passes(Remaining(bombs, now, 0), now, n - 1)
  }

  function Pow2(n: nat): (p: nat)
    ensures p >= 1
  {
    if n == 0 then 1 else 2 * Pow2(n - 1)
  }

  function FloorLog2(k: nat): (n: nat)
    ensures k >= 1 ==> Pow2(n) <= k < Pow2(n + 1)
  {
    if k < 2 then 0 else 1 + FloorLog2(k / 2)
  }

  /** At a fixed time, floor(log2 k) + 1 passes leave none of k expired bombs. */
  lemma {:induction false} PassesClear(bombs: seq<BombRecord>, now: int)
    ensures CountExpired(Passes(bombs, now, FloorLog2(CountExpired(bombs, now)) + 1), now) == 0
  {
    PassesClearUpTo(bombs, now, CountExpired(bombs, now));
  }

  lemma {:induction false} PassesClearUpTo(bombs: seq<BombRecord>, now: int, k: nat)
    requires CountExpired(bombs, now) <= k
    ensures CountExpired(Passes(bombs, now, FloorLog2(k) + 1), now) == 0
    decreases k
  {
    HalvingLaw(bombs, now);
    var rest := Remaining(bombs, now, 0);
    assert Passes(bombs, now, FloorLog2(k) + 1) == Passes(rest, now, FloorLog2(k));
    if k >= 2 {
      PassesClearUpTo(rest, now, k / 2);
    }
  }
}
