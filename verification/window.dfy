/** The sequence-number window of `is_next_message`. */
module Window {
  import opened Board

  /** `is_next_message`, for a limit such as 4095; the wrapped branch includes its upper bound. */
  predicate IsNext(last: int, num: int, limit: int)
    requires limit > 0
  {
    var justAfter := (last + 1) % limit;
    var limitNext := (last + 1 + limit / 2) % limit;
    if justAfter < limitNext then
      num >= justAfter && num < limitNext
    else
      (num >= justAfter && num < limit) || num <= limitNext
  }

  /** How far num lies ahead of last, modulo the limit. */
  function Ahead(last: int, num: int, limit: int): (d: int)
    requires limit > 0
    ensures 0 <= d < limit
  {
    (num - last) % limit
  }

  /** The window starting after `last` runs over the end of the number range. */
  predicate Wraps(last: int, limit: int) {
    last + 1 < limit <= last + 1 + limit / 2
  }

  lemma ModOnce(x: int, limit: int)
    requires limit > 0 && -limit <= x < 2 * limit
    ensures x % limit == if x < 0 then x + limit else if x < limit then x else x - limit
  {
    if x < 0 {
      QuotientUnique(x, limit, -1, x + limit);
    } else if x < limit {
      QuotientUnique(x, limit, 0, x);
    } else {
      QuotientUnique(x, limit, 1, x - limit);
    }
  }

  /** The window, exactly: up to half the limit ahead, one more when it wraps; never `last` itself and
      never a number outside the range. */
  lemma WindowExact(last: int, num: int, limit: int)
    requires limit >= 3 && 0 <= last < limit && 0 <= num
    ensures IsNext(last, num, limit) <==>
      num < limit && 1 <= Ahead(last, num, limit) <= limit / 2 + if Wraps(last, limit) then 1 else 0
  {
    ModOnce(last + 1, limit);
    ModOnce(last + 1 + limit / 2, limit);
    if num < limit {
      ModOnce(num - last, limit);
    }
  }

  /** Once an accepted number has become the last one, a number accepted before that lies no further ahead
      is refused, also at the inclusive end of a wrapped window. The limit has to be odd, as 4095 is. */
  lemma OlderRefused(last: int, newer: int, older: int, limit: int)
    requires limit >= 3 && limit % 2 == 1 && 0 <= last < limit && 0 <= newer && 0 <= older
    requires IsNext(last, newer, limit) && IsNext(last, older, limit)
    requires Ahead(last, older, limit) <= Ahead(last, newer, limit)
    ensures !IsNext(newer, older, limit)
  {
    WindowExact(last, newer, limit);
    WindowExact(last, older, limit);
    WindowExact(newer, older, limit);
    ModOnce(newer - last, limit);
    ModOnce(older - last, limit);
    ModOnce(older - newer, limit);
  }

  /** That oddness is needed: with any even limit from 4 on, an older number can be accepted again. */
  lemma OlderAcceptedForEvenLimit(limit: int)
    requires limit >= 4 && limit % 2 == 0
    ensures var last, newer, older := limit / 2, 1, limit / 2 + 1;
      && IsNext(last, newer, limit) && IsNext(last, older, limit)
      && Ahead(last, older, limit) < Ahead(last, newer, limit) && IsNext(newer, older, limit)
  {
    var half := limit / 2;
    WindowExact(half, 1, limit);
    WindowExact(half, half + 1, limit);
    WindowExact(1, half + 1, limit);
    ModOnce(1 - half, limit);
    ModOnce(1, limit);
    ModOnce(half, limit);
  }

  // ---- a client's own numbering against the server's window -----------------------------------------

  /** Clients number their messages modulo 2^13. */
  const CLIENT_NUMBERS := 8192

  /** The server's last number after the first n messages of a client, taken one at a time. */
  function LastOfRun(start: int, limit: int, n: nat): int
    requires limit > 0
  {
    if n == 0 then start
    else
      var last, num := LastOfRun(start, limit, n - 1), (n - 1) % CLIENT_NUMBERS;
      if IsNext(last, num, limit) then num else last
  }

  lemma Successor(n: nat)
    requires n > 0
    ensures n % CLIENT_NUMBERS == if (n - 1) % CLIENT_NUMBERS == CLIENT_NUMBERS - 1 then 0 else (n - 1) % CLIENT_NUMBERS + 1
  {
    var q, r := (n - 1) / CLIENT_NUMBERS, (n - 1) % CLIENT_NUMBERS;
    if r == CLIENT_NUMBERS - 1 {
      QuotientUnique(n, CLIENT_NUMBERS, q + 1, 0);
    } else {
      QuotientUnique(n, CLIENT_NUMBERS, q, r + 1);
    }
  }

  /** Before message n the server's last number is the one before n's, or the largest while n's is out of range. */
  lemma {:induction false} LastOfRunIs(limit: int, n: nat)
    requires 3 <= limit <= CLIENT_NUMBERS
    ensures var k := n % CLIENT_NUMBERS;
      LastOfRun(limit - 1, limit, n) == if 1 <= k < limit then k - 1 else limit - 1
  {
    if n > 0 {
      LastOfRunIs(limit, n - 1);
      NextOfRun(limit, n - 1);
      Successor(n);
    }
  }

  lemma NextOfRun(limit: int, n: nat)
    requires 3 <= limit <= CLIENT_NUMBERS
    ensures var k := n % CLIENT_NUMBERS;
      IsNext(if 1 <= k < limit then k - 1 else limit - 1, k, limit) <==> k < limit
  {
    var k := n % CLIENT_NUMBERS;
    if 1 <= k < limit {
      WindowExact(k - 1, k, limit);
      ModOnce(1, limit);
    } else {
      WindowExact(limit - 1, k, limit);
      if k < limit {
        ModOnce(k - (limit - 1), limit);
      }
    }
  }

  /** A client that numbers its messages from 0 modulo 8192, all of which arrive, against a server that starts
      one below its limit: message n is accepted exactly when its number is below the limit. With the limit
      4095 that drops 4097 of any 8192 messages. */
  lemma AcceptedOfRunIff(limit: int, n: nat)
    requires 3 <= limit <= CLIENT_NUMBERS
    ensures IsNext(LastOfRun(limit - 1, limit, n), n % CLIENT_NUMBERS, limit) <==> n % CLIENT_NUMBERS < limit
  {
    LastOfRunIs(limit, n);
    NextOfRun(limit, n);
  }
}
