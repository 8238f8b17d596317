/** The in-process counter/block store. Every operation holds the store's
    lock for its whole run, so each is one atomic state transition here; the
    clock is the explicit parameter `now` (integer nanoseconds). */
module Memory {

  /** `counts` and `expiryTime` describe the fixed counting window of each
      key; `blocked` holds the instant each penalty block ends. */
  datatype MemoryStore = MemoryStore(
    counts: map<string, int>,
    blocked: map<string, int>,
    expiryTime: map<string, int>)

  /** `k` is present in both maps with the same value, or absent from both. */
  predicate SameEntry(m1: map<string, int>, m2: map<string, int>, k: string)
  {
    (k in m1 <==> k in m2) && (k in m1 ==> m1[k] == m2[k])
  }

  /** Nothing the store holds for key `k` differs between `a` and `b`. */
  predicate SameKey(a: MemoryStore, b: MemoryStore, k: string)
  {
    SameEntry(a.counts, b.counts, k)
    && SameEntry(a.blocked, b.blocked, k)
    && SameEntry(a.expiryTime, b.expiryTime, k)
  }

  /** Two transitions that each leave every key but `key` alone compose into
      one that does. */
  lemma OthersUnchangedChain(a: MemoryStore, b: MemoryStore, c: MemoryStore, key: string)
    requires forall k :: k != key ==> SameKey(a, b, k)
    requires forall k :: k != key ==> SameKey(b, c, k)
    ensures forall k :: k != key ==> SameKey(a, c, k)
  {
    forall k | k != key
      ensures SameKey(a, c, k)
    {
      assert SameKey(a, b, k) && SameKey(b, c, k);
    }
  }

  /** The store invariant: a key has a count exactly when it has a window
      expiry, and every stored count is positive. */
  predicate Valid(s: MemoryStore)
  {
    && s.counts.Keys == s.expiryTime.Keys
    && forall k :: k in s.counts ==> s.counts[k] >= 1
  }

  /** Go's `now.After(expiry)`: the window ended strictly before `now`. */
  predicate Expired(s: MemoryStore, key: string, now: int)
  {
    key in s.expiryTime && now > s.expiryTime[key]
  }

  /** Reference view of the counters: the keys whose window is still open at
      `now`, with their counts. */
  ghost function LiveCounts(s: MemoryStore, now: int): map<string, int>
  {
    map k | k in s.counts && k in s.expiryTime && now <= s.expiryTime[k] :: s.counts[k]
  }

  function NewMemoryStore(): (s: MemoryStore)
    ensures Valid(s)
    ensures forall key, now :: GetRequestCount(s, key, now) == 0
    ensures forall key, now :: !IsBlocked(s, key, now)
  {
    MemoryStore(map[], map[], map[])
  }

  /** The count of the current window: 0 once it has expired, and 0 for a key
      never counted (Go's zero value for a missing map entry). */
  function GetRequestCount(s: MemoryStore, key: string, now: int): (n: int)
    ensures Valid(s) ==> n >= 0
    ensures Valid(s) ==> n == (if key in LiveCounts(s, now) then LiveCounts(s, now)[key] else 0)
  {
    if Expired(s, key, now) then 0
    else if key in s.counts then s.counts[key]
    else 0
  }

  /** Adds one request to `key`'s window. An expired window is discarded
      first; the window's expiry is set only when the count becomes 1. */
  function IncrementRequestCount(s: MemoryStore, key: string, expiration: int, now: int): (r: (int, MemoryStore))
    ensures r.0 == GetRequestCount(s, key, now) + 1
    ensures key in r.1.counts && r.1.counts[key] == r.0
    ensures r.0 == 1 ==> key in r.1.expiryTime && r.1.expiryTime[key] == now + expiration
    ensures r.0 > 1 ==> r.1.expiryTime == s.expiryTime
    ensures expiration >= 0 ==> GetRequestCount(r.1, key, now) == r.0
    ensures r.1.blocked == s.blocked
    ensures forall k :: k != key ==> SameKey(s, r.1, k)
    ensures Valid(s) ==> Valid(r.1)
  {
    var s1 := if Expired(s, key, now)
      then s.(counts := s.counts - {key}, expiryTime := s.expiryTime - {key})
      else s;
    var count := (if key in s1.counts then s1.counts[key] else 0) + 1;
    var expiryTime := if count == 1 then s1.expiryTime[key := now + expiration] else s1.expiryTime;
    (count, s1.(counts := s1.counts[key := count], expiryTime := expiryTime))
  }

  /** Go's `now.Before(blockUntil)` on the recorded block deadline. */
  function IsBlocked(s: MemoryStore, key: string, now: int): (b: bool)
    ensures b ==> key in s.blocked
  {
    key in s.blocked && now < s.blocked[key]
  }

  /** Blocks `key` until `now + blockTime` and discards its counting window. */
  function Block(s: MemoryStore, key: string, blockTime: int, now: int): (s': MemoryStore)
    ensures key in s'.blocked && s'.blocked[key] == now + blockTime
    ensures key !in s'.counts && key !in s'.expiryTime
    ensures forall t :: IsBlocked(s', key, t) <==> t < now + blockTime
    ensures forall t :: GetRequestCount(s', key, t) == 0
    ensures forall k :: k != key ==> SameKey(s, s', k)
    ensures Valid(s) ==> Valid(s')
  {
    MemoryStore(s.counts - {key}, s.blocked[key := now + blockTime], s.expiryTime - {key})
  }

  /** The in-memory store has nothing to release. */
  function Close(s: MemoryStore): (ok: bool)
    ensures ok
  {
    true
  }

  /** The entries of `m` left after removing every key of `swept` whose
      deadline in `deadlines` lies strictly before `now`. */
  function DropExpired(m: map<string, int>, deadlines: map<string, int>, swept: set<string>, now: int): (r: map<string, int>)
    ensures r.Keys <= m.Keys
    ensures forall k :: k in r ==> r[k] == m[k]
  {
    map k | k in m && !(k in swept && k in deadlines && now > deadlines[k]) :: m[k]
  }

  /** Sweeping one more key removes it exactly when its deadline has passed. */
  lemma DropOneMore(m: map<string, int>, deadlines: map<string, int>, swept: set<string>, key: string, now: int)
    requires key in deadlines
    ensures DropExpired(m, deadlines, swept + {key}, now)
         == if now > deadlines[key] then DropExpired(m, deadlines, swept, now) - {key}
            else DropExpired(m, deadlines, swept, now)
  {
    var a := DropExpired(m, deadlines, swept + {key}, now);
    var b := if now > deadlines[key] then DropExpired(m, deadlines, swept, now) - {key}
             else DropExpired(m, deadlines, swept, now);
    assert a.Keys == b.Keys;
  }

  /** The store's `cleanup` method as one atomic transition: it drops every
      window and every block whose deadline lies strictly before `now`. The
      program defines this sweep but never starts the routine that runs it. */
  function Cleanup(s: MemoryStore, now: int): (s': MemoryStore)
    ensures forall k :: k in s'.expiryTime ==> now <= s'.expiryTime[k]
    ensures forall k :: k in s'.blocked ==> now <= s'.blocked[k]
    ensures forall k :: k in s'.counts <==> k in s.counts && !Expired(s, k, now)
    ensures forall k :: k in s'.expiryTime <==> k in s.expiryTime && now <= s.expiryTime[k]
    ensures forall k :: k in s'.blocked <==> k in s.blocked && now <= s.blocked[k]
    ensures forall k :: k in s'.counts ==> s'.counts[k] == s.counts[k]
    ensures forall key, t :: now <= t ==> GetRequestCount(s', key, t) == GetRequestCount(s, key, t)
    ensures forall key, t :: now <= t ==> IsBlocked(s', key, t) == IsBlocked(s, key, t)
    ensures Valid(s) ==> Valid(s')
  {
    MemoryStore(
      DropExpired(s.counts, s.expiryTime, s.expiryTime.Keys, now),
      DropExpired(s.blocked, s.blocked, s.blocked.Keys, now),
      DropExpired(s.expiryTime, s.expiryTime, s.expiryTime.Keys, now))
  }

  /** Because the sweep changes no count or block answer from `now` on, an
      increment after it returns what it would have returned without it. */
  lemma CleanupIsUnobservable(s: MemoryStore, now: int, key: string, t: int, expiration: int)
    requires now <= t
    ensures IncrementRequestCount(Cleanup(s, now), key, expiration, t).0
         == IncrementRequestCount(s, key, expiration, t).0
  {
  }

  /** A second sweep at the same instant finds nothing left to remove. */
  lemma CleanupIdempotent(s: MemoryStore, now: int)
    ensures Cleanup(Cleanup(s, now), now) == Cleanup(s, now)
  {
  }

  /** Go's first sweep loop: one pass over the window expiries, deleting the
      count and expiry of each key whose window has run out. */
  method SweepWindows(s: MemoryStore, now: int) returns (counts: map<string, int>, expiryTime: map<string, int>)
    ensures counts == DropExpired(s.counts, s.expiryTime, s.expiryTime.Keys, now)
    ensures expiryTime == DropExpired(s.expiryTime, s.expiryTime, s.expiryTime.Keys, now)
  {
    counts, expiryTime := s.counts, s.expiryTime;
    var pending := s.expiryTime.Keys;
    while pending != {}
      invariant pending <= s.expiryTime.Keys
      invariant counts == DropExpired(s.counts, s.expiryTime, s.expiryTime.Keys - pending, now)
      invariant expiryTime == DropExpired(s.expiryTime, s.expiryTime, s.expiryTime.Keys - pending, now)
      decreases pending
    {
      var key :| key in pending;
      var swept := s.expiryTime.Keys - pending;
      DropOneMore(s.counts, s.expiryTime, swept, key, now);
      DropOneMore(s.expiryTime, s.expiryTime, swept, key, now);
      if now > s.expiryTime[key] {
        counts := counts - {key};
        expiryTime := expiryTime - {key};
      }
      pending := pending - {key};
      assert s.expiryTime.Keys - pending == swept + {key};
    }
  }

  /** Go's second sweep loop: one pass over the block deadlines, deleting
      each block that has run out. */
  method SweepBlocks(s: MemoryStore, now: int) returns (blocked: map<string, int>)
    ensures blocked == DropExpired(s.blocked, s.blocked, s.blocked.Keys, now)
  {
    blocked := s.blocked;
    var pending := s.blocked.Keys;
    while pending != {}
      invariant pending <= s.blocked.Keys
      invariant blocked == DropExpired(s.blocked, s.blocked, s.blocked.Keys - pending, now)
      decreases pending
    {
      var key :| key in pending;
      var swept := s.blocked.Keys - pending;
      DropOneMore(s.blocked, s.blocked, swept, key, now);
      if now > s.blocked[key] {
        blocked := blocked - {key};
      }
      pending := pending - {key};
      assert s.blocked.Keys - pending == swept + {key};
    }
  }

  /** The whole sweep computes exactly the `Cleanup` transition. */
  method Sweep(s: MemoryStore, now: int) returns (r: MemoryStore)
    ensures r == Cleanup(s, now)
  {
    var counts, expiryTime := SweepWindows(s, now);
    var blocked := SweepBlocks(s, now);
    r := MemoryStore(counts, blocked, expiryTime);
  }
}
