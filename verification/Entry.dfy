/** A stored value with its optional expiry deadline (src/core/entry.h). */
module Entries {
  import opened Common

  datatype Entry = Entry(value: Value, createdAt: uint64, expireAt: uint64) {
    predicate HasTTL() {
      expireAt != 0
    }

    /** The clock reading is an argument: the source reads the system clock here. */
    predicate IsExpired(now: uint64) {
      expireAt != 0 && now >= expireAt
    }
  }

  /** Deadlines are 64-bit sums and wrap; 0 stands for "never". */
  function DeadlineAfter(now: uint64, ttl: uint64): uint64 {
    if ttl == 0 then 0 else (now + ttl) % WORD
  }

  function NewEntry(value: Value, now: uint64): Entry {
    Entry(value, now, 0)
  }

  function NewEntryWithTTL(value: Value, ttl: uint64, now: uint64): Entry {
    Entry(value, now, DeadlineAfter(now, ttl))
  }

  /** How long an entry lives, for every TTL and clock reading: a TTL of 0 and a sum of exactly
      2^64 mean "forever", a larger sum means "expired at once". */
  lemma {:induction false} Lifetime(value: Value, ttl: uint64, now: uint64, later: uint64)
    requires now <= later
    ensures NewEntryWithTTL(value, ttl, now).IsExpired(later) <==>
            ttl != 0 && now + ttl != WORD && (now + ttl > WORD || later - now >= ttl)
  {
  }

  /** Expiry is permanent under a clock that does not run backwards. */
  lemma {:induction false} ExpiryIsPermanent(e: Entry, now: uint64, later: uint64)
    requires now <= later && e.IsExpired(now)
    ensures e.IsExpired(later)
  {
  }
}
