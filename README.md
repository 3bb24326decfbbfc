# JWT revocation blacklist

A Dafny model of the in-memory blacklist of revoked JWT token identifiers
(the `jti` claim) in `app/auth/redis.py`. The store is a table from token
identifier to an expiration instant. It has two operations:

- `add_to_blacklist(jti, exp)` inserts or overwrites the entry for `jti`. When
  no expiration is given it stores the current instant.
- `is_blacklisted(jti)` answers membership and evicts lazily. An absent key
  answers false. An entry whose expiration is strictly earlier than now is
  removed and answers false. Any other entry answers true and stays.

The wall clock is made explicit: every operation that reads the time takes the
current instant as a parameter `now: int`. Instants are integers on one clock
(for instance microseconds since the epoch).

Files:

- `blacklist.dfy`, module `TokenBlacklist`. It holds the specification
  functions on table values: `StoredExpiry`, `Inserted`, `Lookup`, `Revoked`
  and `RevokedAt`. It holds the lemmas about them. It holds the class
  `Blacklist`, whose field `table: map<string, int>` is the source's
  module-level dictionary and whose methods `Add` and `IsBlacklisted` update
  it in place. Two client methods, `CheckFresh` and `RevokeThenCheckTwice`,
  use only the class's contracts.
- `call_sequences.dfy`, module `BlacklistCalls`. It models a sequence of calls
  (`Call`, `Run`) and proves what any such sequence leaves in the table.

Two points of behaviour are stated as lemmas rather than changed:

- The docstring of `add_to_blacklist` says that an entry stored without an
  expiration is treated as currently invalid. The comparison is strict, so
  this only holds for a check at an instant no later than the add. Any
  strictly later check evicts the entry and answers false
  (`NoExpiryRevokedOnlyUntilAddInstant`).
- Lazy eviction cannot be observed by a check at the same or a later instant
  (`LookupKeepsRevoked`). It can be observed if the clock goes back
  (`EvictionVisibleToEarlierCheck`). The source reads the wall clock, which
  gives no monotonicity guarantee.

## Model

| member | source | states |
|---|---|---|
| `TokenBlacklist.StoredExpiry` | app/auth/redis.py:17-18 | the stored instant is the given expiration, or the call-time instant when none is given |
| `TokenBlacklist.Inserted` | app/auth/redis.py:19 | after an add, the keys are the old keys plus `jti`, `jti` maps to the stored instant, and every other entry is unchanged |
| `TokenBlacklist.Lookup` | app/auth/redis.py:22-38 | the answer is true exactly when `jti` is present with expiration `>= now` (the equality boundary included); a true answer leaves the table unchanged; a false answer leaves the table minus `jti` only, with `jti` absent; an absent key gives false and no change |
| `TokenBlacklist.InsertedOverwrites` | app/auth/redis.py:19 | two adds of the same identifier leave the same table as the second add alone |
| `TokenBlacklist.AddThenLookup` | app/auth/redis.py:11-38 | a check right after an add answers true exactly when the check instant is not after the stored instant; otherwise the added entry is evicted and exactly the table before the add, minus `jti`, remains |
| `TokenBlacklist.NoExpiryRevokedOnlyUntilAddInstant` | app/auth/redis.py:14-33 | an entry added without expiration is blacklisted only by checks at instants no later than the add, and any strictly later check removes it |
| `TokenBlacklist.LookupIdempotent` | app/auth/redis.py:33-38 | a second check of the same identifier at the same instant gives the same answer and leaves the same table |
| `TokenBlacklist.LookupKeepsRevoked` | app/auth/redis.py:31-36 | eviction leaves the set of identifiers revoked at any instant not earlier than the check unchanged |
| `TokenBlacklist.EvictionVisibleToEarlierCheck` | app/auth/redis.py:32-35 | with a clock going back, an entry evicted at a later instant would still have been revoked at the earlier one |
| `TokenBlacklist.Blacklist.constructor` | app/auth/redis.py:8 | a new store has an empty table |
| `TokenBlacklist.Blacklist.Add` | app/auth/redis.py:11-19 | the new table is the old table with `jti` set to the given expiration, or to `now` when none is given |
| `TokenBlacklist.Blacklist.IsBlacklisted` | app/auth/redis.py:22-38 | returns true exactly when `jti` was present with expiration `>= now`; on true the table is unchanged; on false only `jti` is removed and it is absent afterwards; an absent key gives false and no change |
| `TokenBlacklist.CheckFresh` | app/auth/redis.py:8-29 | a store that starts empty answers false for any identifier |
| `TokenBlacklist.RevokeThenCheckTwice` | app/auth/redis.py:11-38 | after an add, two checks at the same instant agree, answer true exactly when the instant is not after the stored instant, and the entry stays exactly then |
| `BlacklistCalls.RunKeys` | app/auth/redis.py:8-38 | after any sequence of calls every key in the table was in the starting table or was added by one of the calls |
| `BlacklistCalls.NeverAddedStaysAbsent` | app/auth/redis.py:19-35 | an identifier never added and not initially present is absent after any sequence of calls |
| `BlacklistCalls.NeverAddedNeverBlacklisted` | app/auth/redis.py:27-29 | on a store that starts empty, checking an identifier that no call added answers false and changes nothing |
| `BlacklistCalls.LastAddWins` | app/auth/redis.py:19 | an entry still present after any calls holds the instant of the last add of its identifier, or its starting value when there was no add |
| `BlacklistCalls.EmptyStartLastAddWins` | app/auth/redis.py:8-19 | on a store that starts empty, every remaining entry was recorded by the last add of its identifier |

## Left out

- Reading the wall clock (`datetime.now(timezone.utc)`): every operation takes the current instant as the parameter `now` instead.
- `datetime` values, time zones and their arithmetic: instants are integers. Comparing a naive `exp` with the aware current time raises `TypeError` in the source; the model has no naive instants, so it has no such error.
- The module-level singleton: the table is a field of a `Blacklist` object that starts empty.
- Concurrency: the source has no synchronisation and assumes serialized calls; the model is sequential.
- Redis, networking and persistence: the source has none despite its file name.
- Callers such as authentication middleware and JWT decoding: they are not part of this model.
