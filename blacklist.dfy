/**
 An in-memory blacklist of revoked JWT token identifiers (the `jti` claim).

 The store is a table from token identifier to an expiration instant. Instants
 are integers on one clock (for instance microseconds since the epoch); the
 clock itself is not read here: every operation that needs the current
 instant takes it as the parameter `now`.

 The operations are given twice: as functions on table values, which are the
 specification and what the lemmas talk about, and as methods of the class
 `Blacklist`, which update the table field in place and are proved against
 those functions.
 */
module TokenBlacklist {

  datatype Option<T> = None | Some(value: T)

  /** A table from token identifier to the instant its revocation expires. */
  type Table = map<string, int>

  /** The instant recorded for a new entry: the given expiration, or the
      call-time instant when none is given. */
  function StoredExpiry(exp: Option<int>, now: int): (e: int)
    ensures exp.Some? ==> e == exp.value
    ensures exp.None? ==> e == now
  {
    match exp
    case Some(v) => v
    case None => now
  }

  /** The logical blacklist: `jti` is revoked at `now` when it has an entry
      that has not yet expired. An entry expiring exactly at `now` still
      counts as revoked. */
  predicate Revoked(t: Table, jti: string, now: int)
  {
    jti in t && now <= t[jti]
  }

  /** The table after adding `jti`: the entry is inserted or overwritten and
      every other entry is kept as it was. */
  function Inserted(t: Table, jti: string, exp: Option<int>, now: int): (r: Table)
    ensures r.Keys == t.Keys + {jti}
    ensures r[jti] == StoredExpiry(exp, now)
    ensures forall k :: k in t && k != jti ==> r[k] == t[k]
  {
    t[jti := StoredExpiry(exp, now)]
  }

  /** What a membership check returns, together with the table it leaves. */
  datatype Answer = Answer(blacklisted: bool, table: Table)

  /** A membership check with lazy eviction: an absent key is not
      blacklisted; an entry that expired strictly before `now` is removed and
      is not blacklisted; any other entry is blacklisted and stays. */
  function Lookup(t: Table, jti: string, now: int): (r: Answer)
    ensures r.blacklisted <==> Revoked(t, jti, now)
    ensures r.blacklisted ==> r.table == t
    ensures !r.blacklisted ==> r.table == t - {jti} && jti !in r.table
    ensures jti !in t ==> r == Answer(false, t)
  {
    if jti !in t then Answer(false, t)
    else if t[jti] < now then Answer(false, t - {jti})
    else Answer(true, t)
  }

  /** The identifiers that are revoked at `now`. */
  function RevokedAt(t: Table, now: int): set<string>
  {
    set k | k in t && now <= t[k]
  }

  /** Overwriting: the second add of the same identifier decides its entry,
      whatever the first one stored. */
  lemma InsertedOverwrites(t: Table, jti: string, exp1: Option<int>, now1: int, exp2: Option<int>, now2: int)
    ensures Inserted(Inserted(t, jti, exp1, now1), jti, exp2, now2) == Inserted(t, jti, exp2, now2)
  {
  }

  /** Adding an identifier and then checking it: the answer compares the
      stored instant with the check instant, and an expired entry is evicted
      so that exactly the entries other than `jti` remain. */
  lemma AddThenLookup(t: Table, jti: string, exp: Option<int>, addNow: int, now: int)
    ensures Lookup(Inserted(t, jti, exp, addNow), jti, now)
         == if now <= StoredExpiry(exp, addNow) then Answer(true, Inserted(t, jti, exp, addNow))
            else Answer(false, t - {jti})
  {
  }

  /** An entry added without an expiration is blacklisted only by a check at
      an instant no later than the add: any strictly later check evicts it. */
  lemma NoExpiryRevokedOnlyUntilAddInstant(t: Table, jti: string, addNow: int, now: int)
    ensures Lookup(Inserted(t, jti, None, addNow), jti, now).blacklisted <==> now <= addNow
    ensures addNow < now ==> jti !in Lookup(Inserted(t, jti, None, addNow), jti, now).table
  {
  }

  /** Two checks of the same identifier at the same instant give the same
      answer, and the second one changes nothing. */
  lemma LookupIdempotent(t: Table, jti: string, now: int)
    ensures Lookup(Lookup(t, jti, now).table, jti, now) == Lookup(t, jti, now)
  {
  }

  /** Lazy eviction is invisible to any check at the same or a later
      instant: it only removes entries that are stale from then on. */
  lemma LookupKeepsRevoked(t: Table, jti: string, now: int, later: int)
    requires now <= later
    ensures RevokedAt(Lookup(t, jti, now).table, later) == RevokedAt(t, later)
  {
  }

  /** With a clock that goes back, eviction shows: an entry evicted at 10
      would still have been revoked at 3. */
  lemma EvictionVisibleToEarlierCheck()
    ensures var t := map["a" := 5];
            Revoked(t, "a", 3) && !Revoked(Lookup(t, "a", 10).table, "a", 3)
  {
  }

  /** The blacklist store. `table` is the dictionary the source keeps at
      module level; here it is a field of an object that starts empty. */
  class Blacklist {
    var table: Table

    constructor ()
      ensures table == map[]
    {
      table := map[];
    }

    /** Records `jti` as revoked until `exp`, or until `now` when no
        expiration is given, replacing any earlier entry for `jti`. */
    method Add(jti: string, exp: Option<int>, now: int)
      modifies this
      ensures table == old(table)[jti := StoredExpiry(exp, now)]
      ensures exp.None? ==> table[jti] == now
      ensures table == Inserted(old(table), jti, exp, now)
    {
      var e := exp;
      if e.None? {
        e := Some(now);
      }
      table := table[jti := e.value];
    }

    /** Answers whether `jti` is revoked at `now`, removing its entry when
        that entry expired strictly before `now`. */
    method IsBlacklisted(jti: string, now: int) returns (b: bool)
      modifies this
      ensures b <==> jti in old(table) && old(table)[jti] >= now
      ensures jti !in old(table) ==> !b && table == old(table)
      ensures b ==> table == old(table)
      ensures !b ==> table == old(table) - {jti} && jti !in table
      ensures Answer(b, table) == Lookup(old(table), jti, now)
    {
      if jti !in table {
        return false;
      }
      var exp := table[jti];
      if exp < now {
        table := table - {jti};
        return false;
      }
      return true;
    }
  }

  /** A fresh store blacklists nothing. */
  method CheckFresh(jti: string, now: int) returns (b: bool)
    ensures !b
  {
    var store := new Blacklist();
    b := store.IsBlacklisted(jti, now);
  }

  /** Revoking a token and then checking it twice, the way an authentication
      layer would: both checks agree, they say "revoked" exactly when the
      check instant is not after the stored instant, and the entry is still
      in the table afterwards exactly then. */
  method RevokeThenCheckTwice(jti: string, exp: Option<int>, addNow: int, now: int)
    returns (first: bool, second: bool, kept: bool)
    ensures first <==> now <= StoredExpiry(exp, addNow)
    ensures second == first
    ensures kept == first
  {
    var store := new Blacklist();
    store.Add(jti, exp, addNow);
    first := store.IsBlacklisted(jti, now);
    second := store.IsBlacklisted(jti, now);
    kept := jti in store.table;
  }
}
