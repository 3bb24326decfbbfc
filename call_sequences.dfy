/**
 Sequences of calls to the blacklist store, each call carrying the instant at
 which it is made, and what they leave in the table.
 */
module BlacklistCalls {
  import opened TokenBlacklist

  /** One call to the store: an add, or a membership check. */
  datatype Call =
    | AddCall(jti: string, exp: Option<int>, now: int)
    | CheckCall(jti: string, now: int)

  /** The table one call leaves behind. */
  function Step(t: Table, c: Call): Table
  {
    match c
    case AddCall(jti, exp, now) => Inserted(t, jti, exp, now)
    case CheckCall(jti, now) => Lookup(t, jti, now).table
  }

  /** The table after making `calls` in order, starting from `t`. */
  function Run(t: Table, calls: seq<Call>): Table
    decreases |calls|
  {
    if calls == [] then t
    else Step(Run(t, calls[..|calls| - 1]), calls[|calls| - 1])
  }

  /** The identifiers some add in `calls` was made for. */
  function AddedKeys(calls: seq<Call>): set<string>
  {
    set i | 0 <= i < |calls| && calls[i].AddCall? :: calls[i].jti
  }

  /** The instant stored by the last add of `jti` in `calls`, if any. */
  function LastAdd(calls: seq<Call>, jti: string): Option<int>
    decreases |calls|
  {
    if calls == [] then None
    else
      var c := calls[|calls| - 1];
      if c.AddCall? && c.jti == jti then Some(StoredExpiry(c.exp, c.now))
      else LastAdd(calls[..|calls| - 1], jti)
  }

  /** Dropping the last call drops no key added before it. */
  lemma AddedKeysPrefix(calls: seq<Call>)
    requires calls != []
    ensures AddedKeys(calls[..|calls| - 1]) <= AddedKeys(calls)
    ensures calls[|calls| - 1].AddCall? ==> calls[|calls| - 1].jti in AddedKeys(calls)
  {
  }

  /** Entries only come from adds: checks never create one. */
  lemma {:induction false} RunKeys(t: Table, calls: seq<Call>)
    ensures Run(t, calls).Keys <= t.Keys + AddedKeys(calls)
  {
    if calls != [] {
      RunKeys(t, calls[..|calls| - 1]);
      AddedKeysPrefix(calls);
    }
  }

  /** An identifier that no call added never gets an entry. */
  lemma NeverAddedStaysAbsent(t: Table, calls: seq<Call>, jti: string)
    requires jti !in t && jti !in AddedKeys(calls)
    ensures jti !in Run(t, calls)
  {
    RunKeys(t, calls);
  }

  /** On a store that starts empty, a check of an identifier that was never
      added answers false and leaves the table as it was. */
  lemma NeverAddedNeverBlacklisted(calls: seq<Call>, jti: string, now: int)
    requires jti !in AddedKeys(calls)
    ensures Lookup(Run(map[], calls), jti, now) == Answer(false, Run(map[], calls))
  {
    NeverAddedStaysAbsent(map[], calls, jti);
  }

  /** Last write wins: an entry still in the table holds the instant of the
      last add of its identifier, or its starting value when there was none. */
  lemma {:induction false} LastAddWins(t: Table, calls: seq<Call>, jti: string)
    requires jti in Run(t, calls)
    ensures LastAdd(calls, jti).None? ==> jti in t && Run(t, calls)[jti] == t[jti]
    ensures LastAdd(calls, jti).Some? ==> Run(t, calls)[jti] == LastAdd(calls, jti).value
  {
    if calls != [] {
      var p := calls[..|calls| - 1];
      var c := calls[|calls| - 1];
      if !(c.AddCall? && c.jti == jti) {
        assert jti in Run(t, p);
        LastAddWins(t, p, jti);
      }
    }
  }

  /** On a store that starts empty, every entry left after any calls was
      recorded by the last add of its identifier. */
  lemma EmptyStartLastAddWins(calls: seq<Call>, jti: string)
    requires jti in Run(map[], calls)
    ensures LastAdd(calls, jti).Some? && Run(map[], calls)[jti] == LastAdd(calls, jti).value
  {
    LastAddWins(map[], calls, jti);
  }
}
