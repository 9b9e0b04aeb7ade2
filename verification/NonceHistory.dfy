// What each of several submits, one after another, is answered, told from the submits before it.
module NonceHistory {
  import opened JsText
  import opened NonceGuard

  /** Submit i got past the guard, and at time t its nonce is not over: it never is when its expiry happens to be zero. */
  ghost predicate Standing(config: Config, subs: seq<Submission>, i: nat, t: int)
    requires i < |subs|
  {
    OutcomeOf(config, subs, i) == Passed && (subs[i].now + config.ttl > t || subs[i].now + config.ttl == 0)
  }

  function KeyAt(subs: seq<Submission>, i: nat): Text
    requires i < |subs|
  {
    Key(subs[i].request.reporter, subs[i].request.nonce)
  }

  function RecordAt(config: Config, subs: seq<Submission>, i: nat): Record
    requires i < |subs|
  {
    Record(subs[i].request.reporter, subs[i].request.nonce, subs[i].now, subs[i].now + config.ttl)
  }

  /** A record is stored for some submit that passed. */
  lemma {:induction false} StoredBySubmit(config: Config, subs: seq<Submission>, n: nat, key: Text) returns (i: nat)
    requires n <= |subs| && key in After(config, subs, n)
    ensures i < n && OutcomeOf(config, subs, i) == Passed && KeyAt(subs, i) == key
    ensures After(config, subs, n)[key] == RecordAt(config, subs, i)
  {
    if key in After(config, subs, n - 1) && After(config, subs, n)[key] == After(config, subs, n - 1)[key] {
      i := StoredBySubmit(config, subs, n - 1, key);
    } else {
      i := n - 1;
    }
  }

  /** While its nonce stands, a submit's record is stored. */
  lemma {:induction false} StandingIsStored(config: Config, subs: seq<Submission>, n: nat, i: nat, t: int)
    requires TimeMovesOn(subs) && i < n <= |subs| && Standing(config, subs, i, t)
    requires forall m :: 0 <= m < n ==> subs[m].now <= t
    ensures KeyAt(subs, i) in After(config, subs, n) && After(config, subs, n)[KeyAt(subs, i)] == RecordAt(config, subs, i)
  {
    if i < n - 1 {
      StandingIsStored(config, subs, n - 1, i, t);
      assert subs[n - 1].now <= t;
    }
  }

  /** The keys of the reporter's submits before the n-th whose nonces stand at its time. */
  ghost function StandingKeys(config: Config, subs: seq<Submission>, n: nat): set<Text>
    requires n < |subs|
  {
    set i | 0 <= i < n && Standing(config, subs, i, subs[n].now) && subs[i].request.reporter == subs[n].request.reporter ::
      KeyAt(subs, i)
  }

  /** What the n-th submit finds after its purge: the records of the submits that stand. */
  lemma FoundIsStanding(config: Config, subs: seq<Submission>, n: nat)
    requires TimeMovesOn(subs) && n < |subs|
    ensures var found := Purge(After(config, subs, n), subs[n].now);
            && (forall key :: key in found <==>
                  exists i: nat :: i < n && Standing(config, subs, i, subs[n].now) && KeyAt(subs, i) == key)
            && ActiveFor(found, subs[n].request.reporter, subs[n].now) == StandingKeys(config, subs, n)
  {
    var found, t := Purge(After(config, subs, n), subs[n].now), subs[n].now;
    forall i: nat | i < n && Standing(config, subs, i, t)
      ensures KeyAt(subs, i) in found && found[KeyAt(subs, i)] == RecordAt(config, subs, i)
    {
      StandingIsStored(config, subs, n, i, t);
    }
    forall key | key in found
      ensures exists i: nat :: i < n && Standing(config, subs, i, t) && KeyAt(subs, i) == key && found[key] == RecordAt(config, subs, i)
    {
      var i := StoredBySubmit(config, subs, n, key);
      assert Standing(config, subs, i, t);
    }
  }

  /**
   * With times that never go back the n-th submit is refused when its timestamp is off by more than the skew; else when its
   * nonce stands from an earlier submit; else when the reporter has as many standing nonces as are allowed; else when its
   * signature is wrong; and passes otherwise.
   */
  lemma OutcomeFollowsHistory(config: Config, subs: seq<Submission>, n: nat)
    requires TimeMovesOn(subs) && n < |subs|
    ensures var s := subs[n];
            OutcomeOf(config, subs, n)
            == if s.now - s.request.timestamp > config.maxSkew || s.request.timestamp - s.now > config.maxSkew
               then TimestampSkewExceeded
               else if exists i: nat :: i < n && Standing(config, subs, i, s.now) && KeyAt(subs, i) == KeyAt(subs, n)
               then NonceReplayed
               else if |StandingKeys(config, subs, n)| >= config.maxActive then NonceRateLimited
               else if !s.signatureOk then SignatureInvalid
               else Passed
  {
    FoundIsStanding(config, subs, n);
  }
}
