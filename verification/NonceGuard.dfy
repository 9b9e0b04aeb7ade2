// Replay protection of signed reporter requests: the nonce store and the nonce part of submit.
module NonceGuard {
  import opened JsText

  datatype Record = Record(reporter: Text, nonce: Text, createdAt: int, expiresAt: int)

  type Records = map<Text, Record>

  datatype Config = Config(maxSkew: int, ttl: int, maxActive: int)

  /** The signed parts that matter here; times are in milliseconds. */
  datatype Request = Request(reporter: Text, nonce: Text, timestamp: int)

  datatype Outcome = TimestampSkewExceeded | NonceReplayed | NonceRateLimited | SignatureInvalid | Passed

  function Key(reporter: Text, nonce: Text): Text {
    reporter + [COLON] + nonce
  }

  /** An expiry that parses to 0 counts as none. */
  predicate Expired(r: Record, now: int) {
    r.expiresAt != 0 && r.expiresAt <= now
  }

  function Purge(records: Records, now: int): Records {
    map k | k in records && !Expired(records[k], now) :: records[k]
  }

  /** The keys under which a reporter's records are stored. */
  function StoredFor(records: Records, reporter: Text): set<Text> {
    set k | k in records && records[k].reporter == reporter
  }

  function ActiveFor(records: Records, reporter: Text, now: int): set<Text> {
    set k | k in records && records[k].reporter == reporter && !Expired(records[k], now)
  }

  function Distance(a: int, b: int): nat {
    if a >= b then a - b else b - a
  }

  /** security-governance/src/index.ts, lines 974-1031: the store and the answer after one request. */
  function Guard(records: Records, config: Config, request: Request, now: int, signatureOk: bool): (Records, Outcome) {
    if Distance(now, request.timestamp) > config.maxSkew then (records, TimestampSkewExceeded)
    else
      var kept := Purge(records, now);
      var key := Key(request.reporter, request.nonce);
      if key in kept then (kept, NonceReplayed)
      else if |ActiveFor(kept, request.reporter, now)| >= config.maxActive then (kept, NonceRateLimited)
      else if !signatureOk then (kept, SignatureInvalid)
      else (kept[key := Record(request.reporter, request.nonce, now, now + config.ttl)], Passed)
  }

  class NonceStore {
    var records: Records

    constructor ()
      ensures records == map[]
    {
      records := map[];
    }

    method Get(reporter: Text, nonce: Text) returns (found: bool)
      ensures found <==> Key(reporter, nonce) in records
    {
      found := Key(reporter, nonce) in records;
    }

    method Put(record: Record)
      modifies this
      ensures records == old(records)[Key(record.reporter, record.nonce) := record]
    {
      records := records[Key(record.reporter, record.nonce) := record];
    }

    method PurgeExpired(now: int) returns (purged: nat)
      modifies this
      ensures records == Purge(old(records), now)
      ensures |old(records)| == |records| + purged
    {
      purged := 0;
      var todo := records.Keys;
      while todo != {}
        invariant todo <= records.Keys <= old(records).Keys
        invariant forall k :: k in records ==> records[k] == old(records)[k]
        invariant forall k :: k in old(records) && k !in todo ==> (k in records <==> !Expired(old(records)[k], now))
        invariant |old(records)| == |records| + purged
        decreases |todo|
      {
        var k :| k in todo;
        if Expired(records[k], now) {
          assert (records - {k}).Keys == records.Keys - {k};
          assert |(records - {k}).Keys| == |records.Keys| - 1;
          records := records - {k};
          purged := purged + 1;
        }
        todo := todo - {k};
      }
    }

    method CountActiveForReporter(reporter: Text, now: int) returns (count: nat)
      ensures count == |ActiveFor(records, reporter, now)|
    {
      count := 0;
      var todo := records.Keys;
      ghost var counted: set<Text> := {};
      while todo != {}
        invariant todo <= records.Keys && todo !! counted
        invariant counted == set k | k in ActiveFor(records, reporter, now) && k !in todo
        invariant count == |counted|
        decreases |todo|
      {
        var k :| k in todo;
        todo := todo - {k};
        if records[k].reporter == reporter && !Expired(records[k], now) {
          counted := counted + {k};
          count := count + 1;
        }
      }
      assert counted == ActiveFor(records, reporter, now);
    }
  }

  method Submit(store: NonceStore, config: Config, request: Request, now: int,
                signatureOk: bool) returns (outcome: Outcome)
    modifies store
    ensures (store.records, outcome) == Guard(old(store.records), config, request, now, signatureOk)
  {
    if Distance(now, request.timestamp) > config.maxSkew {
      return TimestampSkewExceeded;
    }
    var _ := store.PurgeExpired(now);
    var used := store.Get(request.reporter, request.nonce);
    if used {
      return NonceReplayed;
    }
    var active := store.CountActiveForReporter(request.reporter, now);
    if active >= config.maxActive {
      return NonceRateLimited;
    }
    if !signatureOk {
      return SignatureInvalid;
    }
    store.Put(Record(request.reporter, request.nonce, now, now + config.ttl));
    return Passed;
  }

  // ---- Runs ----

  datatype Submission = Submission(request: Request, now: int, signatureOk: bool)

  function After(config: Config, subs: seq<Submission>, n: nat): Records
    requires n <= |subs|
  {
    if n == 0 then map[]
    else
      var s := subs[n - 1];
      Guard(After(config, subs, n - 1), config, s.request, s.now, s.signatureOk).0
  }

  function OutcomeOf(config: Config, subs: seq<Submission>, i: nat): Outcome
    requires i < |subs|
  {
    Guard(After(config, subs, i), config, subs[i].request, subs[i].now, subs[i].signatureOk).1
  }

  ghost predicate TimeMovesOn(subs: seq<Submission>) {
    forall i, j :: 0 <= i < j < |subs| ==> subs[i].now <= subs[j].now
  }

  /** In every run whose receive times never go back, no request gets past the guard twice. */
  ghost predicate NeverTwice(config: Config) {
    forall subs: seq<Submission>, i: nat, j: nat ::
      TimeMovesOn(subs) && i < j < |subs| && subs[i].request == subs[j].request ==>
        !(OutcomeOf(config, subs, i).Passed? && OutcomeOf(config, subs, j).Passed?)
  }

  /** A stored nonce stays until its time to live is over. */
  lemma {:induction false} NonceStays(config: Config, subs: seq<Submission>, i: nat, n: nat)
    requires i < n <= |subs| && TimeMovesOn(subs) && OutcomeOf(config, subs, i).Passed?
    requires forall m :: i < m < n ==> subs[m].now < subs[i].now + config.ttl
    ensures var key := Key(subs[i].request.reporter, subs[i].request.nonce);
            key in After(config, subs, n) && After(config, subs, n)[key].expiresAt == subs[i].now + config.ttl
  {
    if n > i + 1 {
      NonceStays(config, subs, i, n - 1);
      assert subs[n - 1].now < subs[i].now + config.ttl;
    }
  }

  lemma SkewWindow(config: Config, subs: seq<Submission>, i: nat)
    requires i < |subs| && OutcomeOf(config, subs, i).Passed?
    ensures -config.maxSkew <= subs[i].now - subs[i].request.timestamp <= config.maxSkew
  {
  }

  lemma PassesOnce(config: Config, subs: seq<Submission>, i: nat, j: nat)
    requires config.ttl > 2 * config.maxSkew
    requires TimeMovesOn(subs) && i < j < |subs|
    requires subs[i].request.timestamp == subs[j].request.timestamp
    requires Key(subs[i].request.reporter, subs[i].request.nonce) == Key(subs[j].request.reporter, subs[j].request.nonce)
    requires OutcomeOf(config, subs, i).Passed?
    ensures !OutcomeOf(config, subs, j).Passed?
  {
    if OutcomeOf(config, subs, j).Passed? {
      SkewWindow(config, subs, i);
      SkewWindow(config, subs, j);
      NonceStays(config, subs, i, j);
    }
  }

  /** With a time to live within twice the skew, a request sent early and sent again late passes twice. */
  lemma PassesTwice(config: Config) returns (subs: seq<Submission>)
    requires 0 <= config.maxSkew && 1 <= config.maxActive && config.ttl <= 2 * config.maxSkew
    ensures |subs| == 2 && TimeMovesOn(subs) && subs[0].request == subs[1].request
    ensures OutcomeOf(config, subs, 0).Passed? && OutcomeOf(config, subs, 1).Passed?
  {
    var first := if config.ttl == 0 then 1 else 0;
    var request := Request([114], [110], first + config.maxSkew);
    subs := [Submission(request, first, true), Submission(request, first + 2 * config.maxSkew, true)];
    assert ActiveFor(map[], request.reporter, first) == {};
    assert Purge(map[], first) == map[];
    var key := Key(request.reporter, request.nonce);
    var one := After(config, subs, 1);
    assert After(config, subs, 0) == map[];
    assert one == map[key := Record(request.reporter, request.nonce, first, first + config.ttl)];
    assert Purge(one, first + 2 * config.maxSkew) == map[];
    assert ActiveFor(map[], request.reporter, first + 2 * config.maxSkew) == {};
  }

  /** The nonce store stops replays exactly when a nonce outlives both ends of the skew window. */
  lemma ReplayProtectionIff(config: Config)
    ensures NeverTwice(config) <==> config.maxSkew < 0 || config.maxActive < 1 || config.ttl > 2 * config.maxSkew
  {
    if 0 <= config.maxSkew && 1 <= config.maxActive && config.ttl <= 2 * config.maxSkew {
      var subs := PassesTwice(config);
      assert subs[0].request == subs[1].request;
    } else {
      forall subs: seq<Submission>, i: nat, j: nat
        | TimeMovesOn(subs) && i < j < |subs| && subs[i].request == subs[j].request
        ensures !(OutcomeOf(config, subs, i).Passed? && OutcomeOf(config, subs, j).Passed?)
      {
        if OutcomeOf(config, subs, i).Passed? && config.ttl > 2 * config.maxSkew {
          PassesOnce(config, subs, i, j);
        }
      }
    }
  }

  // ---- Bounded storage ----

  lemma PurgeKeepsFewer(records: Records, now: int, reporter: Text)
    ensures StoredFor(Purge(records, now), reporter) <= StoredFor(records, reporter)
    ensures |StoredFor(Purge(records, now), reporter)| <= |StoredFor(records, reporter)|
    ensures ActiveFor(Purge(records, now), reporter, now) == StoredFor(Purge(records, now), reporter)
  {
    var a, b := StoredFor(Purge(records, now), reporter), StoredFor(records, reporter);
    assert b == a + (b - a);
  }

  /** Whatever arrives, in any order of times, no reporter ever has more records stored than the limit. */
  lemma {:induction false} StorageBounded(config: Config, subs: seq<Submission>, n: nat, reporter: Text)
    requires n <= |subs|
    ensures |StoredFor(After(config, subs, n), reporter)| <= if config.maxActive > 0 then config.maxActive else 0
  {
    if n > 0 {
      StorageBounded(config, subs, n - 1, reporter);
      var s, before := subs[n - 1], After(config, subs, n - 1);
      PurgeKeepsFewer(before, s.now, reporter);
      if OutcomeOf(config, subs, n - 1).Passed? {
        var kept, key := Purge(before, s.now), Key(s.request.reporter, s.request.nonce);
        assert StoredFor(After(config, subs, n), reporter)
            == StoredFor(kept, reporter) + (if s.request.reporter == reporter then {key} else {});
      }
    } else {
      assert StoredFor(map[], reporter) == {};
    }
  }

  /** Distinct reporters and nonces share a key only if a reporter id holds a colon. */
  lemma KeysDiffer(r1: Text, n1: Text, r2: Text, n2: Text)
    requires COLON !in r1 && COLON !in r2
    ensures Key(r1, n1) == Key(r2, n2) <==> r1 == r2 && n1 == n2
  {
    if Key(r1, n1) == Key(r2, n2) {
      CutAtMark(r1, n1, r2, n2, COLON);
    }
  }
}
