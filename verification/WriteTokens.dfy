/** The tokens that authorise a write (`DhtWriteTokenStorage`, src/bittorrent/dht_storage.{h,cpp}).
    Times are in seconds since the start of the steady clock. */
module WriteTokens {
  import opened Sequences

  const TOKEN_VALIDITY: real := 900.0
  const SECRET_REFRESH_TIME: real := 300.0

  datatype Secret = Secret(secret: string, expires: real)

  /** The hash and the printing of time points are arbitrary functions. */
  datatype Config = Config(sha1: string -> string, printTime: real -> string, salt: string)

  function Token(config: Config, secret: Secret, address: string, id: string): string {
    config.sha1(secret.secret + address + id)
  }

  function NewSecret(config: Config, now: real): Secret {
    Secret(config.printTime(now) + config.salt, now + TOKEN_VALIDITY)
  }

  /** When the secret was made. */
  function MadeAt(s: Secret): real {
    s.expires - TOKEN_VALIDITY
  }

  /** The secrets stay in the order in which they expire. */
  ghost predicate Ordered(secrets: seq<Secret>) {
    forall i, j :: 0 <= i < j < |secrets| ==> secrets[i].expires <= secrets[j].expires
  }

  /** ... and were all made between the start of the clock and `now`. */
  ghost predicate SecretsInv(secrets: seq<Secret>, now: real) {
    Ordered(secrets) && forall s :: s in secrets ==> 0.0 <= MadeAt(s) <= now
  }

  // ------------------------------------------------------------------------------------------
  // What the operations do

  /** `expire`: drops from the front. */
  function Unexpired(secrets: seq<Secret>, now: real): seq<Secret> {
    if secrets == [] || secrets[0].expires >= now then secrets else Unexpired(secrets[1..], now)
  }

  /** Because of the order, that drops exactly the expired ones. */
  lemma {:induction false} UnexpiredMeaning(secrets: seq<Secret>, now: real)
    requires Ordered(secrets)
    ensures Ordered(Unexpired(secrets, now))
    ensures forall s :: s in Unexpired(secrets, now) <==> s in secrets && s.expires >= now
  {
    if secrets != [] && secrets[0].expires < now {
      UnexpiredMeaning(secrets[1..], now);
      assert secrets == [secrets[0]] + secrets[1..];
    } else {
      assert forall s :: s in secrets ==> secrets[0].expires <= s.expires;
    }
  }

  /** `_last_generated` is never assigned, so it stays at the start of the clock. */
  predicate NeedsSecret(secrets: seq<Secret>, now: real) {
    secrets == [] || now > SECRET_REFRESH_TIME
  }

  function WithSecret(config: Config, secrets: seq<Secret>, now: real): (r: seq<Secret>)
    ensures r != []
  {
    if NeedsSecret(secrets, now) then secrets + [NewSecret(config, now)] else secrets
  }

  /** `generate_token` reads the clock twice: once to expire, once for itself. */
  function AfterGenerate(config: Config, secrets: seq<Secret>, t0: real, t1: real): (r: seq<Secret>)
    ensures r != []
  {
    WithSecret(config, Unexpired(secrets, t0), t1)
  }

  /** The secret that the token of the call is made from. */
  function Used(config: Config, secrets: seq<Secret>, t0: real, t1: real): Secret {
    var r := AfterGenerate(config, secrets, t0, t1);
    r[|r| - 1]
  }

  function Generated(config: Config, secrets: seq<Secret>, t0: real, t1: real, address: string, id: string): string {
    Token(config, Used(config, secrets, t0, t1), address, id)
  }

  ghost predicate Accepts(config: Config, secrets: seq<Secret>, now: real, address: string, id: string, token: string) {
    exists s :: s in Unexpired(secrets, now) && Token(config, s, address, id) == token
  }

  // ------------------------------------------------------------------------------------------
  // Runs

  datatype Event =
    | Generate(t0: real, t1: real, address: string, id: string)
    | Verify(now: real)

  /** The reading at which secrets expire. */
  ghost function First(e: Event): real {
    match e
    case Generate(t0, _, _, _) => t0
    case Verify(now) => now
  }

  ghost function Last(e: Event): real {
    match e
    case Generate(_, t1, _, _) => t1
    case Verify(now) => now
  }

  /** The readings of the clock never go back. */
  ghost predicate Timely(e: Event, from: real) {
    match e
    case Generate(t0, t1, _, _) => from <= t0 <= t1
    case Verify(now) => from <= now
  }

  function Step(config: Config, secrets: seq<Secret>, e: Event): seq<Secret> {
    match e
    case Generate(t0, t1, _, _) => AfterGenerate(config, secrets, t0, t1)
    case Verify(now) => Unexpired(secrets, now)
  }

  ghost function Run(config: Config, secrets: seq<Secret>, es: seq<Event>): seq<Secret>
    decreases |es|
  {
    if es == [] then secrets else Run(config, Step(config, secrets, es[0]), es[1..])
  }

  /** All events happen in order, between `from` and `to`. */
  ghost predicate TimelyRun(es: seq<Event>, from: real, to: real) {
    if es == [] then from <= to else Timely(es[0], from) && TimelyRun(es[1..], Last(es[0]), to)
  }

  lemma StepInv(config: Config, secrets: seq<Secret>, e: Event, from: real)
    requires SecretsInv(secrets, from) && 0.0 <= from && Timely(e, from)
    ensures SecretsInv(Step(config, secrets, e), Last(e))
  {
    UnexpiredMeaning(secrets, First(e));
  }

  /** A secret that has not expired by then survives whatever is called. */
  lemma {:induction false} SecretSurvives(config: Config, secrets: seq<Secret>, es: seq<Event>, from: real, to: real,
                                          s: Secret)
    requires SecretsInv(secrets, from) && 0.0 <= from && TimelyRun(es, from, to)
    requires s in secrets && to <= s.expires
    ensures s in Run(config, secrets, es) && SecretsInv(Run(config, secrets, es), to)
    decreases |es|
  {
    if es == [] {
    } else {
      RunEndsLater(es[1..], Last(es[0]), to);
      UnexpiredMeaning(secrets, First(es[0]));
      StepInv(config, secrets, es[0], from);
      SecretSurvives(config, Step(config, secrets, es[0]), es[1..], Last(es[0]), to, s);
    }
  }

  lemma {:induction false} RunEndsLater(es: seq<Event>, from: real, to: real)
    requires TimelyRun(es, from, to)
    ensures from <= to
  {
    if es == [] {
    } else {
      RunEndsLater(es[1..], Last(es[0]), to);
    }
  }

  lemma {:induction false} RunSecretsInv(config: Config, secrets: seq<Secret>, es: seq<Event>, from: real, to: real)
    requires SecretsInv(secrets, from) && 0.0 <= from && TimelyRun(es, from, to)
    ensures SecretsInv(Run(config, secrets, es), to)
    decreases |es|
  {
    if es == [] {
    } else {
      StepInv(config, secrets, es[0], from);
      RunSecretsInv(config, Step(config, secrets, es[0]), es[1..], Last(es[0]), to);
    }
  }

  /** The secret that a token is made from is in use exactly until it expires: fifteen minutes after
      the token was made, or at least ten if that was within the first five minutes of the clock.
      Until then the token is accepted by every verification, whatever calls come between. */
  lemma TokenIsAccepted(config: Config, secrets: seq<Secret>, from: real, t0: real, t1: real, es: seq<Event>, now: real,
                        address: string, id: string)
    requires SecretsInv(secrets, from) && 0.0 <= from <= t0 <= t1 && TimelyRun(es, t1, now)
    ensures var s := Used(config, secrets, t0, t1);
            && t1 + 600.0 <= s.expires <= t1 + TOKEN_VALIDITY
            && (t1 > SECRET_REFRESH_TIME ==> s.expires == t1 + TOKEN_VALIDITY)
            && (s in Unexpired(Run(config, AfterGenerate(config, secrets, t0, t1), es), now) <==> now <= s.expires)
    ensures now <= Used(config, secrets, t0, t1).expires ==>
              Accepts(config, Run(config, AfterGenerate(config, secrets, t0, t1), es), now, address, id,
                      Generated(config, secrets, t0, t1, address, id))
  {
    var r, s := AfterGenerate(config, secrets, t0, t1), Used(config, secrets, t0, t1);
    StepInv(config, secrets, Generate(t0, t1, address, id), from);
    assert s in r && 0.0 <= MadeAt(s) <= t1;
    RunSecretsInv(config, r, es, t1, now);
    UnexpiredMeaning(Run(config, r, es), now);
    if now <= s.expires {
      SecretSurvives(config, r, es, t1, now, s);
    }
  }

  /** The call that made the secret. */
  ghost predicate MadeBy(config: Config, s: Secret, e: Event) {
    e.Generate? && s == NewSecret(config, e.t1)
  }

  /** Every secret was there before or was made by a call of the run. */
  lemma {:induction false} SecretOrigin(config: Config, secrets: seq<Secret>, es: seq<Event>, s: Secret)
    requires s in Run(config, secrets, es)
    ensures s in secrets || exists i :: 0 <= i < |es| && MadeBy(config, s, es[i])
    decreases |es|
  {
    if es == [] {
    } else {
      var e := es[0];
      SecretOrigin(config, Step(config, secrets, e), es[1..], s);
      if i :| 0 <= i < |es[1..]| && MadeBy(config, s, es[1..][i]) {
        assert MadeBy(config, s, es[i + 1]);
      } else {
        UnexpiredWere(secrets, First(e));
        assert s in secrets || MadeBy(config, s, es[0]);
      }
    }
  }

  lemma {:induction false} UnexpiredWere(secrets: seq<Secret>, now: real)
    ensures forall s :: s in Unexpired(secrets, now) ==> s in secrets
  {
    if secrets == [] || secrets[0].expires >= now {
    } else {
      UnexpiredWere(secrets[1..], now);
    }
  }

  /** A token that is accepted after any run from the start hashes the secret of a call of
      `generate_token` made at most fifteen minutes earlier. */
  lemma AcceptedTokenIsRecent(config: Config, es: seq<Event>, from: real, now: real, address: string, id: string,
                              token: string) returns (i: nat)
    requires 0.0 <= from && TimelyRun(es, from, now) && Accepts(config, Run(config, [], es), now, address, id, token)
    ensures i < |es| && es[i].Generate? && now - TOKEN_VALIDITY <= es[i].t1 <= now
    ensures token == Token(config, NewSecret(config, es[i].t1), address, id)
  {
    var secrets := Run(config, [], es);
    RunSecretsInv(config, [], es, from, now);
    UnexpiredMeaning(secrets, now);
    var s :| s in Unexpired(secrets, now) && Token(config, s, address, id) == token;
    SecretOrigin(config, [], es, s);
    i :| 0 <= i < |es| && MadeBy(config, s, es[i]);
  }

  // ------------------------------------------------------------------------------------------
  // For whom

  /** SHA-1 without collisions, and times that print with equal length. */
  ghost predicate Sound(config: Config) {
    && (forall x, y :: config.sha1(x) == config.sha1(y) ==> x == y)
    && (forall a, b :: |config.printTime(a)| == |config.printTime(b)|)
  }

  /** For one secret, or secrets of equal length, equal tokens mean equal address and id. */
  lemma TokenBelongs(config: Config, s: Secret, s': Secret, address: string, address': string, id: string, id': string)
    requires Sound(config) && |s.secret| == |s'.secret| && |id| == |id'|
    requires Token(config, s, address, id) == Token(config, s', address', id')
    ensures s.secret == s'.secret && address == address' && id == id'
  {
    var x, y := s.secret + address + id, s'.secret + address' + id';
    assert config.sha1(x) == config.sha1(y);
    assert |address| == |address'|;
    assert x[..|s.secret|] == s.secret && y[..|s.secret|] == s'.secret;
    assert x[|s.secret|..|s.secret + address|] == address && y[|s.secret|..|s.secret + address|] == address';
    assert x[|s.secret + address|..] == id && y[|s.secret + address|..] == id';
  }

  /** The token that the k-th event of a run from the start handed out. */
  ghost function Handed(config: Config, es: seq<Event>, k: nat): string
    requires k < |es| && es[k].Generate?
  {
    Generated(config, Run(config, [], es[..k]), es[k].t0, es[k].t1, es[k].address, es[k].id)
  }

  lemma UsedIsMade(config: Config, es: seq<Event>, k: nat) returns (i: nat)
    requires k < |es| && es[k].Generate?
    ensures i < |es| && MadeBy(config, Used(config, Run(config, [], es[..k]), es[k].t0, es[k].t1), es[i])
  {
    var secrets := Run(config, [], es[..k]);
    var r := AfterGenerate(config, secrets, es[k].t0, es[k].t1);
    i := k;
    if !MadeBy(config, r[|r| - 1], es[k]) {
      UnexpiredWere(secrets, es[k].t0);
      assert r[|r| - 1] in Unexpired(secrets, es[k].t0);
      SecretOrigin(config, [], es[..k], r[|r| - 1]);
      i :| 0 <= i < k && MadeBy(config, r[|r| - 1], es[..k][i]);
    }
  }

  /** The calls of the run print the times of their secrets differently. */
  ghost predicate DistinctTimes(config: Config, es: seq<Event>) {
    forall i, j :: 0 <= i < j < |es| && es[i].Generate? && es[j].Generate? && es[i].t1 != es[j].t1 ==>
      config.printTime(es[i].t1) != config.printTime(es[j].t1)
  }

  /** A token handed out in a run is accepted, by whatever secret, only for the address and the id that
      it was made for, and only until the secret it was made from expires. */
  lemma TokenIsForOne(config: Config, es: seq<Event>, k: nat, now: real, address: string, id: string)
    requires Sound(config) && k < |es| && es[k].Generate? && |id| == |es[k].id|
    requires Accepts(config, Run(config, [], es), now, address, id, Handed(config, es, k))
    ensures address == es[k].address && id == es[k].id
    ensures DistinctTimes(config, es) && TimelyRun(es, 0.0, now) ==>
              now <= Used(config, Run(config, [], es[..k]), es[k].t0, es[k].t1).expires
  {
    var s :| s in Unexpired(Run(config, [], es), now) && Token(config, s, address, id) == Handed(config, es, k);
    UnexpiredWere(Run(config, [], es), now);
    SecretOrigin(config, [], es, s);
    var i :| 0 <= i < |es| && MadeBy(config, s, es[i]);
    var j := UsedIsMade(config, es, k);
    var used := NewSecret(config, es[j].t1);
    assert |config.printTime(es[i].t1)| == |config.printTime(es[j].t1)|;
    TokenBelongs(config, s, used, address, es[k].address, id, es[k].id);
    Parts(config.printTime(es[i].t1), config.salt);
    Parts(config.printTime(es[j].t1), config.salt);
    if TimelyRun(es, 0.0, now) {
      RunSecretsInv(config, [], es, 0.0, now);
      UnexpiredMeaning(Run(config, [], es), now);
    }
  }

  // ------------------------------------------------------------------------------------------
  // How many secrets

  /** A call makes no new secret if and only if the clock has not passed the first five minutes and
      some secret has not expired; how old the last secret is plays no part. */
  lemma NoNewSecret(config: Config, secrets: seq<Secret>, t0: real, t1: real)
    requires Ordered(secrets)
    ensures |AfterGenerate(config, secrets, t0, t1)| == |Unexpired(secrets, t0)| <==>
            t1 <= SECRET_REFRESH_TIME && exists s :: s in secrets && s.expires >= t0
  {
    UnexpiredMeaning(secrets, t0);
    var u := Unexpired(secrets, t0);
    assert u != [] ==> u[0] in u;
  }

  /** How many secrets the calls of a run make. */
  ghost function Made(config: Config, secrets: seq<Secret>, es: seq<Event>): int
    decreases |es|
  {
    if es == [] then 0
    else
      (match es[0]
       case Generate(t0, t1, _, _) => |AfterGenerate(config, secrets, t0, t1)| - |Unexpired(secrets, t0)|
       case Verify(_) => 0) + Made(config, Step(config, secrets, es[0]), es[1..])
  }

  predicate IsLate(e: Event) {
    e.Generate? && e.t1 > SECRET_REFRESH_TIME
  }

  predicate IsEarly(e: Event) {
    e.Generate? && e.t1 <= SECRET_REFRESH_TIME
  }

  ghost function LateCalls(es: seq<Event>): nat {
    if es == [] then 0 else (if IsLate(es[0]) then 1 else 0) + LateCalls(es[1..])
  }

  ghost predicate AnyEarly(es: seq<Event>) {
    es != [] && (IsEarly(es[0]) || AnyEarly(es[1..]))
  }

  lemma {:induction false} NoneEarly(es: seq<Event>, from: real, to: real)
    requires TimelyRun(es, from, to) && from > SECRET_REFRESH_TIME
    ensures !AnyEarly(es)
  {
    if es == [] {
    } else {
      NoneEarly(es[1..], Last(es[0]), to);
    }
  }

  /** Over any run: one secret for every call after the first five minutes, and a single one for all
      calls before that, unless there was one already. */
  lemma {:induction false} SecretsMade(config: Config, secrets: seq<Secret>, es: seq<Event>, from: real, to: real)
    requires SecretsInv(secrets, from) && 0.0 <= from && TimelyRun(es, from, to)
    ensures Made(config, secrets, es) == LateCalls(es) + if secrets == [] && AnyEarly(es) then 1 else 0
    decreases |es|
  {
    if es == [] {
    } else {
      var e := es[0];
      StepInv(config, secrets, e, from);
      SecretsMade(config, Step(config, secrets, e), es[1..], Last(e), to);
      if Last(e) > SECRET_REFRESH_TIME {
        NoneEarly(es[1..], Last(e), to);
      } else {
        NoneExpired(secrets, First(e));
      }
    }
  }

  lemma NoneExpired(secrets: seq<Secret>, now: real)
    requires forall s :: s in secrets ==> s.expires >= now
    ensures Unexpired(secrets, now) == secrets
  {
    assert secrets == [] || secrets[0] in secrets;
  }

  ghost function Calls(es: seq<Event>): nat {
    if es == [] then 0 else (if es[0].Generate? then 1 else 0) + Calls(es[1..])
  }

  /** So nothing bounds their number: after the first five minutes, over up to fifteen minutes in
      which no secret expires, every call adds one and all of them are kept. */
  lemma {:induction false} SecretsPileUp(config: Config, secrets: seq<Secret>, es: seq<Event>, from: real, to: real)
    requires SecretsInv(secrets, from) && SECRET_REFRESH_TIME < from && TimelyRun(es, from, to)
    requires to <= from + TOKEN_VALIDITY && forall s :: s in secrets ==> s.expires >= to
    ensures |Run(config, secrets, es)| == |secrets| + Calls(es)
    decreases |es|
  {
    if es == [] {
    } else {
      var e := es[0];
      RunEndsLater(es[1..], Last(e), to);
      StepInv(config, secrets, e, from);
      NoneExpired(secrets, First(e));
      SecretsPileUp(config, Step(config, secrets, e), es[1..], Last(e), to);
    }
  }

  // ------------------------------------------------------------------------------------------
  // The class

  class WriteTokenStorage {
    const config: Config
    ghost var clock: real
    var secrets: seq<Secret>

    ghost predicate Valid()
      reads this
    {
      0.0 <= clock && SecretsInv(secrets, clock)
    }

    constructor (config: Config)
      ensures Valid() && this.config == config && secrets == [] && clock == 0.0
    {
      this.config, secrets, clock := config, [], 0.0;
    }

    method DropExpired(now: real)
      requires Valid() && clock <= now
      modifies this
      ensures Valid() && clock == now && secrets == Unexpired(old(secrets), now)
    {
      UnexpiredMeaning(secrets, now);
      while secrets != [] && secrets[0].expires < now
        invariant Unexpired(secrets, now) == Unexpired(old(secrets), now)
        decreases |secrets|
      {
        secrets := secrets[1..];
      }
      clock := now;
    }

    method GenerateToken(address: string, id: string, t0: real, t1: real) returns (token: string)
      requires Valid() && clock <= t0 <= t1
      modifies this
      ensures Valid() && clock == t1
      ensures secrets == AfterGenerate(config, old(secrets), t0, t1)
      ensures token == Generated(config, old(secrets), t0, t1, address, id)
    {
      StepInv(config, secrets, Generate(t0, t1, address, id), clock);
      DropExpired(t0);
      if secrets == [] || t1 > 0.0 + SECRET_REFRESH_TIME {
        secrets := secrets + [NewSecret(config, t1)];
      }
      clock := t1;
      token := Token(config, secrets[|secrets| - 1], address, id);
    }

    method VerifyToken(address: string, id: string, token: string, now: real) returns (ok: bool)
      requires Valid() && clock <= now
      modifies this
      ensures Valid() && clock == now && secrets == Unexpired(old(secrets), now)
      ensures ok <==> Accepts(config, old(secrets), now, address, id, token)
    {
      DropExpired(now);
      for i := 0 to |secrets|
        invariant forall j :: 0 <= j < i ==> Token(config, secrets[j], address, id) != token
        invariant Valid() && clock == now && secrets == Unexpired(old(secrets), now)
      {
        if Token(config, secrets[i], address, id) == token {
          assert secrets[i] in secrets;
          return true;
        }
      }
      return false;
    }
  }
}
