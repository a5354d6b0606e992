/**
 * The two request handlers of the authentication server, reduced to what they
 * do with the nonce store: `getNonce` issues a challenge for an address and
 * `login` checks a signature over it and consumes it.
 *
 * Request parsing and response envelopes are not modelled; a missing query or
 * body parameter is `None`. The random token and the clock are parameters,
 * and the signature-recovery primitive is the function `recover`, which
 * yields `None` where the primitive throws.
 */
module Dapp {
  import opened Wrappers
  import opened NonceStores

  /** The fixed label in front of every challenge. */
  const Prefix: string := "Please sign : "

  /** The length of the random token the server asks for. */
  const TokenLength: nat := 18

  /** The lifetime of the server's store: five minutes, in milliseconds. */
  const NonceTtl: nat := 5 * 60 * 1000

  /** A request parameter counts as given when it is present and not the empty string (JavaScript truthiness). */
  predicate Given(p: Option<string>)
  {
    p.Some? && p.value != ""
  }

  /** The message a client signs: the label followed by the random token. */
  function Challenge(token: string): (m: string)
    ensures |m| == |Prefix| + |token| && m != ""
    ensures m[..|Prefix|] == Prefix && m[|Prefix|..] == token
  {
    Prefix + token
  }

  /** Two challenges are equal only if their tokens are: the label never blurs the token. */
  lemma ChallengeInjective(a: string, b: string)
    ensures Challenge(a) == Challenge(b) <==> a == b
  {
  }

  datatype NonceReply = MissingAddress | Issued(nonceStr: string)

  /** `getNonce`: reject a missing or empty address; otherwise store a fresh challenge under it. */
  function IssueStep(s: Snapshot, address: Option<string>, token: string, now: int): (r: (Snapshot, NonceReply))
    ensures !Given(address) ==> r == (s, MissingAddress)
    ensures Given(address) ==> r.1.Issued? && Lookup(r.0, address.value) == Some(r.1.nonceStr)
    ensures r.1.Issued? ==> r.1.nonceStr == Challenge(token)
    ensures r.1.Issued? && |token| == TokenLength ==> |r.1.nonceStr| == 32
    ensures Given(address) ==> forall k :: k != address.value ==> SameEntry(s, r.0, k)
    ensures Consistent(s) ==> Consistent(r.0)
  {
    if !Given(address) then
      (s, MissingAddress)
    else
      var nonceStr := Challenge(token);
      (AfterSet(s, address.value, nonceStr, now), Issued(nonceStr))
  }

  datatype LoginReply =
    | MissingParameters
    | NoValidNonce
    | RecoveryFailed
    | InvalidSignature
    | LoginSuccess(address: string)

  /** The signature over `message` recovers exactly the claimed address. */
  predicate Admits(message: string, signature: Option<string>, address: Option<string>, recover: (string, string) -> Option<string>)
  {
    Given(signature) && Given(address) && message != "" && recover(message, signature.value) == address
  }

  /**
   * `login`: check the parameters, look up the stored challenge, recover the
   * signer and compare it with the claimed address character for character;
   * only a match consumes the challenge.
   */
  function LoginStep(s: Snapshot, signature: Option<string>, address: Option<string>,
                     recover: (string, string) -> Option<string>): (r: (Snapshot, LoginReply))
    ensures r.1.LoginSuccess? <==>
      address.Some? && Lookup(s, address.value).Some? && Admits(Lookup(s, address.value).value, signature, address, recover)
    ensures r.1.LoginSuccess? ==> r.1.address == address.value && r.0 == AfterDelete(s, address.value)
    ensures r.1.LoginSuccess? ==> Lookup(r.0, address.value) == None
    ensures !r.1.LoginSuccess? ==> r.0 == s
    ensures r.1 == MissingParameters <==> !Given(signature) || !Given(address)
    ensures r.1 == NoValidNonce <==> Given(signature) && Given(address) && !Given(Lookup(s, address.value))
    ensures r.1 == RecoveryFailed <==> Given(signature) && Given(address) && Given(Lookup(s, address.value))
                                       && recover(Lookup(s, address.value).value, signature.value).None?
    ensures Consistent(s) ==> Consistent(r.0)
  {
    if !Given(signature) || !Given(address) then
      (s, MissingParameters)
    else
      var message := Lookup(s, address.value);
      if !Given(message) then
        (s, NoValidNonce)
      else
        var verifyAddress := recover(message.value, signature.value);
        if verifyAddress.None? then
          (s, RecoveryFailed)
        else if address.value != verifyAddress.value then
          (s, InvalidSignature)
        else
          (AfterDelete(s, address.value), LoginSuccess(address.value))
  }

  /** The server's single store, created with a five-minute lifetime. */
  method ServerStore() returns (nonces: NonceStore)
    ensures fresh(nonces) && nonces.Valid()
    ensures nonces.ttl == NonceTtl && nonces.entries == map[] && nonces.timers == map[]
  {
    nonces := new NonceStore(NonceTtl);
  }

  /** In the server's store, a challenge never reports more than five minutes' worth of seconds left. */
  lemma ServerRemainingAtMostFiveMinutes(createdAt: int, now: int)
    requires now >= createdAt
    ensures RemainingSeconds(NonceTtl, createdAt, now) <= 300
  {
  }

  /** `getNonce` against a live store. */
  method GetNonce(nonces: NonceStore, address: Option<string>, token: string, now: int) returns (reply: NonceReply)
    requires nonces.Valid()
    modifies nonces
    ensures nonces.Valid()
    ensures (nonces.State(), reply) == IssueStep(old(nonces.State()), address, token, now)
  {
    if !Given(address) {
      return MissingAddress;
    }
    var nonceStr := Challenge(token);
    nonces.Set(address.value, nonceStr, now);
    reply := Issued(nonceStr);
  }

  /** `login` against a live store. */
  method Login(nonces: NonceStore, signature: Option<string>, address: Option<string>,
               recover: (string, string) -> Option<string>) returns (reply: LoginReply)
    requires nonces.Valid()
    modifies nonces
    ensures nonces.Valid()
    ensures (nonces.State(), reply) == LoginStep(old(nonces.State()), signature, address, recover)
  {
    if !Given(signature) || !Given(address) {
      return MissingParameters;
    }
    var message := nonces.Get(address.value);
    if !Given(message) {
      return NoValidNonce;
    }
    var verifyAddress := recover(message.value, signature.value);
    if verifyAddress.None? {
      return RecoveryFailed;
    }
    if address.value != verifyAddress.value {
      return InvalidSignature;
    }
    var _ := nonces.Delete(address.value);
    reply := LoginSuccess(address.value);
  }

  /** Everything that can happen to the server's store: the two requests and the firing of a timer. */
  datatype Event =
    | NonceRequest(address: Option<string>, token: string, now: int)
    | LoginRequest(signature: Option<string>, address: Option<string>)
    | TimerDue(id: TimerId, now: int)

  function Step(s: Snapshot, recover: (string, string) -> Option<string>, e: Event): Snapshot
  {
    match e
    case NonceRequest(address, token, now) => IssueStep(s, address, token, now).0
    case LoginRequest(signature, address) => LoginStep(s, signature, address, recover).0
    case TimerDue(id, now) => AfterFire(s, id, now)
  }

  function Run(s: Snapshot, recover: (string, string) -> Option<string>, events: seq<Event>): Snapshot
    decreases |events|
  {
    if events == [] then s else Run(Step(s, recover, events[0]), recover, events[1..])
  }

  /** Only a nonce request for `a` can create an entry for `a`. */
  predicate RequestsNonceFor(e: Event, a: string)
  {
    e.NonceRequest? && e.address == Some(a)
  }

  /** The store invariant holds after any sequence of requests and timer events. */
  lemma {:induction false} RunKeepsConsistent(s: Snapshot, recover: (string, string) -> Option<string>, events: seq<Event>)
    requires Consistent(s)
    ensures Consistent(Run(s, recover, events))
    decreases |events|
  {
    if events != [] {
      var e := events[0];
      assert Consistent(Step(s, recover, e)) by {
        match e
        case NonceRequest(address, token, now) =>
        case LoginRequest(signature, address) =>
        case TimerDue(id, now) =>
      }
      RunKeepsConsistent(Step(s, recover, e), recover, events[1..]);
    }
  }

  /** An address without a challenge gets none until a nonce is requested for it. */
  lemma {:induction false} NoNonceWithoutRequest(s: Snapshot, recover: (string, string) -> Option<string>,
                                                 events: seq<Event>, a: string)
    requires Lookup(s, a) == None
    requires forall i :: 0 <= i < |events| ==> !RequestsNonceFor(events[i], a)
    ensures Lookup(Run(s, recover, events), a) == None
    decreases |events|
  {
    if events != [] {
      var t := Step(s, recover, events[0]);
      assert Lookup(t, a) == None by {
        match events[0]
        case NonceRequest(address, token, now) =>
          if Given(address) {
            assert address.value != a;
            assert SameEntry(s, t, a);
          }
        case LoginRequest(signature, address) =>
        case TimerDue(id, now) =>
      }
      NoNonceWithoutRequest(t, recover, events[1..], a);
    }
  }

  /**
   * A challenge is good for one login only: after a successful login for `a`,
   * any later login for `a` with any signature fails with "no valid nonce"
   * until a new nonce is requested for `a`, whatever timers fire meanwhile.
   */
  lemma NoReplay(s: Snapshot, recover: (string, string) -> Option<string>, signature: Option<string>, a: string,
                 events: seq<Event>, replayed: Option<string>)
    requires LoginStep(s, signature, Some(a), recover).1 == LoginSuccess(a)
    requires forall i :: 0 <= i < |events| ==> !RequestsNonceFor(events[i], a)
    ensures var later := Run(LoginStep(s, signature, Some(a), recover).0, recover, events);
            LoginStep(later, replayed, Some(a), recover).1 == if Given(replayed) then NoValidNonce else MissingParameters
  {
    NoNonceWithoutRequest(LoginStep(s, signature, Some(a), recover).0, recover, events, a);
  }

  /**
   * The events that leave the entry `entry` of address `a` alone: requests and
   * logins for other addresses, login attempts for `a` whose signature does not
   * recover `a` from the stored challenge, any stale or foreign timer, and the
   * entry's own timer before it is due.
   */
  predicate Spares(e: Event, a: string, entry: Entry, ttl: nat, recover: (string, string) -> Option<string>)
  {
    match e
    case NonceRequest(address, _, _) => address != Some(a)
    case LoginRequest(signature, address) => address == Some(a) ==> !Admits(entry.value, signature, address, recover)
    case TimerDue(id, now) => id == entry.timer ==> now < entry.createdAt + ttl
  }

  /**
   * No premature expiry and no consumption by a failed attempt: the entry for
   * `a` stays exactly as it was through any events that spare it.
   */
  lemma {:induction false} EntrySurvives(s: Snapshot, recover: (string, string) -> Option<string>,
                                         events: seq<Event>, a: string)
    requires Consistent(s) && a in s.entries
    requires forall i :: 0 <= i < |events| ==> Spares(events[i], a, s.entries[a], s.ttl, recover)
    ensures var t := Run(s, recover, events); a in t.entries && t.entries[a] == s.entries[a]
    decreases |events|
  {
    if events != [] {
      var e := events[0];
      var t := Step(s, recover, e);
      assert Consistent(t) && SameEntry(s, t, a) by {
        match e
        case NonceRequest(address, token, now) =>
          if Given(address) {
            assert address.value != a;
          }
        case LoginRequest(signature, address) =>
          if LoginStep(s, signature, address, recover).1.LoginSuccess? {
            assert address.value != a;
          }
        case TimerDue(id, now) =>
      }
      EntrySurvives(t, recover, events[1..], a);
    }
  }
}
