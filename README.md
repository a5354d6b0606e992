# Nonce store of a wallet sign-in server

This project models the core of a "sign in with wallet" server. The server
hands out a one-time challenge per blockchain address (`getNonce`). It keeps
that challenge in an in-memory `NonceStore` for five minutes. It accepts a
login when the signature over the stored challenge recovers exactly the
claimed address (`login`). A successful login consumes the challenge.

- `wrappers.dfy`: `Option`, standing for JavaScript's `null`.
- `nonce_store.dfy` (module `NonceStores`): the `NonceStore` class with the
  source's `set`, `get`, `delete` and `getRemainingTime`, plus the expiry timer
  callback as the method `Expire`. The class's fields are packed by `State()`
  into a `Snapshot` value. Pure functions `AfterSet`, `AfterDelete` and
  `AfterFire` give the next snapshot, and every mutating method is proved to
  produce exactly that snapshot.
- `dapp.dfy` (module `Dapp`): the store-facing logic of `getNonce` and
  `login`, as the pure steps `IssueStep` and `LoginStep` and as methods
  `GetNonce` and `Login` over a live store. It also holds an event trace
  (nonce requests, login requests, timer firings) with lemmas over any run.

How clocks and timers are modelled:
- Each `Date.now()` is an explicit `now: int` parameter.
- `setTimeout` arms a fresh integer timer id. The store records the timer in
  `timers`, with its key and due time `createdAt + ttl`.
- `clearTimeout` removes the id from `timers`.
- The event loop's turn for a timer is `Expire(id, now)`. The callback runs
  only if the timer is still armed and due, and then it calls `delete` on its
  key, as `dapp.mjs:21-24` does.
- The invariant `Consistent` says every entry has exactly one armed timer, and
  every armed timer belongs to its key's current entry. So a stale timer can
  never delete a newer entry.

`get` does not look at the clock. An entry disappears only when its timer
fires or when a login consumes it. Nothing in the model claims that `get`
alone reports absence once the lifetime has passed.

Signature recovery (`recoverMessageAddress`) is a parameter
`recover: (string, string) -> Option<string>`. `None` means the primitive
throws, which the handler turns into an internal-error reply; the store is left
unchanged. The random token from `generateRandomString(18)` is a parameter
`token`. Query and body parameters are `Option<string>`. JavaScript's `!x` test
on them is `!Given(x)`: absent or the empty string.

## Model

| member | source | states |
|---|---|---|
| `NonceStores.NonceStore.constructor` | dapp.mjs:9-12 | a new store is empty, has no armed timers, keeps the given lifetime (five minutes when none is given) and satisfies the invariant |
| `NonceStores.Lookup` | dapp.mjs:34-38 | `Some(value)` exactly when the key has an entry, with that entry's value; otherwise `None` |
| `NonceStores.NonceStore.Set` | dapp.mjs:14-32 | afterwards `Get(key)` is the new value, every other key reads as before, the invariant holds, and the new state is `AfterSet` of the old |
| `NonceStores.NonceStore.Get` | dapp.mjs:34-38 | returns a value exactly when the key has an entry, and then that entry's value; it reads and changes nothing else |
| `NonceStores.NonceStore.Delete` | dapp.mjs:40-46 | returns true iff the key had an entry; afterwards the key reads as absent (so a second delete returns false), other keys are untouched, the entry's timer is cancelled |
| `NonceStores.NonceStore.GetRemainingTime` | dapp.mjs:49-56 | 0 for an absent key; otherwise the whole seconds left of the entry's lifetime, at most `ttl / 1000` once the clock has reached the creation time |
| `NonceStores.NonceStore.Expire` | dapp.mjs:21-24 | the timer callback: the new state is `AfterFire` of the old and the invariant is kept |
| `NonceStores.AfterSet` | dapp.mjs:14-32 | the key now reads as the new value, created at `now`; every other key keeps its entry; the replaced entry's timer is no longer armed; the invariant is preserved |
| `NonceStores.AfterDelete` | dapp.mjs:40-46 | the key reads as absent; every other key keeps its entry; deleting an absent key changes nothing; no entry is created; the invariant is preserved |
| `NonceStores.AfterFire` | dapp.mjs:21-24 | a cancelled timer does nothing; in a consistent store a firing removes exactly the entry it was armed for, and only once that entry's lifetime has elapsed; every other key keeps its entry; the invariant is preserved |
| `NonceStores.RemainingSeconds` | dapp.mjs:53-55 | 0 when the lifetime is used up; otherwise the largest `r` with `r * 1000` at most the milliseconds left; never above `ttl / 1000` once the clock has reached the creation time |
| `NonceStores.RemainingSecondsNonIncreasing` | dapp.mjs:53-55 | the remaining time does not grow as the clock advances |
| `NonceStores.StaleTimerIsHarmless` | dapp.mjs:15-24 | after a key is set twice, the first entry's timer firing at any time leaves the second entry in place |
| `Dapp.Challenge` | dapp.mjs:88-89 | the challenge is the label `"Please sign : "` followed by the token, never empty |
| `Dapp.ChallengeInjective` | dapp.mjs:88-89 | two challenges are equal iff their tokens are |
| `Dapp.IssueStep` | dapp.mjs:74-92 | a missing or empty address is rejected and the store is untouched; otherwise the reply is the challenge (32 characters for the requested 18-character token), the address now reads as it, every other address keeps its entry, and the invariant is preserved |
| `Dapp.ServerStore` | dapp.mjs:60 | the server's store is a fresh, empty, consistent store whose lifetime is five minutes |
| `Dapp.ServerRemainingAtMostFiveMinutes` | dapp.mjs:49-60 | in the server's store, a challenge never reports more than 300 seconds left once the clock has reached its creation time |
| `Dapp.GetNonce` | dapp.mjs:68-93 | against a live store it replies and updates the store exactly as `IssueStep` |
| `Dapp.LoginStep` | dapp.mjs:141-184 | a login succeeds iff signature and address are given, a non-empty challenge is stored for the address, and recovery from it yields exactly that address; only success deletes the entry; every failure leaves the store unchanged; each failure reply is tied to its cause |
| `Dapp.Login` | dapp.mjs:121-185 | against a live store it replies and updates the store exactly as `LoginStep` |
| `Dapp.RunKeepsConsistent` | dapp.mjs:14-46 | the store invariant (one armed timer per entry, none stale) holds after any sequence of requests and timer firings |
| `Dapp.NoNonceWithoutRequest` | dapp.mjs:14-46 | an address with no entry gets none until a nonce is requested for it, whatever logins and timers happen |
| `Dapp.NoReplay` | dapp.mjs:151-184 | after a successful login for an address, every later login for it fails with "no valid nonce" until a new nonce is requested |
| `Dapp.EntrySurvives` | dapp.mjs:14-46 | an entry is unchanged by requests for other addresses, by failed logins for its own address, by stale or foreign timers, and by its own timer before it is due |

## Left out

- The HTTP server, CORS headers and routing (`index.mjs`): transport only.
- Request body streaming, `JSON.parse`, status codes and JSON reply
  envelopes: the model returns reply constructors instead. A body that does
  not parse (an internal-error reply) is not modelled.
- Non-string JSON values for `signature` or `address` (numbers, booleans):
  parameters are strings or absent.
- `recoverMessageAddress` is an arbitrary function parameter. Its
  cryptography is not modelled.
- `generateRandomString` is not part of this model. Its token is a parameter
  of any length; `IssueStep` states the challenge length for the requested
  18 characters.
- The `getRemainingTime` call inside `login` only feeds a log line, and all
  `console.log` output is dropped.
- Node clamps timer delays outside 1 to 2147483647 milliseconds; the model
  takes the delay to be exactly `ttl`, a natural number of milliseconds.
- Concurrency between async handlers: events are applied one at a time, so
  the `await` on signature recovery is not a point where other events
  interleave. In the source, a `getNonce` for the same address that runs
  during that `await` would have its new challenge deleted by the pending
  login; the model does not capture this. Likewise, two logins for the same
  address whose `get` (dapp.mjs:152) both run before either `delete` both
  succeed, because dapp.mjs:184 ignores `delete`'s result. So `NoReplay`
  holds only when requests are handled one at a time, as in the model.
- The module-level singleton `nonceStore` is not a global: `Dapp.ServerStore`
  creates it with the five-minute lifetime, and `GetNonce` and `Login` take it
  as a parameter.
