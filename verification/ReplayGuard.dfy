/** The table of used nonces that keeps a gateway token from being consumed twice. */
module ReplayGuard {
  import opened Wrappers
  import opened Collections
  import opened Text

  /** An expiry in milliseconds; infinities and not-a-number are one case. */
  datatype Expiry = Finite(at: real) | NonFinite

  datatype Claims = Claims(expiresAt: Expiry, nonce: string)

  datatype Rejection = InvalidExpiration | TokenExpired | InvalidNonce | AlreadyUsed | CapacityExceeded

  type Used = map<string, real>

  const MAX_TOKEN_FUTURE_MS := 60000.0

  predicate IsNonceChar(c: char) {
    'A' <= c <= 'Z' || 'a' <= c <= 'z' || '0' <= c <= '9' || c == '_' || c == '-'
  }

  predicate IsNonce(s: string) {
    12 <= |s| <= 128 && forall i :: 0 <= i < |s| ==> IsNonceChar(s[i])
  }

  function Purge(used: Used, now: real): Used {
    map nonce | nonce in used && used[nonce] >= now :: used[nonce]
  }

  /** Everything about the claims that does not depend on the table. */
  predicate Timely(claims: Claims, now: real) {
    claims.expiresAt.Finite? && now < claims.expiresAt.at <= now + MAX_TOKEN_FUTURE_MS && IsNonce(claims.nonce)
  }

  /** The verdict on claims, given the table without its expired entries. */
  function Verdict(live: Used, now: real, claims: Claims, maxEntries: int): Option<Rejection> {
    if claims.expiresAt.NonFinite? || claims.expiresAt.at > now + MAX_TOKEN_FUTURE_MS then Some(InvalidExpiration)
    else if claims.expiresAt.at <= now then Some(TokenExpired)
    else if !IsNonce(claims.nonce) then Some(InvalidNonce)
    else if claims.nonce in live then Some(AlreadyUsed)
    else if |live| >= maxEntries then Some(CapacityExceeded)
    else None
  }

  function Consumed(used: Used, now: real, claims: Claims, maxEntries: int): Used {
    var live := Purge(used, now);
    if Verdict(live, now, claims, maxEntries).None? then live[claims.nonce := claims.expiresAt.at] else live
  }


  const ALPHABET := UPPER + LOWER + DIGITS + {'_', '-'}

  /** The characters of the pattern, one by one. */
  lemma NonceCharacters(c: char)
    ensures IsNonceChar(c) <==> c in ALPHABET
  {
    Letters(c);
    HexDigits(c);
  }

  /** When each of the three rejections that do not depend on the table is given. */
  lemma RejectionsAreExact(live: Used, now: real, claims: Claims, maxEntries: int)
    ensures var rejection, nonce := Verdict(live, now, claims, maxEntries), claims.nonce;
            && (rejection == Some(InvalidExpiration) <==>
                  claims.expiresAt.NonFinite? || claims.expiresAt.at > now + 60000.0)
            && (rejection == Some(TokenExpired) <==> claims.expiresAt.Finite? && claims.expiresAt.at <= now)
            && (rejection == Some(InvalidNonce) <==>
                  && claims.expiresAt.Finite? && now < claims.expiresAt.at <= now + 60000.0
                  && (|nonce| < 12 || |nonce| > 128 || exists i :: 0 <= i < |nonce| && nonce[i] !in ALPHABET))
            && (Timely(claims, now) <==>
                  rejection.None? || rejection == Some(AlreadyUsed) || rejection == Some(CapacityExceeded))
  {
    forall i | 0 <= i < |claims.nonce| ensures IsNonceChar(claims.nonce[i]) <==> claims.nonce[i] in ALPHABET {
      NonceCharacters(claims.nonce[i]);
    }
  }

  class GatewayTokenReplayGuard {
    var usedNonceExpirations: Used
    const maxEntries: int

    constructor (maxEntries: int)
      ensures usedNonceExpirations == map[] && this.maxEntries == maxEntries
    {
      this.usedNonceExpirations, this.maxEntries := map[], maxEntries;
    }

    method Consume(now: real, claims: Claims) returns (thrown: Option<Rejection>)
      modifies this
      ensures thrown == Verdict(Purge(old(usedNonceExpirations), now), now, claims, maxEntries)
      ensures usedNonceExpirations == Consumed(old(usedNonceExpirations), now, claims, maxEntries)
    {
      var left := usedNonceExpirations.Keys;
      while left != {}
        invariant left <= usedNonceExpirations.Keys <= old(usedNonceExpirations).Keys
        invariant forall nonce :: nonce in usedNonceExpirations ==>
          usedNonceExpirations[nonce] == old(usedNonceExpirations)[nonce]
        invariant forall nonce :: nonce in old(usedNonceExpirations) && nonce !in left ==>
          (nonce in usedNonceExpirations <==> old(usedNonceExpirations)[nonce] >= now)
        decreases |left|
      {
        var nonce :| nonce in left;
        left := left - {nonce};
        if usedNonceExpirations[nonce] < now {
          usedNonceExpirations := usedNonceExpirations - {nonce};
        }
      }
      assert usedNonceExpirations == Purge(old(usedNonceExpirations), now);
      if claims.expiresAt.NonFinite? || claims.expiresAt.at > now + MAX_TOKEN_FUTURE_MS {
        return Some(InvalidExpiration);
      }
      if claims.expiresAt.at <= now { return Some(TokenExpired); }
      if !IsNonce(claims.nonce) { return Some(InvalidNonce); }
      if claims.nonce in usedNonceExpirations { return Some(AlreadyUsed); }
      if |usedNonceExpirations| >= maxEntries { return Some(CapacityExceeded); }
      usedNonceExpirations := usedNonceExpirations[claims.nonce := claims.expiresAt.at];
      thrown := None;
    }
  }

  // ---------- Runs ----------

  datatype Call = Call(now: real, claims: Claims)

  /** The table after the first n calls of a new guard. */
  function UsedAfter(calls: seq<Call>, maxEntries: int, n: nat): Used
    requires n <= |calls|
  {
    if n == 0 then map[] else
      Consumed(UsedAfter(calls, maxEntries, n - 1), calls[n - 1].now, calls[n - 1].claims, maxEntries)
  }

  function VerdictOn(calls: seq<Call>, maxEntries: int, i: nat): Option<Rejection>
    requires i < |calls|
  {
    Verdict(Purge(UsedAfter(calls, maxEntries, i), calls[i].now), calls[i].now, calls[i].claims, maxEntries)
  }

  predicate Accepted(calls: seq<Call>, maxEntries: int, i: nat)
    requires i < |calls|
  {
    VerdictOn(calls, maxEntries, i).None?
  }

  ghost predicate ClockNeverGoesBack(calls: seq<Call>) {
    forall i, j :: 0 <= i < j < |calls| ==> calls[i].now <= calls[j].now
  }

  /** An accepted nonce stays in the table until its expiry has passed. */
  lemma {:induction false} AcceptedStays(calls: seq<Call>, maxEntries: int, i: nat, n: nat)
    requires ClockNeverGoesBack(calls) && i < n <= |calls| && Accepted(calls, maxEntries, i)
    ensures var used, claims := UsedAfter(calls, maxEntries, n), calls[i].claims;
            || (claims.nonce in used && used[claims.nonce] == claims.expiresAt.at)
            || claims.expiresAt.at < calls[n - 1].now
    decreases n
  {
    if n > i + 1 {
      AcceptedStays(calls, maxEntries, i, n - 1);
    }
  }

  /** Every entry of the table was put there by an accepted call with that nonce and expiry. */
  lemma {:induction false} EntryWasAccepted(calls: seq<Call>, maxEntries: int, n: nat, nonce: string) returns (i: nat)
    requires n <= |calls| && nonce in UsedAfter(calls, maxEntries, n)
    ensures i < n && Accepted(calls, maxEntries, i) && calls[i].claims.nonce == nonce
    ensures calls[i].claims.expiresAt == Finite(UsedAfter(calls, maxEntries, n)[nonce])
  {
    if Accepted(calls, maxEntries, n - 1) && calls[n - 1].claims.nonce == nonce {
      i := n - 1;
    } else {
      i := EntryWasAccepted(calls, maxEntries, n - 1, nonce);
    }
  }

  /** A nonce accepted twice had expired in between; so no (nonce, expiry) pair is accepted twice. */
  lemma NoReplay(calls: seq<Call>, maxEntries: int, i: nat, j: nat)
    requires ClockNeverGoesBack(calls) && i < j < |calls|
    requires Accepted(calls, maxEntries, i) && Accepted(calls, maxEntries, j)
    requires calls[i].claims.nonce == calls[j].claims.nonce
    ensures calls[i].claims.expiresAt.at < calls[j].now < calls[j].claims.expiresAt.at
    ensures calls[i].claims != calls[j].claims
  {
    AcceptedStays(calls, maxEntries, i, j);
  }

  /** Call i accepted the nonce of call j, and that acceptance has not expired by call j. */
  predicate StillLive(calls: seq<Call>, maxEntries: int, i: int, j: int) {
    && 0 <= i < j < |calls| && Accepted(calls, maxEntries, i)
    && calls[i].claims.nonce == calls[j].claims.nonce && calls[i].claims.expiresAt.at >= calls[j].now
  }

  /** Timely claims are turned down as a replay exactly when the nonce was accepted and has not expired. */
  lemma ReplayIsExact(calls: seq<Call>, maxEntries: int, j: nat)
    requires ClockNeverGoesBack(calls) && j < |calls| && Timely(calls[j].claims, calls[j].now)
    ensures VerdictOn(calls, maxEntries, j) == Some(AlreadyUsed) <==>
      exists i :: StillLive(calls, maxEntries, i, j)
  {
    var nonce := calls[j].claims.nonce;
    if VerdictOn(calls, maxEntries, j) == Some(AlreadyUsed) {
      var i := EntryWasAccepted(calls, maxEntries, j, nonce);
      assert StillLive(calls, maxEntries, i, j);
    }
    if i :| StillLive(calls, maxEntries, i, j) {
      AcceptedStays(calls, maxEntries, i, j);
    }
  }

  /** The table never exceeds its capacity. */
  lemma {:induction false} CapacityHolds(calls: seq<Call>, maxEntries: nat, n: nat)
    requires n <= |calls|
    ensures |UsedAfter(calls, maxEntries, n)| <= maxEntries
  {
    if n > 0 {
      CapacityHolds(calls, maxEntries, n - 1);
      var before := UsedAfter(calls, maxEntries, n - 1);
      SmallerSubset(Purge(before, calls[n - 1].now).Keys, before.Keys);
    }
  }
}
