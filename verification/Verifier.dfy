/**
 The request verifier (cockpit/identity/verifier.py). The clock is read once for the skew window and
 once more inside the replay memory; both readings are parameters.
 */
module Verifier {
  import opened Bytes
  import opened Canonical
  import opened Envelope
  import opened Registry
  import opened Enrollment
  import NonceTable
  import opened NonceMemory

  datatype VerifyError =
    | ContractMismatch | Unenrolled | NotApproved | WrongPrincipal | BadSignature | Stale | Replay | BadEnvelope

  datatype VerifiedRequest = VerifiedRequest(
    principal: string, role: string, keyId: string, verb: string, funding: string, args: Json,
    id: string, ts: int, nonce: string)

  const UPPER := "ABCDEFGHIJKLMNOPQRSTUVWXYZ"
  const LOWER := "abcdefghijklmnopqrstuvwxyz"
  const DIGITS := "0123456789"
  const OTHERS := "-_="

  const NONCE_ALPHABET := UPPER + LOWER + DIGITS + OTHERS

  predicate ValidNonceShape(nonce: string) {
    8 <= |nonce| <= 64 && forall i :: 0 <= i < |nonce| ==> nonce[i] in NONCE_ALPHABET
  }

  // `_require_fields`
  predicate HasRequiredFields(env: Json) {
    env.Obj? &&
    Field(env, "contract").Some? && Field(env, "type").Some? && Field(env, "id").Some? &&
    Field(env, "ts").Some? && Field(env, "nonce").Some? && Field(env, "principal").Some? &&
    Field(env, "key_id").Some? && Field(env, "funding").Some? && Field(env, "verb").Some? &&
    Field(env, "sig").Some? &&
    Field(env, "ts").value.Int? &&
    Field(env, "nonce").value.Str? && ValidNonceShape(Field(env, "nonce").value.s)
  }

  // The record that an envelope's key id names, if the key may sign for the declared principal.
  function SigningKey(s: Store, env: Json): Result<KeyRecord, VerifyError>
    requires HasRequiredFields(env)
  {
    match Text(Field(env, "key_id"))
    case None => Err(Unenrolled)
    case Some(keyId) =>
      if keyId !in s.records then Err(Unenrolled)
      else
        var rec := s.records[keyId];
        if rec.status == STATUS_PENDING then Err(NotApproved)
        else if rec.status == STATUS_REVOKED then Err(WrongPrincipal)
        else if rec.status != STATUS_APPROVED then Err(NotApproved)
        else if Field(env, "principal") != Some(Str(rec.principal)) then Err(WrongPrincipal)
        else Ok(rec)
  }

  // Everything that `_verify_locked` checks before it reads the clock.
  function Precheck(w: World, contract: string, s: Store, env: Json): Result<VerifiedRequest, VerifyError> {
    if !HasRequiredFields(env) then Err(BadEnvelope)
    else if Field(env, "contract") != Some(Str(contract)) then Err(ContractMismatch)
    else if Field(env, "type") != Some(Str("req")) then Err(BadEnvelope)
    else
      match SigningKey(s, env)
      case Err(e) => Err(e)
      case Ok(rec) =>
        if w.derive(rec.pubkey) == None then Err(BadSignature)
        else
          match (ToRequest(env), SignedBytes(env, w.digest))
          case (Some(r), Some(bytes)) =>
            if w.signatureOk(rec.pubkey, Field(env, "sig").value, bytes)
            then Ok(VerifiedRequest(rec.principal, rec.role, rec.keyId, r.verb, r.funding, r.args, r.id, r.ts, r.nonce))
            else Err(BadSignature)
          case _ => Err(BadEnvelope)
  }

  predicate WithinSkew(now: int, ts: int, skew: nat) {
    now - ts <= skew && ts - now <= skew
  }

  // One verify: the replay memory afterwards, and the answer.
  function Verify(w: World, cfg: NonceTable.Config, contract: string, skew: nat, t: NonceTable.Table, s: Store,
                  env: Json, skewNow: int, cacheNow: int): (NonceTable.Table, Result<VerifiedRequest, VerifyError>)
    requires cfg.Usable() && NonceTable.Ordered(t)
  {
    match Precheck(w, contract, s, env)
    case Err(e) => (t, Err(e))
    case Ok(v) =>
      if !WithinSkew(skewNow, v.ts, skew) then (t, Err(Stale))
      else
        var r := NonceTable.Step(cfg, t, NonceTable.Call(v.principal, v.nonce, cacheNow));
        (r.0, if r.1 then Ok(v) else Err(Replay))
  }

  class RequestVerifier {
    const registry: KeyRegistry
    const nonces: NonceCache
    const world: World
    const contract: string
    const skew: nat

    constructor (registry: KeyRegistry, world: World, contract: string, skew: nat)
      ensures this.registry == registry && this.world == world && this.contract == contract && this.skew == skew
      ensures fresh(nonces) && nonces.Valid() && nonces.State() == NonceTable.EMPTY
      ensures nonces.cfg == NonceTable.Config(2 * skew, 4096, 262144)
    {
      this.registry, this.world, this.contract, this.skew := registry, world, contract, skew;
      nonces := new NonceCache(skew, 4096, 262144);
    }

    // `_verify_locked`
    method VerifyRequest(env: Json, skewNow: int, cacheNow: int) returns (r: Result<VerifiedRequest, VerifyError>)
      requires nonces.Valid()
      modifies nonces
      ensures nonces.Valid()
      ensures (nonces.State(), r) ==
        Verify(world, nonces.cfg, contract, skew, old(nonces.State()), registry.State(), env, skewNow, cacheNow)
    {
      hide NonceTable.Step, NonceTable.Ordered, ToRequest, SignedBytes;
      if !HasRequiredFields(env) {
        return Err(BadEnvelope);
      }
      if Field(env, "contract") != Some(Str(contract)) {
        return Err(ContractMismatch);
      }
      if Field(env, "type") != Some(Str("req")) {
        return Err(BadEnvelope);
      }
      var key := SigningKey(registry.State(), env);
      if key.Err? {
        return Err(key.error);
      }
      var rec := key.value;
      if world.derive(rec.pubkey) == None {
        return Err(BadSignature);
      }
      var req, bytes := ToRequest(env), SignedBytes(env, world.digest);
      if req.None? || bytes.None? {
        return Err(BadEnvelope);
      }
      if !world.signatureOk(rec.pubkey, Field(env, "sig").value, bytes.value) {
        return Err(BadSignature);
      }
      if !WithinSkew(skewNow, req.value.ts, skew) {
        return Err(Stale);
      }
      var accepted := nonces.CheckAndRecord(rec.principal, req.value.nonce, cacheNow);
      if !accepted {
        return Err(Replay);
      }
      return Ok(VerifiedRequest(rec.principal, rec.role, rec.keyId, req.value.verb, req.value.funding,
                                req.value.args, req.value.id, req.value.ts, req.value.nonce));
    }
  }
}
