/**
 Enrollment and verification together: what an accepted request says about the key behind it
 (cockpit/identity/verifier.py and cockpit/identity/enrollment.py).
 */
module TrustedRequests {
  import opened Bytes
  import opened Canonical
  import opened Envelope
  import opened Registry
  import opened Enrollment
  import EnrollmentSafety
  import NonceTable
  import opened Verifier

  // What the checks of a verify establish about a request.
  lemma CheckedBySignature(w: World, contract: string, s: Store, env: Json)
    requires Consistent(s) && Precheck(w, contract, s, env).Ok?
    ensures var v := Precheck(w, contract, s, env).value;
      v.keyId in s.records && s.records[v.keyId].Active()
      && s.records[v.keyId].principal == v.principal && s.records[v.keyId].role == v.role
      && SignedBytes(env, w.digest).Some?
      && w.signatureOk(s.records[v.keyId].pubkey, Field(env, "sig").value, SignedBytes(env, w.digest).value)
  {
    hide Field, SignedBytes, ToRequest, ValidNonceShape;
  }

  // An accepted request has passed those checks.
  lemma AcceptedIsChecked(w: World, cfg: NonceTable.Config, contract: string, skew: nat, t: NonceTable.Table, s: Store,
                          env: Json, skewNow: int, cacheNow: int)
    requires cfg.Usable() && NonceTable.Ordered(t)
    ensures var answer := Verify(w, cfg, contract, skew, t, s, env, skewNow, cacheNow).1;
      answer.Ok? ==> answer == Precheck(w, contract, s, env)
  {
    hide Precheck, NonceTable.Step;
  }

  /**
   A request that passes the checks against a reachable registry is signed by a key whose id is
   derived from it, that is active for the principal and role reported, and whose chain of approvals
   ends at a bootstrapped owner; the role is owner exactly for the principal "owner".
   */
  lemma CheckedIsTrusted(w: World, r: EnrollmentSafety.Run, n: nat, contract: string, env: Json)
    requires EnrollmentSafety.Usable(w) && EnrollmentSafety.IsRun(w, r) && n <= |r.ops|
    requires Precheck(w, contract, r.states[n], env).Ok?
    ensures var v, s := Precheck(w, contract, r.states[n], env).value, r.states[n];
      v.keyId in s.records && s.records[v.keyId].Active()
      && s.records[v.keyId].principal == v.principal && s.records[v.keyId].role == v.role
      && w.derive(s.records[v.keyId].pubkey) == Some(v.keyId)
      && SignedBytes(env, w.digest).Some?
      && w.signatureOk(s.records[v.keyId].pubkey, Field(env, "sig").value, SignedBytes(env, w.digest).value)
      && (v.role == ROLE_OWNER <==> v.principal == "owner")
      && EnrollmentSafety.ReachesOwner(s, v.keyId, n)
  {
    hide Precheck, Field, SignedBytes, Apply, EnrollmentSafety.RotationOk, EnrollmentSafety.Usable;
    var s := r.states[n];
    EnrollmentSafety.RunSound(w, r, n);
    CheckedBySignature(w, contract, s, env);
    var v := Precheck(w, contract, s, env).value;
    assert EnrollmentSafety.RecordOk(w, s.records[v.keyId]);
    EnrollmentSafety.ChainEndsAtOwner(w, r, n, v.keyId);
  }

  // A key that was revoked at any time signs no request that passes the checks later.
  lemma RevokedIsNeverAccepted(w: World, r: EnrollmentSafety.Run, i: nat, n: nat, contract: string, env: Json, k: string)
    requires EnrollmentSafety.Usable(w) && EnrollmentSafety.IsRun(w, r) && i <= n <= |r.ops|
    requires k in r.states[i].records && r.states[i].records[k].status == STATUS_REVOKED
    ensures Precheck(w, contract, r.states[n], env).Ok? ==> Precheck(w, contract, r.states[n], env).value.keyId != k
  {
    hide Precheck, Field, SignedBytes, Apply, EnrollmentSafety.Usable;
    EnrollmentSafety.SettledForever(w, r, i, n, k);
    if Precheck(w, contract, r.states[n], env).Ok? {
      CheckedIsTrusted(w, r, n, contract, env);
    }
  }
}
