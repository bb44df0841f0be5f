/**
 What each enrollment operation asks for and what it does, over the fields of envelopes and records
 (cockpit/identity/enrollment.py). A refused operation changes nothing.
 */
module EnrollmentRules {
  import opened Bytes
  import opened Canonical
  import opened Envelope
  import opened Registry
  import opened Enrollment
  import SigningString
  import opened AcceptedRequests

  lemma RefusedChangesNothing(w: World, s: Store, op: Op)
    ensures Apply(w, s, op).1.Err? ==> Apply(w, s, op).0 == s
  {
    hide CheckClaims, Linked, Put, Drop;
  }

  // One record put: replaced in its place, or new at the end.
  ghost predicate Puts(s: Store, t: Store, r: KeyRecord) {
    t.records == s.records[r.keyId := r] && t.order == if r.keyId in s.records then s.order else s.order + [r.keyId]
  }

  ghost predicate ActiveOwner(s: Store, k: string) {
    k in s.records && s.records[k].role == "owner" && s.records[k].status == "approved"
  }

  // The actor's key belongs to an owner, active or not, or the actor is the key's own principal.
  ghost predicate Manages(s: Store, actor: Actor, k: string) {
    k in s.records
    && ((actor.keyId in s.records && s.records[actor.keyId].role == "owner") || s.records[k].principal == actor.principal)
  }

  // A record as an operation makes it, before anything is known of it but who and when.
  function Fresh(kid: string, principal: string, role: string, pubkey: string, device: string, status: string, now: int): KeyRecord {
    KeyRecord(
      keyId := kid, principal := principal, role := role, pubkey := pubkey, deviceLabel := Str(device), status := status,
      enrolledAt := Int(now), approvedAt := Null, revokedAt := Null, enrolledBy := Null, rotatedFrom := Null,
      rotatedTo := Null, claimsExistingPrincipal := Bool(false))
  }

  lemma BootstrapExactly(w: World, s: Store, pubkey: string, device: string, now: int)
    ensures var (t, r) := Apply(w, s, Bootstrap(pubkey, device, now));
      (r.Ok? <==> (forall k :: !ActiveOwner(s, k)) && w.derive(pubkey).Some? && w.derive(pubkey).value !in s.records)
      && (r.Ok? ==>
        var rec := Fresh(w.derive(pubkey).value, "owner", "owner", pubkey, device, "approved", now).(approvedAt := Int(now));
        r.value == Some(rec) && Puts(s, t, rec))
  {
    if AnyActiveOwner(s) {
      var k :| k in s.records && s.records[k].role == ROLE_OWNER && s.records[k].Active();
      assert ActiveOwner(s, k);
    }
    if k :| ActiveOwner(s, k) {
      assert s.records[k].Active();
    }
  }

  // The envelope says what the request claims.
  ghost predicate Claims(req: EnrollRequest, kid: string, r: SigningString.Request) {
    Says(req.envelope, r) && r.kind == "req" && r.verb == "enroll.request" && r.principal == req.principal && r.keyId == kid
    && Field(r.args, "pubkey") == Some(Str(req.pubkey)) && Field(r.args, "principal") == Some(Str(req.principal))
    && Field(r.args, "role") == Some(Str(req.role))
  }

  // And the presented key has signed that.
  ghost predicate Proves(w: World, req: EnrollRequest, kid: string, r: SigningString.Request) {
    Claims(req, kid, r) && Signed(w, req.pubkey, req.sig, r)
  }

  // It could be signed, and this is no signature of it.
  ghost predicate Forged(w: World, req: EnrollRequest, kid: string, r: SigningString.Request) {
    Claims(req, kid, r) && SigningString.BuildSigningString(r, w.digest).Ok? && !Signed(w, req.pubkey, req.sig, r)
  }

  lemma ClaimsExactly(w: World, req: EnrollRequest, kid: string)
    ensures CheckClaims(w, req, kid) == None <==> exists r :: Proves(w, req, kid, r)
    ensures CheckClaims(w, req, kid) == Some(BadSig) <==> exists r :: Forged(w, req, kid, r)
  {
    hide Field, ToRequest, SigningString.BuildSigningString;
    var env := req.envelope;
    if CheckClaims(w, req, kid) in {None, Some(BadSig)} {
      var r := ToRequest(env).value;
      ToRequestExactly(env, r);
      SignedExactly(env, r, w, req.pubkey, req.sig);
      assert Proves(w, req, kid, r) || Forged(w, req, kid, r);
      assert CheckClaims(w, req, kid) == None <==> Proves(w, req, kid, r);
    }
    if r :| Claims(req, kid, r) {
      ToRequestExactly(env, r);
      SignedExactly(env, r, w, req.pubkey, req.sig);
      OnlyObjects(env, "type");
      OnlyObjects(r.args, "pubkey");
      OneClaim(req, kid, r);
    }
  }

  lemma OneClaim(req: EnrollRequest, kid: string, r: SigningString.Request)
    requires Claims(req, kid, r)
    ensures forall q :: Claims(req, kid, q) ==> q == r
  {
    hide Field;
    forall q | Claims(req, kid, q)
      ensures q == r
    {
      ToRequestExactly(req.envelope, r);
      ToRequestExactly(req.envelope, q);
    }
  }

  lemma OnlyObjects(v: Json, name: string)
    ensures Field(v, name).Some? ==> v.Obj?
  {
  }

  predicate NewMember(w: World, s: Store, req: EnrollRequest) {
    (req.role == "member" || req.role == "guest") && req.principal != "" && req.principal != "owner"
    && w.derive(req.pubkey).Some? && w.derive(req.pubkey).value !in s.records
  }

  ghost predicate MayEnroll(w: World, s: Store, req: EnrollRequest) {
    NewMember(w, s, req) && exists r :: Proves(w, req, w.derive(req.pubkey).value, r)
  }

  // Enrollment is asked for by whoever holds the private key, and waits; claiming a principal that has
  // active keys is marked.
  lemma RequestExactly(w: World, s: Store, req: EnrollRequest, now: int)
    ensures var (t, r) := Apply(w, s, Request(req, now));
      (r.Ok? <==> MayEnroll(w, s, req))
      && (r == Err(BadSig) <==> NewMember(w, s, req) && exists q :: Forged(w, req, w.derive(req.pubkey).value, q))
      && (r.Ok? ==>
        var claims := exists k :: k in s.records && s.records[k].principal == req.principal && s.records[k].status == "approved";
        var rec := Fresh(w.derive(req.pubkey).value, req.principal, req.role, req.pubkey, req.deviceLabel, "pending", now)
          .(claimsExistingPrincipal := Bool(claims));
        r.value == Some(rec) && Puts(s, t, rec))
  {
    hide CheckClaims, Proves, Forged;
    if w.derive(req.pubkey).Some? {
      ClaimsExactly(w, req, w.derive(req.pubkey).value);
    }
  }

  ghost predicate MayApprove(s: Store, actor: Actor, k: string, expectedRole: Option<string>, squatterOk: bool) {
    ActiveOwner(s, actor.keyId) && k in s.records
    && (expectedRole == None || expectedRole == Some(s.records[k].role))
    && (s.records[k].status == "approved"
        || (s.records[k].status != "revoked" && (squatterOk || s.records[k].claimsExistingPrincipal in FALSY)))
  }

  // What Python takes for false.
  const FALSY := {Null, Bool(false), Int(0), Str(""), Arr([]), Obj([])}

  // Only an active owner approves, never a revoked key, and a claim to a principal that has active keys
  // only on purpose. Approving twice changes nothing.
  lemma ApproveExactly(w: World, s: Store, actor: Actor, k: string, expectedRole: Option<string>, squatterOk: bool, now: int)
    requires Consistent(s)
    ensures var (t, r) := Apply(w, s, Approve(actor, k, expectedRole, squatterOk, now));
      (r.Ok? <==> MayApprove(s, actor, k, expectedRole, squatterOk))
      && (r.Ok? && s.records[k].status == "approved" ==> t == s && r.value == Some(s.records[k]))
      && (r.Ok? && s.records[k].status != "approved" ==>
        var rec := s.records[k].(status := "approved", approvedAt := Int(now), enrolledBy := Str(actor.keyId));
        r.value == Some(rec) && Puts(s, t, rec))
  {
  }

  // Only an active owner denies, and only a key that waits; it is gone then, from wherever it stood.
  lemma DenyExactly(w: World, s: Store, actor: Actor, k: string)
    requires Consistent(s)
    ensures var (t, r) := Apply(w, s, Deny(actor, k));
      (r.Ok? <==> ActiveOwner(s, actor.keyId) && k in s.records && s.records[k].status == "pending")
      && (r.Ok? ==> r.value == None && t.records == s.records - {k})
      && forall i :: r.Ok? && 0 <= i < |s.order| && s.order[i] == k ==> t.order == s.order[..i] + s.order[i + 1..]
  {
    forall i | 0 <= i < |s.order| && s.order[i] == k
      ensures Without(s.order, k) == s.order[..i] + s.order[i + 1..]
    {
      WithoutOnce(s.order, i);
    }
  }

  lemma {:induction false} WithoutOnce(order: seq<string>, i: nat)
    requires i < |order| && forall a, b :: 0 <= a < b < |order| ==> order[a] != order[b]
    ensures Without(order, order[i]) == order[..i] + order[i + 1..]
  {
    var rest := order[1..];
    forall a, b | 0 <= a < b < |rest|
      ensures rest[a] != rest[b]
    {
      assert order[a + 1] != order[b + 1];
    }
    if i == 0 {
      WithoutNone(rest, order[0]);
    } else {
      WithoutOnce(rest, i - 1);
      assert order[..i] == [order[0]] + rest[..i - 1];
      assert order[i + 1..] == rest[i..];
    }
  }

  lemma {:induction false} WithoutNone(order: seq<string>, k: string)
    requires k !in order
    ensures Without(order, k) == order
  {
    if order != [] {
      WithoutNone(order[1..], k);
    }
  }

  // An owner, or the key's own principal, revokes. Revoking twice changes nothing.
  lemma RevokeExactly(w: World, s: Store, actor: Actor, k: string, now: int)
    requires Consistent(s)
    ensures var (t, r) := Apply(w, s, Revoke(actor, k, now));
      (r.Ok? <==> Manages(s, actor, k))
      && (r.Ok? && s.records[k].status == "revoked" ==> t == s && r.value == Some(s.records[k]))
      && (r.Ok? && s.records[k].status != "revoked" ==>
        var rec := s.records[k].(status := "revoked", revokedAt := Int(now));
        r.value == Some(rec) && Puts(s, t, rec))
  {
  }

  ghost predicate MayRotate(w: World, s: Store, actor: Actor, k: string, pubkey: string) {
    Manages(s, actor, k) && s.records[k].status == "approved" && s.records[k].deviceLabel.Str?
    && w.derive(pubkey).Some? && w.derive(pubkey).value !in s.records
  }

  // An active key gets a successor that waits, of the same principal and role; both name each other.
  lemma RotateExactly(w: World, s: Store, actor: Actor, k: string, pubkey: string, now: int)
    requires Consistent(s)
    ensures var (t, r) := Apply(w, s, Rotate(actor, k, pubkey, now));
      (r.Ok? <==> MayRotate(w, s, actor, k, pubkey))
      && (r.Ok? ==>
        var kid, prior := w.derive(pubkey).value, s.records[k];
        var rec := Fresh(kid, prior.principal, prior.role, pubkey, prior.deviceLabel.s + " (rotated)", "pending", now)
          .(enrolledBy := Str(actor.keyId), rotatedFrom := Str(k));
        r.value == Some(rec) && t.order == s.order + [kid]
        && t.records == s.records[k := prior.(rotatedTo := Str(kid))][kid := rec])
  {
    hide Linked, Put, Consistent, BootstrapOwner, RequestKey, ApproveKey, DenyKey, RevokeKey, DelegateKey;
    if k in s.records && s.records[k].deviceLabel.Str? && w.derive(pubkey).Some? && w.derive(pubkey).value !in s.records {
      var kid, prior := w.derive(pubkey).value, s.records[k];
      LinkedIs(s, k, Fresh(kid, prior.principal, prior.role, pubkey, prior.deviceLabel.s + " (rotated)", "pending", now)
                       .(enrolledBy := Str(actor.keyId)));
    }
  }

  lemma LinkedIs(s: Store, k: string, rec: KeyRecord)
    requires k in s.records && rec.keyId !in s.records
    ensures Linked(Put(s, rec), k, rec.keyId) ==
      Store(s.order + [rec.keyId],
            s.records[k := s.records[k].(rotatedTo := Str(rec.keyId))][rec.keyId := rec.(rotatedFrom := Str(k))])
  {
  }

  ghost predicate MayDelegate(w: World, s: Store, actor: Actor, pubkey: string, principal: string, role: string) {
    w.chainOfTrust && (role == "member" || role == "guest") && principal != "" && principal != "owner"
    && actor.keyId in s.records && s.records[actor.keyId].status == "approved"
    && w.derive(pubkey).Some? && w.derive(pubkey).value !in s.records
  }

  // Under the chain of trust an active key lets another in at once, never as an owner.
  lemma DelegateExactly(w: World, s: Store, actor: Actor, pubkey: string, device: string, principal: string, role: string, now: int)
    ensures var (t, r) := Apply(w, s, Delegate(actor, pubkey, device, principal, role, now));
      (r.Ok? <==> MayDelegate(w, s, actor, pubkey, principal, role))
      && (r.Ok? ==>
        var rec := Fresh(w.derive(pubkey).value, principal, role, pubkey, device, "approved", now)
          .(approvedAt := Int(now), enrolledBy := Str(actor.keyId));
        r.value == Some(rec) && Puts(s, t, rec))
  {
  }

  // Who is told that the actor is no owner, and who that there is no such key.
  lemma ActorRefusals(w: World, s: Store, op: Op)
    requires op.Approve? || op.Deny? || op.Revoke? || op.Rotate?
    ensures var r, actor := Apply(w, s, op).1, op.actor;
      var k := op.keyId;
      if op.Approve? || op.Deny? then
        (r == Err(NotOwner) <==> !ActiveOwner(s, actor.keyId))
        && (r == Err(NotEnrolled) <==> ActiveOwner(s, actor.keyId) && k !in s.records)
      else
        (r == Err(NotEnrolled) <==> k !in s.records) && (r == Err(NotOwner) <==> k in s.records && !Manages(s, actor, k))
  {
    hide Linked, Put, Drop;
  }
}
