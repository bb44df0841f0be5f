/**
 Enrollment of signing keys (cockpit/identity/enrollment.py): each operation checks a request against
 the registry and then changes it, or is refused and changes nothing.
 */
module Enrollment {
  import opened Bytes
  import opened Canonical
  import opened Envelope
  import opened Registry

  datatype AuthError =
    | EnrollConflict | BadRequest | BadSig | NotOwner | NotEnrolled | DelegateDisabled | PrincipalMismatch
    | BadKeyMaterial  // `load_public_from_b64url` raised ValueError
    | BadLabel        // a loaded label that is no text: `+` raised TypeError

  /**
   What the code calls out to: key material to key id (None if it does not decode), signature
   verification by a public key, SHA-256 as hexadecimal text, and the configured policy.
   */
  datatype World = World(
    derive: string -> Option<string>, signatureOk: (string, Json, seq<Byte>) -> bool,
    digest: seq<Byte> -> string, chainOfTrust: bool)

  // The part of a verified request that enrollment uses.
  datatype Actor = Actor(keyId: string, principal: string)

  datatype EnrollRequest = EnrollRequest(
    pubkey: string, deviceLabel: string, principal: string, role: string, envelope: Json, sig: Json)

  datatype Op =
    | Bootstrap(pubkey: string, deviceLabel: string, now: int)
    | Request(req: EnrollRequest, now: int)
    | Approve(actor: Actor, keyId: string, expectedRole: Option<string>, squatterOk: bool, now: int)
    | Deny(actor: Actor, keyId: string)
    | Revoke(actor: Actor, keyId: string, now: int)
    | Rotate(actor: Actor, keyId: string, pubkey: string, now: int)
    | Delegate(actor: Actor, pubkey: string, deviceLabel: string, principal: string, role: string, now: int)

  // The record an operation returns; `deny` returns nothing.
  type Outcome = Result<Option<KeyRecord>, AuthError>

  function NewRecord(keyId: string, principal: string, role: string, pubkey: string, device: string,
                     status: string, now: int): KeyRecord {
    KeyRecord(keyId, principal, role, pubkey, Str(device), status, Int(now), Null, Null, Null, Null, Null, Bool(false))
  }

  // `if value` for what a field can hold.
  predicate Truthy(v: Json) {
    match v
    case Null => false
    case Bool(b) => b
    case Int(n) => n != 0
    case Str(s) => s != ""
    case Arr(items) => items != []
    case Obj(members) => members != []
  }

  predicate IsActiveOwner(s: Store, keyId: string) {
    keyId in s.records && s.records[keyId].role == ROLE_OWNER && s.records[keyId].Active()
  }

  // An owner key, active or not, or the key's own principal.
  predicate MayManage(s: Store, actor: Actor, keyId: string)
    requires keyId in s.records
  {
    (actor.keyId in s.records && s.records[actor.keyId].role == ROLE_OWNER) ||
    s.records[keyId].principal == actor.principal
  }

  // ----- What each operation does to the registry -----

  function BootstrapOwner(w: World, s: Store, pubkey: string, device: string, now: int): (Store, Outcome) {
    if AnyActiveOwner(s) then (s, Err(EnrollConflict))
    else
      match w.derive(pubkey)
      case None => (s, Err(BadKeyMaterial))
      case Some(kid) =>
        if kid in s.records then (s, Err(EnrollConflict))
        else
          var rec := NewRecord(kid, "owner", ROLE_OWNER, pubkey, device, STATUS_APPROVED, now).(approvedAt := Int(now));
          (Put(s, rec), Ok(Some(rec)))
  }

  // The claims and the signed envelope agree, and the presented key signed it.
  function CheckClaims(w: World, req: EnrollRequest, kid: string): Option<AuthError> {
    var env := req.envelope;
    var args := ArgsOf(env);
    if !env.Obj? || !args.Obj? then Some(BadRequest)
    else if Field(env, "type") != Some(Str("req")) || Field(env, "verb") != Some(Str("enroll.request")) then Some(BadRequest)
    else if Field(env, "principal") != Some(Str(req.principal)) then Some(BadRequest)
    else if Field(env, "key_id") != Some(Str(kid)) then Some(BadRequest)
    else if Field(args, "pubkey") != Some(Str(req.pubkey)) then Some(BadRequest)
    else if Field(args, "principal") != Some(Str(req.principal)) then Some(BadRequest)
    else if Field(args, "role") != Some(Str(req.role)) then Some(BadRequest)
    else
      match SignedBytes(env, w.digest)
      case None => Some(BadRequest)
      case Some(bytes) => if w.signatureOk(req.pubkey, req.sig, bytes) then None else Some(BadSig)
  }

  function RequestKey(w: World, s: Store, req: EnrollRequest, now: int): (Store, Outcome) {
    if !KnownRole(req.role) || req.role == ROLE_OWNER then (s, Err(BadRequest))
    else if req.principal == "" || req.principal == "owner" then (s, Err(BadRequest))
    else
      match w.derive(req.pubkey)
      case None => (s, Err(BadKeyMaterial))
      case Some(kid) =>
        if kid in s.records then (s, Err(EnrollConflict))
        else
          match CheckClaims(w, req, kid)
          case Some(e) => (s, Err(e))
          case None =>
            var rec := NewRecord(kid, req.principal, req.role, req.pubkey, req.deviceLabel, STATUS_PENDING, now)
              .(claimsExistingPrincipal := Bool(HasActiveKey(s, req.principal)));
            (Put(s, rec), Ok(Some(rec)))
  }

  function ApproveKey(s: Store, actor: Actor, keyId: string, expectedRole: Option<string>, squatterOk: bool,
                      now: int): (Store, Outcome) {
    if !IsActiveOwner(s, actor.keyId) then (s, Err(NotOwner))
    else if keyId !in s.records then (s, Err(NotEnrolled))
    else
      var rec := s.records[keyId];
      if expectedRole.Some? && rec.role != expectedRole.value then (s, Err(BadRequest))
      else if rec.status == STATUS_APPROVED then (s, Ok(Some(rec)))
      else if rec.status == STATUS_REVOKED then (s, Err(EnrollConflict))
      else if Truthy(rec.claimsExistingPrincipal) && !squatterOk then (s, Err(EnrollConflict))
      else
        var r := WithStatus(rec, STATUS_APPROVED, Some(actor.keyId), now);
        (Put(s, r), Ok(Some(r)))
  }

  function DenyKey(s: Store, actor: Actor, keyId: string): (Store, Outcome) {
    if !IsActiveOwner(s, actor.keyId) then (s, Err(NotOwner))
    else if keyId !in s.records then (s, Err(NotEnrolled))
    else if s.records[keyId].status != STATUS_PENDING then (s, Err(EnrollConflict))
    else (Drop(s, keyId), Ok(None))
  }

  function RevokeKey(s: Store, actor: Actor, keyId: string, now: int): (Store, Outcome) {
    if keyId !in s.records then (s, Err(NotEnrolled))
    else if !MayManage(s, actor, keyId) then (s, Err(NotOwner))
    else if s.records[keyId].status == STATUS_REVOKED then (s, Ok(Some(s.records[keyId])))
    else
      var r := WithStatus(s.records[keyId], STATUS_REVOKED, None, now);
      (Put(s, r), Ok(Some(r)))
  }

  function RotateKey(w: World, s: Store, actor: Actor, oldId: string, pubkey: string, now: int): (Store, Outcome) {
    if oldId !in s.records then (s, Err(NotEnrolled))
    else if !MayManage(s, actor, oldId) then (s, Err(NotOwner))
    else if !s.records[oldId].Active() then (s, Err(EnrollConflict))
    else
      match w.derive(pubkey)
      case None => (s, Err(BadKeyMaterial))
      case Some(kid) =>
        if kid in s.records then (s, Err(EnrollConflict))
        else if !s.records[oldId].deviceLabel.Str? then (s, Err(BadLabel))
        else
          var previous := s.records[oldId];
          var rec := NewRecord(kid, previous.principal, previous.role, pubkey, previous.deviceLabel.s + " (rotated)",
                               STATUS_PENDING, now).(enrolledBy := Str(actor.keyId));
          (Linked(Put(s, rec), oldId, kid), Ok(Some(rec.(rotatedFrom := Str(oldId)))))
  }

  function DelegateKey(w: World, s: Store, actor: Actor, pubkey: string, device: string, principal: string,
                       role: string, now: int): (Store, Outcome) {
    if !w.chainOfTrust then (s, Err(DelegateDisabled))
    else if role == ROLE_OWNER || !KnownRole(role) || principal == "" || principal == "owner" then (s, Err(BadRequest))
    else if actor.keyId !in s.records || !s.records[actor.keyId].Active() then (s, Err(PrincipalMismatch))
    else
      match w.derive(pubkey)
      case None => (s, Err(BadKeyMaterial))
      case Some(kid) =>
        if kid in s.records then (s, Err(EnrollConflict))
        else
          var rec := NewRecord(kid, principal, role, pubkey, device, STATUS_APPROVED, now)
            .(approvedAt := Int(now), enrolledBy := Str(actor.keyId));
          (Put(s, rec), Ok(Some(rec)))
  }

  function Apply(w: World, s: Store, op: Op): (Store, Outcome) {
    match op
    case Bootstrap(pubkey, device, now) => BootstrapOwner(w, s, pubkey, device, now)
    case Request(req, now) => RequestKey(w, s, req, now)
    case Approve(actor, keyId, role, squatterOk, now) => ApproveKey(s, actor, keyId, role, squatterOk, now)
    case Deny(actor, keyId) => DenyKey(s, actor, keyId)
    case Revoke(actor, keyId, now) => RevokeKey(s, actor, keyId, now)
    case Rotate(actor, keyId, pubkey, now) => RotateKey(w, s, actor, keyId, pubkey, now)
    case Delegate(actor, pubkey, device, principal, role, now) =>
      DelegateKey(w, s, actor, pubkey, device, principal, role, now)
  }

  // ----- The manager object -----

  class EnrollmentManager {
    const registry: KeyRegistry
    const world: World

    // The registry is consistent, and one that is kept in memory only has no file.
    ghost predicate Ready()
      reads this, registry
    {
      Consistent(registry.State()) && registry.derive == world.derive &&
      (!registry.persistent ==> registry.disk == None)
    }

    constructor (registry: KeyRegistry, world: World)
      requires registry.derive == world.derive && Consistent(registry.State())
      requires !registry.persistent ==> registry.disk == None
      ensures this.registry == registry && this.world == world && Ready()
    {
      this.registry, this.world := registry, world;
    }

    // A changed registry has been saved.
    twostate predicate SavedIfChanged()
      reads this, registry
    {
      (registry.State() == old(registry.State()) && registry.disk == old(registry.disk)) || registry.Saved()
    }

    method BootstrapOwner(pubkey: string, device: string, now: int) returns (r: Outcome)
      requires Ready()
      modifies registry
      ensures Ready() && SavedIfChanged()
      ensures (registry.State(), r) == Apply(world, old(registry.State()), Bootstrap(pubkey, device, now))
    {
      var taken := registry.ActiveOwner();
      if taken {
        return Err(EnrollConflict);
      }
      var kid := world.derive(pubkey);
      if kid.None? {
        return Err(BadKeyMaterial);
      }
      if kid.value in registry.records {
        return Err(EnrollConflict);
      }
      var rec := NewRecord(kid.value, "owner", ROLE_OWNER, pubkey, device, STATUS_APPROVED, now).(approvedAt := Int(now));
      registry.Upsert(rec);
      return Ok(Some(rec));
    }

    method RequestKey(req: EnrollRequest, now: int) returns (r: Outcome)
      requires Ready()
      modifies registry
      ensures Ready() && SavedIfChanged()
      ensures (registry.State(), r) == Apply(world, old(registry.State()), Request(req, now))
    {
      if !KnownRole(req.role) || req.role == ROLE_OWNER || req.principal == "" || req.principal == "owner" {
        return Err(BadRequest);
      }
      var kid := world.derive(req.pubkey);
      if kid.None? {
        return Err(BadKeyMaterial);
      }
      if kid.value in registry.records {
        return Err(EnrollConflict);
      }
      var problem := CheckClaims(world, req, kid.value);
      if problem.Some? {
        return Err(problem.value);
      }
      var squatting := HasActiveKey(registry.State(), req.principal);
      var rec := NewRecord(kid.value, req.principal, req.role, req.pubkey, req.deviceLabel, STATUS_PENDING, now)
        .(claimsExistingPrincipal := Bool(squatting));
      registry.Upsert(rec);
      return Ok(Some(rec));
    }

    method ApproveKey(actor: Actor, keyId: string, expectedRole: Option<string>, squatterOk: bool, now: int)
      returns (r: Outcome)
      requires Ready()
      modifies registry
      ensures Ready() && SavedIfChanged()
      ensures (registry.State(), r) ==
        Apply(world, old(registry.State()), Approve(actor, keyId, expectedRole, squatterOk, now))
    {
      if !IsActiveOwner(registry.State(), actor.keyId) {
        return Err(NotOwner);
      }
      if keyId !in registry.records {
        return Err(NotEnrolled);
      }
      var rec := registry.records[keyId];
      if expectedRole.Some? && rec.role != expectedRole.value {
        return Err(BadRequest);
      }
      if rec.status == STATUS_APPROVED {
        return Ok(Some(rec));
      }
      if rec.status == STATUS_REVOKED || (Truthy(rec.claimsExistingPrincipal) && !squatterOk) {
        return Err(EnrollConflict);
      }
      rec := registry.SetStatus(keyId, STATUS_APPROVED, Some(actor.keyId), now);
      return Ok(Some(rec));
    }

    method DenyKey(actor: Actor, keyId: string) returns (r: Outcome)
      requires Ready()
      modifies registry
      ensures Ready() && SavedIfChanged()
      ensures (registry.State(), r) == Apply(world, old(registry.State()), Deny(actor, keyId))
    {
      if !IsActiveOwner(registry.State(), actor.keyId) {
        return Err(NotOwner);
      }
      if keyId !in registry.records {
        return Err(NotEnrolled);
      }
      if registry.records[keyId].status != STATUS_PENDING {
        return Err(EnrollConflict);
      }
      registry.Remove(keyId);
      return Ok(None);
    }

    method RevokeKey(actor: Actor, keyId: string, now: int) returns (r: Outcome)
      requires Ready()
      modifies registry
      ensures Ready() && SavedIfChanged()
      ensures (registry.State(), r) == Apply(world, old(registry.State()), Revoke(actor, keyId, now))
    {
      if keyId !in registry.records {
        return Err(NotEnrolled);
      }
      if !MayManage(registry.State(), actor, keyId) {
        return Err(NotOwner);
      }
      var rec := registry.records[keyId];
      if rec.status == STATUS_REVOKED {
        return Ok(Some(rec));
      }
      rec := registry.SetStatus(keyId, STATUS_REVOKED, None, now);
      return Ok(Some(rec));
    }

    method RotateKey(actor: Actor, oldId: string, pubkey: string, now: int) returns (r: Outcome)
      requires Ready()
      modifies registry
      ensures Ready() && SavedIfChanged()
      ensures (registry.State(), r) == Apply(world, old(registry.State()), Rotate(actor, oldId, pubkey, now))
    {
      if oldId !in registry.records {
        return Err(NotEnrolled);
      }
      if !MayManage(registry.State(), actor, oldId) {
        return Err(NotOwner);
      }
      var previous := registry.records[oldId];
      if !previous.Active() {
        return Err(EnrollConflict);
      }
      var kid := world.derive(pubkey);
      if kid.None? {
        return Err(BadKeyMaterial);
      }
      if kid.value in registry.records {
        return Err(EnrollConflict);
      }
      if !previous.deviceLabel.Str? {
        return Err(BadLabel);
      }
      var rec := NewRecord(kid.value, previous.principal, previous.role, pubkey,
                           previous.deviceLabel.s + " (rotated)", STATUS_PENDING, now).(enrolledBy := Str(actor.keyId));
      registry.Upsert(rec);
      registry.LinkRotation(oldId, kid.value);
      return Ok(Some(registry.records[kid.value]));
    }

    method DelegateKey(actor: Actor, pubkey: string, device: string, principal: string, role: string, now: int)
      returns (r: Outcome)
      requires Ready()
      modifies registry
      ensures Ready() && SavedIfChanged()
      ensures (registry.State(), r) ==
        Apply(world, old(registry.State()), Delegate(actor, pubkey, device, principal, role, now))
    {
      if !world.chainOfTrust {
        return Err(DelegateDisabled);
      }
      if role == ROLE_OWNER || !KnownRole(role) || principal == "" || principal == "owner" {
        return Err(BadRequest);
      }
      if actor.keyId !in registry.records || !registry.records[actor.keyId].Active() {
        return Err(PrincipalMismatch);
      }
      var kid := world.derive(pubkey);
      if kid.None? {
        return Err(BadKeyMaterial);
      }
      if kid.value in registry.records {
        return Err(EnrollConflict);
      }
      var rec := NewRecord(kid.value, principal, role, pubkey, device, STATUS_APPROVED, now)
        .(approvedAt := Int(now), enrolledBy := Str(actor.keyId));
      registry.Upsert(rec);
      return Ok(Some(rec));
    }
  }
}
