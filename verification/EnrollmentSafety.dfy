/**
 What holds in every registry that a run of enrollment operations can reach, and along the way:
 roles, permanence of revocation, rotation links, and the chain of approvals behind every key.
 */
module EnrollmentSafety {
  import opened Bytes
  import opened Canonical
  import opened Registry
  import opened Enrollment

  // ----- The invariant -----

  // A key is approved at most once, and keeps the time of it even when it is revoked later.
  predicate EverApproved(s: Store, k: string) {
    k in s.records && s.records[k].approvedAt != Null
  }

  // Approved by a key that was itself approved and is still there, or bootstrapped as an owner.
  predicate Vouched(s: Store, r: KeyRecord) {
    match r.enrolledBy
    case Str(p) => EverApproved(s, p)
    case Null => r.role == ROLE_OWNER
    case _ => false
  }

  predicate RotationOk(s: Store, r: KeyRecord) {
    match r.rotatedFrom
    case Null => true
    case Str(o) =>
      EverApproved(s, o) && s.records[o].principal == r.principal && s.records[o].role == r.role
    case _ => false
  }

  // What one record promises by itself.
  predicate RecordOk(w: World, r: KeyRecord) {
    Validate(r, w.derive) == None &&
    (r.role == ROLE_OWNER <==> r.principal == "owner") &&
    (r.Active() ==> r.approvedAt != Null) &&
    (r.status == STATUS_PENDING ==> r.approvedAt == Null)
  }

  ghost predicate Sound(w: World, s: Store) {
    Consistent(s) &&
    forall k :: k in s.records ==>
      RecordOk(w, s.records[k]) && RotationOk(s, s.records[k]) &&
      (EverApproved(s, k) ==> Vouched(s, s.records[k]))
  }

  // Key ids are digests, never empty.
  ghost predicate Usable(w: World) {
    forall p :: w.derive(p) != Some("")
  }

  // ----- What an operation cannot undo -----

  // What every operation leaves as it was, of a record that it keeps.
  predicate Lasts(a: KeyRecord, b: KeyRecord) {
    a.keyId == b.keyId && a.principal == b.principal && a.role == b.role && a.pubkey == b.pubkey &&
    (a.status == STATUS_REVOKED ==> b.status == STATUS_REVOKED) &&
    (a.approvedAt != Null ==> b.approvedAt == a.approvedAt && b.enrolledBy == a.enrolledBy && b.status != STATUS_PENDING)
  }

  ghost predicate Preserves(s: Store, t: Store) {
    forall k :: k in s.records ==>
      if k in t.records then Lasts(s.records[k], t.records[k]) else s.records[k].status == STATUS_PENDING
  }

  /**
   Who may let a key in: nobody but the first owner without an active owner, an active owner
   approving, or, under the chain-of-trust policy and never for an owner key, an active key delegating.
   */
  predicate Justified(w: World, s: Store, op: Op, r: KeyRecord) {
    match op
    case Bootstrap(_, _, _) => !AnyActiveOwner(s) && r.role == ROLE_OWNER && r.enrolledBy == Null
    case Approve(actor, keyId, _, _, _) =>
      IsActiveOwner(s, actor.keyId) && r.keyId == keyId && r.enrolledBy == Str(actor.keyId)
    case Delegate(actor, _, _, _, _, _) =>
      w.chainOfTrust && actor.keyId in s.records && s.records[actor.keyId].Active() &&
      r.role != ROLE_OWNER && r.enrolledBy == Str(actor.keyId)
    case _ => false
  }

  // Every key that the step approved was let in by someone entitled to.
  ghost predicate ApprovalsJustified(w: World, s: Store, op: Op, t: Store) {
    forall k :: EverApproved(t, k) && !EverApproved(s, k) ==> Justified(w, s, op, t.records[k])
  }

  // ----- The two kinds of change -----

  // The approved keys of s are approved in t, under the same principal and role.
  ghost predicate ApprovedStays(s: Store, t: Store) {
    forall k :: EverApproved(s, k) ==>
      EverApproved(t, k) && t.records[k].principal == s.records[k].principal && t.records[k].role == s.records[k].role
  }

  lemma CarriesOver(s: Store, t: Store, r: KeyRecord)
    requires ApprovedStays(s, t)
    ensures RotationOk(s, r) ==> RotationOk(t, r)
    ensures Vouched(s, r) ==> Vouched(t, r)
  {
  }

  // A record that is new, or that replaces one with the same rotation source.
  lemma PutKeeps(w: World, s: Store, r: KeyRecord)
    requires Sound(w, s) && RecordOk(w, r)
    requires if r.keyId in s.records
      then r.rotatedFrom == s.records[r.keyId].rotatedFrom && Lasts(s.records[r.keyId], r)
      else r.rotatedFrom == Null
    requires r.approvedAt != Null ==> Vouched(s, r)
    ensures Sound(w, Put(s, r)) && Preserves(s, Put(s, r))
    ensures forall k :: EverApproved(Put(s, r), k) && !EverApproved(s, k) ==> k == r.keyId
  {
    hide RecordOk, RotationOk, Vouched;
    LastsUnchanged(w, s);
    var t := Put(s, r);
    assert ApprovedStays(s, t);
    CarriesOver(s, t, r);
    assert RotationOk(s, r) by {
      if r.keyId !in s.records {
        NotRotated(s, r);
      } else {
        SameRotation(s, s.records[r.keyId], r);
      }
    }
    forall k | k in t.records
      ensures RecordOk(w, t.records[k]) && RotationOk(t, t.records[k])
      ensures EverApproved(t, k) ==> Vouched(t, t.records[k])
    {
      if k != r.keyId {
        CarriesOver(s, t, s.records[k]);
      }
    }
  }

  lemma LastsUnchanged(w: World, s: Store)
    requires Sound(w, s)
    ensures forall k :: k in s.records ==> Lasts(s.records[k], s.records[k])
  {
    hide RotationOk, Vouched, Validate;
  }

  lemma NotRotated(s: Store, r: KeyRecord)
    requires r.rotatedFrom == Null
    ensures RotationOk(s, r)
  {
  }

  lemma SameRotation(s: Store, a: KeyRecord, b: KeyRecord)
    requires RotationOk(s, a) && Lasts(a, b) && a.rotatedFrom == b.rotatedFrom
    ensures RotationOk(s, b)
  {
  }

  // Removing a pending record.
  lemma DropKeeps(w: World, s: Store, k: string)
    requires Sound(w, s) && k in s.records && s.records[k].approvedAt == Null && s.records[k].status == STATUS_PENDING
    ensures Sound(w, Drop(s, k)) && Preserves(s, Drop(s, k))
    ensures forall j :: EverApproved(Drop(s, k), j) ==> EverApproved(s, j)
  {
    hide RecordOk, RotationOk, Vouched;
    LastsUnchanged(w, s);
    var t := Drop(s, k);
    assert ApprovedStays(s, t);
    forall j | j in t.records
      ensures RecordOk(w, t.records[j]) && RotationOk(t, t.records[j])
      ensures EverApproved(t, j) ==> Vouched(t, t.records[j])
    {
      CarriesOver(s, t, s.records[j]);
    }
  }

  lemma LinkedRecord(w: World, s: Store, oldId: string, newId: string, k: string)
    requires Sound(w, s) && oldId != newId && EverApproved(s, oldId) && newId in s.records && k in s.records
    requires s.records[oldId].principal == s.records[newId].principal
    requires s.records[oldId].role == s.records[newId].role
    ensures var r := Linked(s, oldId, newId).records[k];
      RecordOk(w, r) && RotationOk(s, r) && Lasts(s.records[k], r) && (EverApproved(s, k) ==> Vouched(s, r)) &&
      r.approvedAt == s.records[k].approvedAt
  {
    hide Validate;
    assert RecordOk(w, s.records[k]) && RotationOk(s, s.records[k]);
    SameKeyMaterial(s.records[k], Linked(s, oldId, newId).records[k], w.derive);
  }

  lemma SameKeyMaterial(a: KeyRecord, b: KeyRecord, derive: string -> Option<string>)
    requires a.keyId == b.keyId && a.principal == b.principal && a.role == b.role && a.pubkey == b.pubkey
    requires a.status == b.status
    ensures Validate(a, derive) == None ==> Validate(b, derive) == None
  {
  }

  lemma LinkKeeps(w: World, s: Store, oldId: string, newId: string)
    requires Sound(w, s) && oldId != newId && EverApproved(s, oldId) && newId in s.records
    requires s.records[oldId].principal == s.records[newId].principal
    requires s.records[oldId].role == s.records[newId].role
    ensures Sound(w, Linked(s, oldId, newId)) && Preserves(s, Linked(s, oldId, newId))
    ensures forall k :: EverApproved(Linked(s, oldId, newId), k) ==> EverApproved(s, k)
  {
    hide RecordOk, RotationOk, Vouched;
    var t := Linked(s, oldId, newId);
    assert t.records.Keys == s.records.Keys;
    forall k | k in s.records
      ensures Lasts(s.records[k], t.records[k]) && t.records[k].approvedAt == s.records[k].approvedAt
    {
      LinkedRecord(w, s, oldId, newId, k);
    }
    assert ApprovedStays(s, t);
    forall k | k in t.records
      ensures RecordOk(w, t.records[k]) && RotationOk(t, t.records[k])
      ensures EverApproved(t, k) ==> Vouched(t, t.records[k])
    {
      LinkedRecord(w, s, oldId, newId, k);
      CarriesOver(s, t, t.records[k]);
    }
  }

  // ----- One operation -----

  lemma NewRecordOk(w: World, r: KeyRecord)
    requires Usable(w) && w.derive(r.pubkey) == Some(r.keyId) && KnownRole(r.role) && r.principal != ""
    requires r.role == ROLE_OWNER <==> r.principal == "owner"
    requires if r.approvedAt != Null then r.status == STATUS_APPROVED else r.status == STATUS_PENDING
    ensures RecordOk(w, r)
  {
  }

  lemma ChangedStatusOk(w: World, a: KeyRecord, status: string, approver: Option<string>, now: int)
    requires RecordOk(w, a) && (status == STATUS_APPROVED || status == STATUS_REVOKED)
    requires status == STATUS_APPROVED ==> a.status == STATUS_PENDING
    ensures var b := WithStatus(a, status, approver, now);
      RecordOk(w, b) && Lasts(a, b) && b.rotatedFrom == a.rotatedFrom &&
      (status == STATUS_APPROVED ==> b.approvedAt != Null && (approver.Some? ==> b.enrolledBy == Str(approver.value))) &&
      (status == STATUS_REVOKED ==> b.approvedAt == a.approvedAt && b.enrolledBy == a.enrolledBy)
  {
  }

  lemma Unchanged(w: World, s: Store, op: Op)
    requires Sound(w, s)
    ensures Preserves(s, s) && ApprovalsJustified(w, s, op, s)
  {
    LastsUnchanged(w, s);
  }

  // What one operation leaves behind.
  ghost predicate StepOk(w: World, s: Store, op: Op) {
    var t := Apply(w, s, op).0;
    Sound(w, t) && Preserves(s, t) && ApprovalsJustified(w, s, op, t)
  }

  lemma EnrollingOk(w: World, s: Store, op: Op)
    requires Usable(w) && Sound(w, s) && (op.Bootstrap? || op.Request? || op.Delegate?)
    ensures StepOk(w, s, op)
  {
    hide Sound, Preserves, Validate, Vouched;
    var (t, out) := Apply(w, s, op);
    if t == s {
      Unchanged(w, s, op);
    } else {
      var r := out.value.value;
      NewRecordOk(w, r);
      NewVouched(w, s, op);
      PutKeeps(w, s, r);
    }
  }

  lemma NewVouched(w: World, s: Store, op: Op)
    requires Sound(w, s) && (op.Bootstrap? || op.Request? || op.Delegate?) && Apply(w, s, op).0 != s
    ensures var r := Apply(w, s, op).1.value.value; r.approvedAt != Null ==> Vouched(s, r)
  {
    hide Validate;
  }

  lemma ApproveOk(w: World, s: Store, op: Op)
    requires Usable(w) && Sound(w, s) && op.Approve?
    ensures StepOk(w, s, op)
  {
    hide Preserves, Validate, Vouched;
    var (t, out) := Apply(w, s, op);
    if t == s {
      Unchanged(w, s, op);
    } else {
      var a := s.records[op.keyId];
      OnlyPendingLeft(w, a);
      ChangedStatusOk(w, a, STATUS_APPROVED, Some(op.actor.keyId), op.now);
      VouchedBy(s, out.value.value, op.actor.keyId);
      PutKeeps(w, s, out.value.value);
    }
  }

  lemma OnlyPendingLeft(w: World, a: KeyRecord)
    requires RecordOk(w, a) && a.status != STATUS_APPROVED && a.status != STATUS_REVOKED
    ensures a.status == STATUS_PENDING
  {
  }

  lemma VouchedBy(s: Store, r: KeyRecord, p: string)
    requires r.enrolledBy == Str(p) && EverApproved(s, p)
    ensures Vouched(s, r)
  {
  }

  lemma RevokeOk(w: World, s: Store, op: Op)
    requires Usable(w) && Sound(w, s) && op.Revoke?
    ensures StepOk(w, s, op)
  {
    hide Preserves, Validate;
    var (t, out) := Apply(w, s, op);
    if t == s {
      Unchanged(w, s, op);
    } else {
      ChangedStatusOk(w, s.records[op.keyId], STATUS_REVOKED, None, op.now);
      PutKeeps(w, s, out.value.value);
    }
  }

  lemma DenyOk(w: World, s: Store, op: Op)
    requires Usable(w) && Sound(w, s) && op.Deny?
    ensures StepOk(w, s, op)
  {
    hide Preserves, Validate;
    if Apply(w, s, op).0 == s {
      Unchanged(w, s, op);
    } else {
      assert RecordOk(w, s.records[op.keyId]);
      DropKeeps(w, s, op.keyId);
    }
  }

  lemma RotateOk(w: World, s: Store, op: Op)
    requires Usable(w) && Sound(w, s) && op.Rotate?
    ensures StepOk(w, s, op)
  {
    hide Sound, Preserves, Validate, Linked;
    var (t, out) := Apply(w, s, op);
    if t == s {
      Unchanged(w, s, op);
    } else {
      RotateChanges(w, s, op);
    }
  }

  lemma RotateChanges(w: World, s: Store, op: Op)
    requires Usable(w) && Sound(w, s) && op.Rotate? && Apply(w, s, op).1.Ok?
    ensures StepOk(w, s, op)
  {
    hide Preserves, Linked, Validate;
    var previous, kid := s.records[op.keyId], w.derive(op.pubkey).value;
    var r := Apply(w, s, op).1.value.value.(rotatedFrom := Null);
    RolesFit(w, previous);
    NewRecordOk(w, r);
    PutKeeps(w, s, r);
    var u := Put(s, r);
    LinkKeeps(w, u, op.keyId, kid);
    LinkedKeys(u, op.keyId, kid);
    PreservesTransitive(s, u, Linked(u, op.keyId, kid));
  }

  lemma LinkedKeys(s: Store, oldId: string, newId: string)
    ensures Linked(s, oldId, newId).records.Keys == s.records.Keys
  {
  }

  lemma RolesFit(w: World, r: KeyRecord)
    requires RecordOk(w, r)
    ensures KnownRole(r.role) && r.principal != "" && (r.role == ROLE_OWNER <==> r.principal == "owner")
  {
  }

  lemma PreservesTransitive(s: Store, u: Store, t: Store)
    requires Preserves(s, u) && Preserves(u, t) && s.records.Keys <= u.records.Keys && u.records.Keys <= t.records.Keys
    ensures Preserves(s, t)
  {
  }

  // Every operation keeps the invariant, undoes nothing it must not, and lets no key in unjustified.
  lemma StepKeeps(w: World, s: Store, op: Op)
    requires Usable(w) && Sound(w, s)
    ensures StepOk(w, s, op)
  {
    hide *;
    match op
    case Bootstrap(_, _, _) => EnrollingOk(w, s, op);
    case Request(_, _) => EnrollingOk(w, s, op);
    case Delegate(_, _, _, _, _, _) => EnrollingOk(w, s, op);
    case Approve(_, _, _, _, _) => ApproveOk(w, s, op);
    case Revoke(_, _, _) => RevokeOk(w, s, op);
    case Deny(_, _) => DenyOk(w, s, op);
    case Rotate(_, _, _, _) => RotateOk(w, s, op);
  }

  // ----- Whole runs -----

  // A run of operations on a registry that starts empty; refused operations are steps too.
  datatype Run = Run(ops: seq<Op>, states: seq<Store>)

  ghost predicate IsRun(w: World, r: Run) {
    |r.states| == |r.ops| + 1 && r.states[0] == EMPTY &&
    forall i :: 0 <= i < |r.ops| ==> r.states[i + 1] == Apply(w, r.states[i], r.ops[i]).0
  }

  lemma {:induction false} RunExists(w: World, ops: seq<Op>) returns (r: Run)
    ensures IsRun(w, r) && r.ops == ops
  {
    hide Apply;
    if ops == [] {
      r := Run([], [EMPTY]);
    } else {
      var n := |ops| - 1;
      var q := RunExists(w, ops[..n]);
      r := Run(ops, q.states + [Apply(w, q.states[n], ops[n]).0]);
    }
  }

  lemma {:induction false} RunSound(w: World, r: Run, n: nat)
    requires Usable(w) && IsRun(w, r) && n <= |r.ops|
    ensures Sound(w, r.states[n])
  {
    hide Apply, Sound, Preserves, ApprovalsJustified, Usable;
    if n == 0 {
      EmptySound(w);
    } else {
      RunSound(w, r, n - 1);
      StepKeeps(w, r.states[n - 1], r.ops[n - 1]);
    }
  }

  lemma EmptySound(w: World)
    ensures Sound(w, EMPTY)
  {
  }

  // The file that holds any reachable registry loads back to exactly that registry.
  lemma ReachableReloads(w: World, r: Run, n: nat)
    requires Usable(w) && IsRun(w, r) && n <= |r.ops|
    ensures Consistent(r.states[n])
    ensures Load(Payload(r.states[n]), w.derive) == Ok(r.states[n])
  {
    hide Apply, Load, Payload, Validate;
    RunSound(w, r, n);
    assert forall k :: k in r.states[n].records ==> RecordOk(w, r.states[n].records[k]);
    SaveLoadRoundTrip(r.states[n], w.derive);
  }

  lemma LastsTransitive(a: KeyRecord, b: KeyRecord, c: KeyRecord)
    requires Lasts(a, b) && Lasts(b, c)
    ensures Lasts(a, c)
  {
  }

  // A key that has left the pending state stays for good, and a revoked key stays revoked.
  lemma {:induction false} SettledForever(w: World, r: Run, i: nat, j: nat, k: string)
    requires Usable(w) && IsRun(w, r) && i <= j <= |r.ops|
    requires k in r.states[i].records && r.states[i].records[k].status != STATUS_PENDING
    ensures k in r.states[j].records && Lasts(r.states[i].records[k], r.states[j].records[k])
    ensures r.states[j].records[k].status != STATUS_PENDING
    decreases j - i
  {
    hide Apply, Validate, ApprovalsJustified, Usable;
    RunSound(w, r, i);
    LastsUnchanged(w, r.states[i]);
    if i < j {
      SettledForever(w, r, i, j - 1, k);
      RunSound(w, r, j - 1);
      StepKeeps(w, r.states[j - 1], r.ops[j - 1]);
      LastsTransitive(r.states[i].records[k], r.states[j - 1].records[k], r.states[j].records[k]);
      Settled(w, r.states[j - 1].records[k], r.states[j].records[k]);
    }
  }

  lemma Settled(w: World, a: KeyRecord, b: KeyRecord)
    requires RecordOk(w, a) && Lasts(a, b) && a.status != STATUS_PENDING
    ensures b.status != STATUS_PENDING
  {
  }

  /**
   Provenance. Every key that was ever approved was let in by one step of the run: bootstrapped when
   no owner was active, or by a key that was active at that moment and that the record still names.
   */
  lemma {:induction false} Provenance(w: World, r: Run, n: nat, k: string) returns (i: nat)
    requires Usable(w) && IsRun(w, r) && n <= |r.ops| && EverApproved(r.states[n], k)
    ensures i < n && !EverApproved(r.states[i], k) && EverApproved(r.states[i + 1], k)
    ensures Justified(w, r.states[i], r.ops[i], r.states[n].records[k])
  {
    hide Apply, Validate, Usable, Vouched, RotationOk;
    i := n - 1;
    RunSound(w, r, i);
    StepKeeps(w, r.states[i], r.ops[i]);
    if EverApproved(r.states[i], k) {
      i := Provenance(w, r, n - 1, k);
    }
  }

  // Following `enrolled_by` at most n times leads to a bootstrapped owner.
  ghost predicate ReachesOwner(s: Store, k: string, n: nat)
    decreases n
  {
    EverApproved(s, k) &&
    match s.records[k].enrolledBy
    case Null => s.records[k].role == ROLE_OWNER && s.records[k].principal == "owner"
    case Str(p) => n > 0 && ReachesOwner(s, p, n - 1)
    case _ => false
  }

  lemma {:induction false} ChainPersists(s: Store, t: Store, k: string, n: nat)
    requires Preserves(s, t) && ReachesOwner(s, k, n)
    requires forall j :: EverApproved(s, j) ==> s.records[j].status != STATUS_PENDING
    ensures ReachesOwner(t, k, n)
    decreases n
  {
    if s.records[k].enrolledBy.Str? {
      ChainPersists(s, t, s.records[k].enrolledBy.s, n - 1);
    }
  }

  lemma {:induction false} ChainGrows(s: Store, k: string, n: nat)
    requires ReachesOwner(s, k, n)
    ensures ReachesOwner(s, k, n + 1)
    decreases n
  {
    if s.records[k].enrolledBy.Str? {
      ChainGrows(s, s.records[k].enrolledBy.s, n - 1);
    }
  }

  // In every reachable registry the chain of approvals behind a key has no cycle and ends at an owner.
  lemma {:induction false} ChainEndsAtOwner(w: World, r: Run, n: nat, k: string)
    requires Usable(w) && IsRun(w, r) && n <= |r.ops| && EverApproved(r.states[n], k)
    ensures ReachesOwner(r.states[n], k, n)
  {
    hide Apply, Validate, Usable, RotationOk, ApprovalsJustified;
    var s, t := r.states[n - 1], r.states[n];
    RunSound(w, r, n - 1);
    RunSound(w, r, n);
    StepKeeps(w, s, r.ops[n - 1]);
    NeverPending(w, s);
    if EverApproved(s, k) {
      ChainEndsAtOwner(w, r, n - 1, k);
      ChainGrows(s, k, n - 1);
      ChainPersists(s, t, k, n);
    } else if t.records[k].enrolledBy.Str? {
      var p := t.records[k].enrolledBy.s;
      NewlyApproved(w, s, r.ops[n - 1], k);
      ChainEndsAtOwner(w, r, n - 1, p);
      ChainPersists(s, t, p, n - 1);
    } else {
      RolesFit(w, t.records[k]);
    }
  }

  lemma NeverPending(w: World, s: Store)
    requires Sound(w, s)
    ensures forall j :: EverApproved(s, j) ==> s.records[j].status != STATUS_PENDING
  {
    assert forall j :: j in s.records ==> RecordOk(w, s.records[j]);
  }

  lemma NewlyApproved(w: World, s: Store, op: Op, k: string)
    requires Sound(w, s) && StepOk(w, s, op)
    requires var t := Apply(w, s, op).0; EverApproved(t, k) && !EverApproved(s, k) && t.records[k].enrolledBy.Str?
    ensures EverApproved(s, Apply(w, s, op).0.records[k].enrolledBy.s)
  {
    hide Apply, Validate;
    var p := Apply(w, s, op).0.records[k].enrolledBy.s;
    assert Justified(w, s, op, Apply(w, s, op).0.records[k]);
    assert p in s.records && RecordOk(w, s.records[p]);
  }
}
