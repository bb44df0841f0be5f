/**
 The key registry (cockpit/identity/registry.py): key records in the order of their insertion, and
 the file they are saved to after every change.
 */
module Registry {
  import opened Bytes
  import opened Canonical
  import opened Envelope

  const ROLE_OWNER := "owner"
  const ROLE_MEMBER := "member"
  const ROLE_GUEST := "guest"

  const STATUS_PENDING := "pending"
  const STATUS_APPROVED := "approved"
  const STATUS_REVOKED := "revoked"

  const REGISTRY_SCHEMA := "brainarbeit-identity-registry/1"

  predicate KnownRole(role: string) {
    role == ROLE_OWNER || role == ROLE_MEMBER || role == ROLE_GUEST
  }

  predicate KnownStatus(status: string) {
    status == STATUS_PENDING || status == STATUS_APPROVED || status == STATUS_REVOKED
  }

  // The fields that a loaded record is not checked for can hold anything; `Null` stands for None.
  datatype KeyRecord = KeyRecord(
    keyId: string, principal: string, role: string, pubkey: string, deviceLabel: Json, status: string,
    enrolledAt: Json, approvedAt: Json, revokedAt: Json, enrolledBy: Json,
    rotatedFrom: Json, rotatedTo: Json, claimsExistingPrincipal: Json)
  {
    predicate Active() {
      status == STATUS_APPROVED
    }
  }

  // The dict `_records` with its iteration order.
  datatype Store = Store(order: seq<string>, records: map<string, KeyRecord>)

  const EMPTY := Store([], map[])

  ghost predicate Consistent(s: Store) {
    (forall i, j :: 0 <= i < j < |s.order| ==> s.order[i] != s.order[j]) &&
    (forall k :: k in s.order <==> k in s.records) &&
    forall k :: k in s.records ==> s.records[k].keyId == k
  }

  function Put(s: Store, rec: KeyRecord): (r: Store)
    ensures Consistent(s) ==> Consistent(r)
  {
    Store(if rec.keyId in s.records then s.order else s.order + [rec.keyId], s.records[rec.keyId := rec])
  }

  function Without(order: seq<string>, k: string): (r: seq<string>)
    ensures forall x :: x in r <==> x in order && x != k
    ensures (forall i, j :: 0 <= i < j < |order| ==> order[i] != order[j]) ==>
      forall i, j :: 0 <= i < j < |r| ==> r[i] != r[j]
  {
    if order == [] then []
    else if order[0] == k then Without(order[1..], k)
    else
      var rest := Without(order[1..], k);
      assert (forall i, j :: 0 <= i < j < |order| ==> order[i] != order[j]) ==> order[0] !in rest;
      [order[0]] + rest
  }

  function Drop(s: Store, k: string): (r: Store)
    ensures Consistent(s) ==> Consistent(r)
  {
    Store(Without(s.order, k), s.records - {k})
  }

  function Records(s: Store): seq<KeyRecord>
    requires forall k :: k in s.order ==> k in s.records
  {
    seq(|s.order|, i requires 0 <= i < |s.order| => s.records[s.order[i]])
  }

  predicate AnyActiveOwner(s: Store) {
    exists k :: k in s.records && s.records[k].role == ROLE_OWNER && s.records[k].Active()
  }

  predicate HasActiveKey(s: Store, principal: string) {
    exists k :: k in s.records && s.records[k].principal == principal && s.records[k].Active()
  }

  // ----- The saved file -----

  // `asdict`
  function ToJson(r: KeyRecord): Json {
    Obj([Member("key_id", Str(r.keyId)), Member("principal", Str(r.principal)), Member("role", Str(r.role)),
         Member("pubkey", Str(r.pubkey)), Member("device_label", r.deviceLabel),
         Member("status", Str(r.status)), Member("enrolled_at", r.enrolledAt),
         Member("approved_at", r.approvedAt), Member("revoked_at", r.revokedAt),
         Member("enrolled_by", r.enrolledBy), Member("rotated_from", r.rotatedFrom),
         Member("rotated_to", r.rotatedTo),
         Member("claims_existing_principal", r.claimsExistingPrincipal)])
  }

  const KNOWN_FIELDS: set<string> := {
    "key_id", "principal", "role", "pubkey", "device_label", "status", "enrolled_at", "approved_at",
    "revoked_at", "enrolled_by", "rotated_from", "rotated_to", "claims_existing_principal"}

  function Payload(s: Store): Json
    requires forall k :: k in s.order ==> k in s.records
  {
    var rs := Records(s);
    Obj([Member("schema", Str(REGISTRY_SCHEMA)),
         Member("keys", Arr(seq(|rs|, i requires 0 <= i < |rs| => ToJson(rs[i]))))])
  }

  datatype LoadError =
    | WrongSchema | NotAnObject | UnknownField | Malformed | UnknownRole | UnknownStatus
    | EmptyPrincipal | EmptyKeyId | BadPubkey | KeyIdMismatch | DuplicateKeyId

  // A field that has a default.
  function OrElse(f: Option<Json>, default: Json): Json {
    if f.Some? then f.value else default
  }

  // `KeyRecord(**r)` after the check for unknown fields. The texts that `_validate_record` asks for
  // are taken here, so that a record without one of them is refused either way.
  function FromJson(v: Json): Result<KeyRecord, LoadError> {
    if !v.Obj? then Err(NotAnObject)
    else if exists i :: 0 <= i < |v.members| && v.members[i].key !in KNOWN_FIELDS then Err(UnknownField)
    else if Field(v, "device_label").None? || Field(v, "enrolled_at").None? then Err(Malformed)
    else
      match (Text(Field(v, "key_id")), Text(Field(v, "principal")), Text(Field(v, "role")), Text(Field(v, "pubkey")), Text(Field(v, "status")))
      case (Some(keyId), Some(principal), Some(role), Some(pubkey), Some(status)) =>
        Ok(KeyRecord(keyId, principal, role, pubkey, Field(v, "device_label").value, status,
                     Field(v, "enrolled_at").value, OrElse(Field(v, "approved_at"), Null),
                     OrElse(Field(v, "revoked_at"), Null), OrElse(Field(v, "enrolled_by"), Null),
                     OrElse(Field(v, "rotated_from"), Null), OrElse(Field(v, "rotated_to"), Null),
                     OrElse(Field(v, "claims_existing_principal"), Bool(false))))
      case _ => Err(Malformed)
  }

  /**
   `_validate_record`. `derive` stands for decoding a public key and hashing it to its key id; None
   is key material that does not decode.
   */
  function Validate(r: KeyRecord, derive: string -> Option<string>): Option<LoadError> {
    if !KnownRole(r.role) then Some(UnknownRole)
    else if !KnownStatus(r.status) then Some(UnknownStatus)
    else if r.principal == "" then Some(EmptyPrincipal)
    else if r.keyId == "" then Some(EmptyKeyId)
    else
      match derive(r.pubkey)
      case None => Some(BadPubkey)
      case Some(k) => if k != r.keyId then Some(KeyIdMismatch) else None
  }

  // The loop of `_load` from record i on.
  function LoadRecords(items: seq<Json>, derive: string -> Option<string>, s: Store): Result<Store, LoadError> {
    if items == [] then Ok(s)
    else
      match FromJson(items[0])
      case Err(e) => Err(e)
      case Ok(r) =>
        match Validate(r, derive)
        case Some(e) => Err(e)
        case None =>
          if r.keyId in s.records then Err(DuplicateKeyId)
          else LoadRecords(items[1..], derive, Put(s, r))
  }

  // What iterating over a value yields: the keys of a dict and the characters of a text are no
  // records, and other values cannot be iterated over.
  function Iterated(v: Json): Result<seq<Json>, LoadError> {
    match v
    case Arr(items) => Ok(items)
    case Obj(members) => if members == [] then Ok([]) else Err(NotAnObject)
    case Str(s) => if s == "" then Ok([]) else Err(NotAnObject)
    case _ => Err(NotAnObject)
  }

  // `_load`
  function Load(payload: Json, derive: string -> Option<string>): Result<Store, LoadError> {
    if Field(payload, "schema") != Some(Str(REGISTRY_SCHEMA)) then Err(WrongSchema)
    else
      match Field(payload, "keys")
      case None => Ok(EMPTY)
      case Some(keys) =>
        match Iterated(keys)
        case Err(e) => Err(e)
        case Ok(items) => LoadRecords(items, derive, EMPTY)
  }

  // ----- Saving and loading fit -----

  lemma {:induction false} FindAt(ms: seq<Member>, i: nat, name: string)
    requires i < |ms| && ms[i].key == name
    requires forall j :: 0 <= j < i ==> ms[j].key != name
    ensures Find(ms, name) == Some(ms[i].value)
  {
    if i > 0 {
      assert ms[0].key != name;
      FindAt(ms[1..], i - 1, name);
    }
  }

  // The place of a field in a saved record.
  function PlaceOf(name: string): nat {
    if name == "key_id" then 0
    else if name == "principal" then 1
    else if name == "role" then 2
    else if name == "pubkey" then 3
    else if name == "device_label" then 4
    else if name == "status" then 5
    else if name == "enrolled_at" then 6
    else if name == "approved_at" then 7
    else if name == "revoked_at" then 8
    else if name == "enrolled_by" then 9
    else if name == "rotated_from" then 10
    else if name == "rotated_to" then 11
    else if name == "claims_existing_principal" then 12
    else 13
  }

  lemma PlacesApart(r: KeyRecord, i: nat)
    requires i < 13
    ensures |ToJson(r).members| == 13 && PlaceOf(ToJson(r).members[i].key) == i
    ensures ToJson(r).members[i].key in KNOWN_FIELDS
  {
  }

  // What is looked up in a saved record is what `ToJson` wrote there.
  lemma SavedAt(r: KeyRecord, i: nat)
    requires i < |ToJson(r).members|
    ensures Field(ToJson(r), ToJson(r).members[i].key) == Some(ToJson(r).members[i].value)
  {
    var ms := ToJson(r).members;
    PlacesApart(r, 0);
    hide ToJson, PlaceOf;
    PlacesApart(r, i);
    forall j | 0 <= j < i ensures ms[j].key != ms[i].key {
      PlacesApart(r, j);
    }
    FindAt(ms, i, ms[i].key);
  }

  lemma SavedTexts(r: KeyRecord)
    ensures var v := ToJson(r);
      Field(v, "key_id") == Some(Str(r.keyId)) && Field(v, "principal") == Some(Str(r.principal)) &&
      Field(v, "role") == Some(Str(r.role)) && Field(v, "pubkey") == Some(Str(r.pubkey)) &&
      Field(v, "device_label") == Some(r.deviceLabel) && Field(v, "status") == Some(Str(r.status))
  {
    hide Field;
    SavedAt(r, 0);
    SavedAt(r, 1);
    SavedAt(r, 2);
    SavedAt(r, 3);
    SavedAt(r, 4);
    SavedAt(r, 5);
  }

  lemma SavedTimes(r: KeyRecord)
    ensures var v := ToJson(r);
      Field(v, "enrolled_at") == Some(r.enrolledAt) &&
      Field(v, "approved_at") == Some(r.approvedAt) &&
      Field(v, "revoked_at") == Some(r.revokedAt)
  {
    hide Field;
    SavedAt(r, 6);
    SavedAt(r, 7);
    SavedAt(r, 8);
  }

  lemma SavedLinks(r: KeyRecord)
    ensures var v := ToJson(r);
      Field(v, "enrolled_by") == Some(r.enrolledBy) &&
      Field(v, "rotated_from") == Some(r.rotatedFrom) &&
      Field(v, "rotated_to") == Some(r.rotatedTo) &&
      Field(v, "claims_existing_principal") == Some(r.claimsExistingPrincipal)
  {
    hide Field;
    SavedAt(r, 9);
    SavedAt(r, 10);
    SavedAt(r, 11);
    SavedAt(r, 12);
  }

  lemma OnlyKnownFields(r: KeyRecord)
    ensures ToJson(r).Obj?
    ensures !exists i :: 0 <= i < |ToJson(r).members| && ToJson(r).members[i].key !in KNOWN_FIELDS
  {
    PlacesApart(r, 0);
    forall i | 0 <= i < |ToJson(r).members| ensures ToJson(r).members[i].key in KNOWN_FIELDS {
      PlacesApart(r, i);
    }
  }

  lemma RecordRoundTrip(r: KeyRecord)
    ensures FromJson(ToJson(r)) == Ok(r)
  {
    hide ToJson, Field;
    SavedTexts(r);
    SavedTimes(r);
    SavedLinks(r);
    OnlyKnownFields(r);
  }

  ghost predicate AllValid(s: Store, derive: string -> Option<string>) {
    forall k :: k in s.records ==> Validate(s.records[k], derive) == None
  }

  // The first n records.
  function Prefix(s: Store, n: nat): Store
    requires Consistent(s) && n <= |s.order|
  {
    Store(s.order[..n], map k | k in s.order[..n] :: s.records[k])
  }

  lemma NotBefore(s: Store, n: nat)
    requires Consistent(s) && n < |s.order|
    ensures s.order[n] !in s.order[..n] && s.order[n] in s.records && s.records[s.order[n]].keyId == s.order[n]
  {
  }

  lemma PrefixGrows(s: Store, n: nat)
    requires Consistent(s) && n < |s.order|
    ensures var r := s.records[s.order[n]];
      r.keyId !in Prefix(s, n).records && Put(Prefix(s, n), r) == Prefix(s, n + 1)
  {
    NotBefore(s, n);
    hide Consistent;
    var front, k := s.order[..n], s.order[n];
    assert s.order[..n + 1] == front + [k];
    assert Put(Prefix(s, n), s.records[k]).records == Prefix(s, n + 1).records;
  }

  lemma {:induction false} LoadFromRecord(s: Store, derive: string -> Option<string>, items: seq<Json>, n: nat)
    requires Consistent(s) && AllValid(s, derive) && n <= |s.order| == |items|
    requires forall i :: 0 <= i < |items| ==> items[i] == ToJson(s.records[s.order[i]])
    ensures LoadRecords(items[n..], derive, Prefix(s, n)) == Ok(s)
    decreases |items| - n
  {
    hide FromJson, ToJson, Validate;
    if n == |items| {
      assert s.order[..n] == s.order;
      assert Prefix(s, n).records == s.records;
    } else {
      var r := s.records[s.order[n]];
      RecordRoundTrip(r);
      PrefixGrows(s, n);
      assert items[n..][1..] == items[n + 1..];
      LoadFromRecord(s, derive, items, n + 1);
    }
  }

  // What is saved is accepted by the next load and restores the registry, order included.
  lemma SaveLoadRoundTrip(s: Store, derive: string -> Option<string>)
    requires Consistent(s) && AllValid(s, derive)
    ensures Load(Payload(s), derive) == Ok(s)
  {
    var items := Payload(s).members[1].value.items;
    FindAt(Payload(s).members, 0, "schema");
    FindAt(Payload(s).members, 1, "keys");
    LoadFromRecord(s, derive, items, 0);
    assert Prefix(s, 0) == EMPTY;
    assert items[0..] == items;
  }

  lemma {:induction false} LoadedRecords(items: seq<Json>, derive: string -> Option<string>, s: Store)
    requires Consistent(s) && AllValid(s, derive) && LoadRecords(items, derive, s).Ok?
    ensures var r := LoadRecords(items, derive, s).value;
      Consistent(r) && AllValid(r, derive) && |r.order| == |s.order| + |items|
  {
    if items != [] {
      var r := FromJson(items[0]).value;
      LoadedRecords(items[1..], derive, Put(s, r));
    }
  }

  // Whatever file is read, a load that succeeds leaves only valid records under their own key ids.
  lemma LoadedIsValid(payload: Json, derive: string -> Option<string>)
    requires Load(payload, derive).Ok?
    ensures Consistent(Load(payload, derive).value) && AllValid(Load(payload, derive).value, derive)
  {
    match Field(payload, "keys")
    case Some(Arr(items)) => LoadedRecords(items, derive, EMPTY);
    case _ =>
  }

  /** The registry object. A store without a path is never saved: `disk` is None. */
  class KeyRegistry {
    const derive: string -> Option<string>
    const persistent: bool
    var order: seq<string>
    var records: map<string, KeyRecord>
    var disk: Option<Json>

    function State(): Store
      reads this
    {
      Store(order, records)
    }

    // The file, once written, is the current state.
    ghost predicate Saved()
      reads this
    {
      Consistent(State()) && disk == (if persistent then Some(Payload(State())) else None)
    }

    constructor (derive: string -> Option<string>, persistent: bool)
      ensures State() == EMPTY && this.derive == derive && this.persistent == persistent && disk == None
    {
      this.derive, this.persistent := derive, persistent;
      order, records, disk := [], map[], None;
    }

    // `_load` of a file with this content.
    method LoadFile(payload: Json) returns (failure: Option<LoadError>)
      modifies this
      ensures disk == old(disk)
      ensures match Load(payload, derive)
        case Ok(s) => failure == None && State() == s
        case Err(e) => failure == Some(e) && State() == old(State())
    {
      if Field(payload, "schema") != Some(Str(REGISTRY_SCHEMA)) {
        return Some(WrongSchema);
      }
      var keys := Field(payload, "keys");
      var items := [];
      if keys.Some? {
        var records := Iterated(keys.value);
        if records.Err? {
          return Some(records.error);
        }
        items := records.value;
      }
      var recs := EMPTY;
      for i := 0 to |items|
        invariant State() == old(State()) && disk == old(disk)
        invariant LoadRecords(items[i..], derive, recs) == LoadRecords(items, derive, EMPTY)
      {
        assert items[i..][1..] == items[i + 1..];
        var rec := FromJson(items[i]);
        if rec.Err? {
          return Some(rec.error);
        }
        var problem := Validate(rec.value, derive);
        if problem.Some? {
          return problem;
        }
        if rec.value.keyId in recs.records {
          return Some(DuplicateKeyId);
        }
        recs := Put(recs, rec.value);
      }
      order, records := recs.order, recs.records;
      return None;
    }

    // `_save_locked`
    method Save()
      requires Consistent(State()) && (!persistent ==> disk == None)
      modifies this`disk
      ensures Saved()
    {
      if persistent {
        disk := Some(Payload(State()));
      }
    }

    method Upsert(rec: KeyRecord)
      requires Consistent(State()) && (!persistent ==> disk == None)
      modifies this
      ensures State() == Put(old(State()), rec) && Saved()
    {
      if rec.keyId !in records {
        order := order + [rec.keyId];
      }
      records := records[rec.keyId := rec];
      Save();
    }

    method SetStatus(keyId: string, status: string, approver: Option<string>, now: int) returns (rec: KeyRecord)
      requires Consistent(State()) && (!persistent ==> disk == None) && keyId in records && KnownStatus(status)
      modifies this
      ensures rec == WithStatus(old(records)[keyId], status, approver, now)
      ensures State() == Put(old(State()), rec) && Saved()
    {
      rec := records[keyId].(status := status);
      if status == STATUS_APPROVED {
        rec := rec.(approvedAt := Int(now));
        if approver.Some? {
          rec := rec.(enrolledBy := Str(approver.value));
        }
      } else if status == STATUS_REVOKED {
        rec := rec.(revokedAt := Int(now));
      }
      records := records[keyId := rec];
      Save();
    }

    method LinkRotation(oldId: string, newId: string)
      requires Consistent(State()) && (!persistent ==> disk == None)
      modifies this
      ensures State() == Linked(old(State()), oldId, newId) && Saved()
    {
      if oldId in records {
        records := records[oldId := records[oldId].(rotatedTo := Str(newId))];
      }
      if newId in records {
        records := records[newId := records[newId].(rotatedFrom := Str(oldId))];
      }
      Save();
    }

    method Remove(keyId: string)
      requires Consistent(State()) && (!persistent ==> disk == None)
      modifies this
      ensures State() == Drop(old(State()), keyId) && Saved()
    {
      order, records := Without(order, keyId), records - {keyId};
      Save();
    }

    method ActiveOwner() returns (found: bool)
      requires Consistent(State())
      ensures found == AnyActiveOwner(State())
    {
      for i := 0 to |order|
        invariant forall j :: 0 <= j < i ==> !(records[order[j]].role == ROLE_OWNER && records[order[j]].Active())
      {
        var rec := records[order[i]];
        if rec.role == ROLE_OWNER && rec.Active() {
          return true;
        }
      }
      return false;
    }
  }

  // `set_status`
  function WithStatus(rec: KeyRecord, status: string, approver: Option<string>, now: int): KeyRecord {
    var r := rec.(status := status);
    if status == STATUS_APPROVED then
      r.(approvedAt := Int(now), enrolledBy := if approver.Some? then Str(approver.value) else rec.enrolledBy)
    else if status == STATUS_REVOKED then r.(revokedAt := Int(now))
    else r
  }

  // `link_rotation`
  function Linked(s: Store, oldId: string, newId: string): (r: Store)
    ensures Consistent(s) ==> Consistent(r)
  {
    var rs := if oldId in s.records then s.records[oldId := s.records[oldId].(rotatedTo := Str(newId))] else s.records;
    s.(records := if newId in rs then rs[newId := rs[newId].(rotatedFrom := Str(oldId))] else rs)
  }
}
