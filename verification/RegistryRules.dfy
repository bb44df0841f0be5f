/**
 Which files the key registry takes, and what it makes of them, over the fields of the file
 (cockpit/identity/registry.py).
 */
module RegistryRules {
  import opened Bytes
  import opened Canonical
  import opened Envelope
  import opened Registry

  // What a lookup finds is what the dict holds under that name.
  lemma {:induction false} FieldMeans(ms: seq<Member>, name: string)
    requires MembersWellFormed(ms)
    ensures Field(Obj(ms), name).Some? <==> name in MemberMeanings(ms)
    ensures name in MemberMeanings(ms) ==> Meaning(Field(Obj(ms), name).value) == MemberMeanings(ms)[name]
  {
    if ms != [] {
      FieldMeans(ms[1..], name);
    }
  }

  // An optional field holds the value, or stands for its default.
  predicate Holds(v: Json, name: string, value: Json, default: Json) {
    Field(v, name) == Some(value) || (Field(v, name) == None && value == default)
  }

  ghost predicate Describes(v: Json, r: KeyRecord) {
    v.Obj?
    && (forall i :: 0 <= i < |v.members| ==> v.members[i].key in {
          "key_id", "principal", "role", "pubkey", "device_label", "status", "enrolled_at", "approved_at", "revoked_at",
          "enrolled_by", "rotated_from", "rotated_to", "claims_existing_principal"})
    && Field(v, "key_id") == Some(Str(r.keyId)) && Field(v, "principal") == Some(Str(r.principal))
    && Field(v, "role") == Some(Str(r.role)) && Field(v, "pubkey") == Some(Str(r.pubkey))
    && Field(v, "status") == Some(Str(r.status))
    && Field(v, "device_label") == Some(r.deviceLabel) && Field(v, "enrolled_at") == Some(r.enrolledAt)
    && Holds(v, "approved_at", r.approvedAt, Null) && Holds(v, "revoked_at", r.revokedAt, Null)
    && Holds(v, "enrolled_by", r.enrolledBy, Null) && Holds(v, "rotated_from", r.rotatedFrom, Null)
    && Holds(v, "rotated_to", r.rotatedTo, Null)
    && Holds(v, "claims_existing_principal", r.claimsExistingPrincipal, Bool(false))
  }

  lemma DescribesExactly(v: Json, r: KeyRecord)
    ensures FromJson(v) == Ok(r) <==> Describes(v, r)
  {
    hide Field;
  }

  lemma ValidExactly(r: KeyRecord, derive: string -> Option<string>)
    ensures Validate(r, derive) == None <==>
      r.role in {"owner", "member", "guest"} && r.status in {"pending", "approved", "revoked"}
      && r.principal != "" && r.keyId != "" && derive(r.pubkey) == Some(r.keyId)
  {
  }

  ghost predicate Sound(v: Json, r: KeyRecord, derive: string -> Option<string>) {
    Describes(v, r)
    && r.role in {"owner", "member", "guest"} && r.status in {"pending", "approved", "revoked"}
    && r.principal != "" && r.keyId != "" && derive(r.pubkey) == Some(r.keyId)
  }

  ghost predicate Kept(before: map<string, KeyRecord>, after: map<string, KeyRecord>) {
    forall k :: k in before ==> k in after && after[k] == before[k]
  }

  lemma KeptOneMore(before: map<string, KeyRecord>, k: string, rec: KeyRecord, after: map<string, KeyRecord>)
    requires k !in before
    ensures Kept(before[k := rec], after) <==> Kept(before, after) && k in after && after[k] == rec
  {
    assert Kept(before[k := rec], after) ==> k in before[k := rec];
    assert forall j :: j in before ==> before[k := rec][j] == before[j];
  }

  // r holds s, and behind it one sound record for each item.
  ghost predicate Appends(items: seq<Json>, derive: string -> Option<string>, s: Store, r: Store) {
    Consistent(r) && |r.order| == |s.order| + |items| && s.order <= r.order
    && Kept(s.records, r.records)
    && forall j :: |s.order| <= j < |r.order| ==> Sound(items[j - |s.order|], r.records[r.order[j]], derive)
  }

  lemma {:induction false} LoadedExactly(items: seq<Json>, derive: string -> Option<string>, s: Store, r: Store)
    requires Consistent(s)
    ensures LoadRecords(items, derive, s) == Ok(r) <==> Appends(items, derive, s, r)
    decreases |items|
  {
    hide Describes, Validate, FromJson;
    if items == [] {
      if Appends(items, derive, s, r) {
        assert r.order == s.order && r.records.Keys == s.records.Keys;
        assert r.records == s.records;
      }
    } else {
      if LoadRecords(items, derive, s) == Ok(r) {
        var first := FromJson(items[0]).value;
        DescribesExactly(items[0], first);
        ValidExactly(first, derive);
        LoadedExactly(items[1..], derive, Put(s, first), r);
        PutBack(items, derive, s, first, r);
      }
      if Appends(items, derive, s, r) {
        var first := r.records[r.order[|s.order|]];
        DescribesExactly(items[0], first);
        ValidExactly(first, derive);
        PutFront(items, derive, s, first, r);
        LoadedExactly(items[1..], derive, Put(s, first), r);
      }
    }
  }

  lemma PutBack(items: seq<Json>, derive: string -> Option<string>, s: Store, first: KeyRecord, r: Store)
    requires Consistent(s) && items != [] && Sound(items[0], first, derive) && first.keyId !in s.records
    requires Appends(items[1..], derive, Put(s, first), r)
    ensures Appends(items, derive, s, r)
  {
    hide Sound, Put, Kept, Consistent;
    PutIs(s, first);
    OrderHeld(r);
    KeptOneMore(s.records, first.keyId, first, r.records);
    PrefixOneMore(s.order, first.keyId, r.order);
    RestSound(items, derive, s.order, first, r);
  }

  lemma OrderHeld(r: Store)
    requires Consistent(r)
    ensures forall j :: 0 <= j < |r.order| ==> r.order[j] in r.records
  {
  }

  lemma RestSound(items: seq<Json>, derive: string -> Option<string>, before: seq<string>, first: KeyRecord, r: Store)
    requires items != [] && |before| < |r.order| && |r.order| == |before| + |items|
    requires forall j :: 0 <= j < |r.order| ==> r.order[j] in r.records
    requires r.order[|before|] == first.keyId && r.records[first.keyId] == first && Sound(items[0], first, derive)
    requires forall j :: |before| + 1 <= j < |r.order| ==> Sound(items[1..][j - |before| - 1], r.records[r.order[j]], derive)
    ensures forall j :: |before| <= j < |r.order| ==> Sound(items[j - |before|], r.records[r.order[j]], derive)
  {
    hide Sound;
    forall j | |before| < j < |r.order|
      ensures Sound(items[j - |before|], r.records[r.order[j]], derive)
    {
      assert items[j - |before|] == items[1..][j - |before| - 1];
    }
  }

  lemma PrefixOneMore(a: seq<string>, k: string, b: seq<string>)
    requires a + [k] <= b
    ensures a <= b && b[|a|] == k
  {
    assert b[|a|] == (a + [k])[|a|];
  }

  lemma PutIs(s: Store, rec: KeyRecord)
    requires Consistent(s) && rec.keyId !in s.records
    ensures Put(s, rec).order == s.order + [rec.keyId] && Put(s, rec).records == s.records[rec.keyId := rec]
  {
  }

  lemma PutFront(items: seq<Json>, derive: string -> Option<string>, s: Store, first: KeyRecord, r: Store)
    requires Consistent(s) && items != [] && Appends(items, derive, s, r) && first == r.records[r.order[|s.order|]]
    ensures first.keyId !in s.records && Appends(items[1..], derive, Put(s, first), r)
  {
    hide Sound;
    assert first.keyId == r.order[|s.order|];
    assert first.keyId !in s.order;
    KeptOneMore(s.records, first.keyId, first, r.records);
    PutIs(s, first);
    hide Kept;
    forall j | |s.order| < j < |r.order|
      ensures Sound(items[1..][j - |s.order| - 1], r.records[r.order[j]], derive)
    {
      assert items[1..][j - |s.order| - 1] == items[j - |s.order|];
    }
  }

  // The list of records in a file; no list, and an empty dict or text, stand for no records.
  ghost predicate Lists(payload: Json, items: seq<Json>) {
    Field(payload, "keys") == Some(Arr(items))
    || (items == [] && Field(payload, "keys") in {None, Some(Obj([])), Some(Str(""))})
  }

  /**
   A file is taken exactly if it names the schema and lists sound records under distinct key ids; it
   gives those records, in that order.
   */
  lemma LoadExactly(payload: Json, derive: string -> Option<string>, s: Store)
    ensures Load(payload, derive) == Ok(s) <==>
      Field(payload, "schema") == Some(Str("brainarbeit-identity-registry/1"))
      && exists items :: Lists(payload, items) && Appends(items, derive, EMPTY, s)
  {
    hide Field, LoadRecords, Appends;
    if Load(payload, derive) == Ok(s) {
      var keys := Field(payload, "keys");
      var items := if keys.None? then [] else Iterated(keys.value).value;
      assert LoadRecords([], derive, EMPTY) == Ok(EMPTY) by {
        NoRecords(derive);
      }
      LoadedExactly(items, derive, EMPTY, s);
      assert Lists(payload, items);
    }
    if items :| Lists(payload, items) && Appends(items, derive, EMPTY, s) {
      NoRecords(derive);
      LoadedExactly(items, derive, EMPTY, s);
    }
  }

  lemma NoRecords(derive: string -> Option<string>)
    ensures LoadRecords([], derive, EMPTY) == Ok(EMPTY)
  {
  }
}
