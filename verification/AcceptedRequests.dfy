/**
 Which envelopes the verifier accepts, and what it reports of them, field by field
 (cockpit/identity/verifier.py, `_verify_locked`).
 */
module AcceptedRequests {
  import opened Bytes
  import opened Canonical
  import opened SigningString
  import opened Envelope
  import opened Registry
  import opened Enrollment
  import NonceTable
  import opened Verifier

  // An envelope and the request it makes, field by field; absent arguments are an empty object.
  ghost predicate Says(env: Json, r: Request) {
    Field(env, "contract") == Some(Str(r.contract)) && Field(env, "type") == Some(Str(r.kind))
    && Field(env, "id") == Some(Str(r.id)) && Field(env, "ts") == Some(Int(r.ts))
    && Field(env, "nonce") == Some(Str(r.nonce)) && Field(env, "principal") == Some(Str(r.principal))
    && Field(env, "key_id") == Some(Str(r.keyId)) && Field(env, "funding") == Some(Str(r.funding))
    && Field(env, "verb") == Some(Str(r.verb))
    && (Field(env, "args") == Some(r.args) || (Field(env, "args") == None && r.args == Obj([])))
  }

  lemma ToRequestExactly(env: Json, r: Request)
    ensures ToRequest(env) == Some(r) <==> Says(env, r)
  {
    hide Field;
  }

  // A signature by a key over what the envelope says.
  ghost predicate Signed(w: World, pubkey: string, sig: Json, r: Request) {
    BuildSigningString(r, w.digest).Ok? && w.signatureOk(pubkey, sig, BuildSigningString(r, w.digest).value)
  }

  lemma SignedExactly(env: Json, r: Request, w: World, pubkey: string, sig: Json)
    requires Says(env, r)
    ensures SignedBytes(env, w.digest).Some? && w.signatureOk(pubkey, sig, SignedBytes(env, w.digest).value) <==>
      Signed(w, pubkey, sig, r)
  {
    hide Says, BuildSigningString, ToRequest;
    ToRequestExactly(env, r);
  }

  // Eight to sixty-four letters, digits, and `-_=`.
  predicate NonceChar(c: char) {
    'A' <= c <= 'Z' || 'a' <= c <= 'z' || '0' <= c <= '9' || c == '-' || c == '_' || c == '='
  }

  predicate GoodNonce(nonce: string) {
    8 <= |nonce| <= 64 && forall i :: 0 <= i < |nonce| ==> NonceChar(nonce[i])
  }

  lemma AlphabetExactly(c: char)
    ensures c in NONCE_ALPHABET <==> NonceChar(c)
  {
    InParts(NONCE_ALPHABET, UPPER, LOWER, DIGITS, OTHERS, c);
    Upper(c);
    Lower(c);
    Digit(c);
    Other(c);
  }

  lemma InParts(s: string, a: string, b: string, x: string, y: string, c: char)
    requires s == a + b + x + y
    ensures c in s <==> c in a || c in b || c in x || c in y
  {
  }

  lemma Upper(c: char)
    ensures c in UPPER <==> 'A' <= c <= 'Z'
  {
    RunExactly(UPPER, 65, c);
  }

  lemma Lower(c: char)
    ensures c in LOWER <==> 'a' <= c <= 'z'
  {
    RunExactly(LOWER, 97, c);
  }

  lemma Digit(c: char)
    ensures c in DIGITS <==> '0' <= c <= '9'
  {
    RunExactly(DIGITS, 48, c);
  }

  lemma Other(c: char)
    ensures c in OTHERS <==> c == '-' || c == '_' || c == '='
  {
    assert OTHERS[0] == '-' && OTHERS[1] == '_' && OTHERS[2] == '=';
  }

  // Characters that follow one another.
  lemma RunExactly(s: string, first: nat, c: char)
    requires forall i :: 0 <= i < |s| ==> s[i] as int == first + i
    ensures c in s <==> first <= c as int < first + |s|
  {
    if first <= c as int < first + |s| {
      assert s[c as int - first] == c;
    }
  }

  lemma NonceExactly(nonce: string)
    ensures ValidNonceShape(nonce) <==> GoodNonce(nonce)
  {
    forall i | 0 <= i < |nonce|
      ensures nonce[i] in NONCE_ALPHABET <==> NonceChar(nonce[i])
    {
      AlphabetExactly(nonce[i]);
    }
  }

  // The request that an accepted envelope made.
  function Made(contract: string, v: VerifiedRequest): Request {
    Request.Request(contract, "req", v.id, v.ts, v.nonce, v.principal, v.keyId, v.funding, v.verb, v.args)
  }

  // What is asked of the key and the signature.
  ghost predicate Vouched(w: World, contract: string, s: Store, env: Json, v: VerifiedRequest) {
    v.keyId in s.records && s.records[v.keyId].status == "approved"
    && s.records[v.keyId].principal == v.principal && s.records[v.keyId].role == v.role
    && w.derive(s.records[v.keyId].pubkey) != None
    && Field(env, "sig").Some? && Signed(w, s.records[v.keyId].pubkey, Field(env, "sig").value, Made(contract, v))
  }

  lemma CheckedExactly(w: World, contract: string, s: Store, env: Json, v: VerifiedRequest)
    requires Consistent(s)
    ensures Precheck(w, contract, s, env) == Ok(v) <==>
      Says(env, Made(contract, v)) && GoodNonce(v.nonce) && Vouched(w, contract, s, env, v)
  {
    NonceExactly(v.nonce);
    if Precheck(w, contract, s, env) == Ok(v) {
      CheckedSays(w, contract, s, env, v);
    }
    if Says(env, Made(contract, v)) && GoodNonce(v.nonce) && Vouched(w, contract, s, env, v) {
      SaidIsChecked(w, contract, s, env, v);
    }
  }

  lemma CheckedSays(w: World, contract: string, s: Store, env: Json, v: VerifiedRequest)
    requires Consistent(s) && Precheck(w, contract, s, env) == Ok(v)
    ensures Says(env, Made(contract, v)) && ValidNonceShape(v.nonce) && Vouched(w, contract, s, env, v)
  {
    hide Field, SignedBytes, BuildSigningString, ValidNonceShape;
    var r := ToRequest(env).value;
    ToRequestExactly(env, r);
    var pubkey := s.records[v.keyId].pubkey;
    SignedExactly(env, r, w, pubkey, Field(env, "sig").value);
  }

  lemma SaidIsChecked(w: World, contract: string, s: Store, env: Json, v: VerifiedRequest)
    requires Consistent(s) && Says(env, Made(contract, v)) && ValidNonceShape(v.nonce) && Vouched(w, contract, s, env, v)
    ensures Precheck(w, contract, s, env) == Ok(v)
  {
    hide SignedBytes, BuildSigningString, ValidNonceShape, Find;
    ToRequestExactly(env, Made(contract, v));
    SignedExactly(env, Made(contract, v), w, s.records[v.keyId].pubkey, Field(env, "sig").value);
  }

  // The time is within the skew, and the principal has not used the nonce.
  ghost predicate InTime(cfg: NonceTable.Config, skew: nat, t: NonceTable.Table, skewNow: int, cacheNow: int, v: VerifiedRequest)
    requires NonceTable.Ordered(t)
  {
    skewNow - v.ts <= skew && v.ts - skewNow <= skew
    && !NonceTable.Refuses(t, NonceTable.Call(v.principal, v.nonce, cacheNow))
  }

  /**
   Acceptance, exactly. An answer is given if and only if the envelope says what the answer reports,
   field by field, under this contract and type; the key is approved, bound to the principal and role
   reported, and has signed that; the time is within the skew; and the nonce is fresh.
   */
  lemma AcceptedExactly(w: World, cfg: NonceTable.Config, contract: string, skew: nat, t: NonceTable.Table, s: Store,
                        env: Json, skewNow: int, cacheNow: int, v: VerifiedRequest)
    requires Consistent(s) && cfg.Usable() && NonceTable.Ordered(t)
    ensures Verify(w, cfg, contract, skew, t, s, env, skewNow, cacheNow).1 == Ok(v) <==>
      (Says(env, Made(contract, v)) && GoodNonce(v.nonce) && Vouched(w, contract, s, env, v)
       && InTime(cfg, skew, t, skewNow, cacheNow, v))
  {
    hide Precheck, Says, GoodNonce, Vouched, NonceTable.Ordered, NonceTable.Refreshed, NonceTable.Trimmed, NonceTable.EvictBelow, NonceTable.Refuses;
    CheckedExactly(w, contract, s, env, v);
  }

  // What is refused after the checks: a time outside the skew is stale, and only then the nonce counts.
  lemma LateRefusals(w: World, cfg: NonceTable.Config, contract: string, skew: nat, t: NonceTable.Table, s: Store,
                     env: Json, skewNow: int, cacheNow: int)
    requires cfg.Usable() && NonceTable.Ordered(t) && Precheck(w, contract, s, env).Ok?
    ensures var v := Precheck(w, contract, s, env).value;
      var r := Verify(w, cfg, contract, skew, t, s, env, skewNow, cacheNow).1;
      (r == Err(Stale) <==> skewNow - v.ts > skew || v.ts - skewNow > skew)
      && (r == Err(Replay) ==> NonceTable.Refuses(t, NonceTable.Call(v.principal, v.nonce, cacheNow)))
      && (r.Ok? || r == Err(Stale) || r == Err(Replay))
  {
    hide Precheck, NonceTable.Ordered, NonceTable.Refreshed, NonceTable.Trimmed, NonceTable.EvictBelow, NonceTable.Refuses;
  }

  // Only what passes every check but the last one gets into the replay memory: nobody else can use up a nonce.
  lemma MemoryExactly(w: World, cfg: NonceTable.Config, contract: string, skew: nat, t: NonceTable.Table, s: Store,
                      env: Json, skewNow: int, cacheNow: int)
    requires cfg.Usable() && NonceTable.Ordered(t) && Consistent(s)
    ensures var (after, r) := Verify(w, cfg, contract, skew, t, s, env, skewNow, cacheNow);
      after != t ==> (r.Ok? || r == Err(Replay)) && exists v :: Genuine(w, contract, skew, s, env, skewNow, v)
  {
    hide Precheck, Says, Vouched, NonceTable.Ordered, NonceTable.Refreshed, NonceTable.Trimmed, NonceTable.EvictBelow, NonceTable.Refuses;
    if Precheck(w, contract, s, env).Ok? {
      var v := Precheck(w, contract, s, env).value;
      CheckedExactly(w, contract, s, env, v);
      assert WithinSkew(skewNow, v.ts, skew) ==> Genuine(w, contract, skew, s, env, skewNow, v);
    }
  }

  // A request that was made, by whom it says, and within the skew.
  ghost predicate Genuine(w: World, contract: string, skew: nat, s: Store, env: Json, skewNow: int, v: VerifiedRequest) {
    Says(env, Made(contract, v)) && Vouched(w, contract, s, env, v) && skewNow - v.ts <= skew && v.ts - skewNow <= skew
  }

  // What is refused because of the key, in an envelope that is complete and of this contract and type.
  lemma KeyRefusals(w: World, contract: string, s: Store, env: Json, keyId: string)
    requires HasRequiredFields(env) && Field(env, "contract") == Some(Str(contract)) && Field(env, "type") == Some(Str("req"))
    requires Field(env, "key_id") == Some(Str(keyId))
    ensures keyId !in s.records ==> Precheck(w, contract, s, env) == Err(Unenrolled)
    ensures keyId in s.records && s.records[keyId].status == "pending" ==> Precheck(w, contract, s, env) == Err(NotApproved)
    ensures keyId in s.records && s.records[keyId].status == "revoked" ==> Precheck(w, contract, s, env) == Err(WrongPrincipal)
    ensures keyId in s.records && s.records[keyId].status == "approved" && Field(env, "principal") != Some(Str(s.records[keyId].principal)) ==>
      Precheck(w, contract, s, env) == Err(WrongPrincipal)
  {
    hide HasRequiredFields, Field, ToRequest, SignedBytes;
  }
}
