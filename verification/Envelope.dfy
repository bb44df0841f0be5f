/** Reading a request envelope: a JSON object whose fields may be absent or of any type. */
module Envelope {
  import opened Bytes
  import opened Canonical
  import opened SigningString

  // `dict.get(name)`; None for an absent field and for something that is not a dict.
  function Field(v: Json, name: string): Option<Json> {
    if v.Obj? then Find(v.members, name) else None
  }

  function Find(ms: seq<Member>, name: string): Option<Json> {
    if ms == [] then None
    else if ms[0].key == name then Some(ms[0].value)
    else Find(ms[1..], name)
  }

  // `env.get("args", {})`
  function ArgsOf(v: Json): Json {
    match Field(v, "args")
    case Some(a) => a
    case None => Obj([])
  }

  // The text in a field, if that is what the field holds.
  function Text(f: Option<Json>): Option<string> {
    if f.Some? && f.value.Str? then Some(f.value.s) else None
  }

  /**
   The request that an envelope describes. None when a field is missing or has a type that
   `build_signing_string` refuses.
   */
  function ToRequest(v: Json): Option<Request> {
    match (Text(Field(v, "contract")), Text(Field(v, "type")), Text(Field(v, "id")), Field(v, "ts"), Text(Field(v, "nonce")))
    case (Some(contract), Some(kind), Some(id), Some(Int(ts)), Some(nonce)) =>
      (match (Text(Field(v, "principal")), Text(Field(v, "key_id")), Text(Field(v, "funding")), Text(Field(v, "verb")))
       case (Some(principal), Some(keyId), Some(funding), Some(verb)) =>
         Some(Request(contract, kind, id, ts, nonce, principal, keyId, funding, verb, ArgsOf(v)))
       case _ => None)
    case _ => None
  }

  // The signed bytes of an envelope, or None for a malformed one.
  function SignedBytes(v: Json, digest: seq<Byte> -> string): Option<seq<Byte>> {
    match ToRequest(v)
    case None => None
    case Some(r) =>
      match BuildSigningString(r, digest)
      case Ok(bytes) => Some(bytes)
      case Err(_) => None
  }
}
