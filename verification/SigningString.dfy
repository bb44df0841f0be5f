/**
 `build_signing_string` (cockpit/identity/canonical.py): the bytes a request is signed over.
 SHA-256 is the parameter `digest`, from canonical bytes to the hexadecimal text.
 */
module SigningString {
  import opened Bytes
  import opened Canonical
  import opened CanonicalParse

  datatype Request = Request(contract: string, kind: string, id: string, ts: int, nonce: string,
                             principal: string, keyId: string, funding: string, verb: string, args: Json)

  // The fields that a newline would be refused in.
  function TextFields(r: Request): seq<string> {
    [r.kind, r.id, r.nonce, r.principal, r.keyId, r.funding, r.verb, r.contract]
  }

  // An absent argument is digested as an empty object.
  function DigestedArgs(args: Json): Json {
    if args.Null? then Obj([]) else args
  }

  function Lines(r: Request, digest: seq<Byte> -> string): seq<string> {
    [r.contract, r.kind, r.id, Decimal(r.ts), r.nonce, r.principal, r.keyId, r.funding, r.verb,
     digest(CanonicalBytes(DigestedArgs(r.args)))]
  }

  function JoinLines(lines: seq<string>): string {
    if lines == [] then "" else if |lines| == 1 then lines[0] else lines[0] + "\n" + JoinLines(lines[1..])
  }

  datatype Refusal = NewlineInField

  function BuildSigningString(r: Request, digest: seq<Byte> -> string): Result<seq<Byte>, Refusal> {
    if exists i :: 0 <= i < |TextFields(r)| && '\n' in TextFields(r)[i] then Err(NewlineInField)
    else Ok(Utf8(JoinLines(Lines(r, digest))))
  }

  // The first line break ends the first line.
  lemma FirstLine(a: string, x: string, b: string, y: string)
    requires '\n' !in a && '\n' !in b && a + "\n" + x == b + "\n" + y
    ensures a == b && x == y
  {
    var s, t := a + "\n" + x, b + "\n" + y;
    assert s[|a|] == '\n' && t[|b|] == '\n';
    assert a == s[..|a|] && b == t[..|b|];
    assert x == s[|a| + 1..] && y == t[|b| + 1..];
  }

  // Only the last of the joined lines may hold a line break.
  lemma {:induction false} JoinLinesInjective(a: seq<string>, b: seq<string>)
    requires |a| == |b|
    requires forall i :: 0 <= i < |a| - 1 ==> '\n' !in a[i] && '\n' !in b[i]
    requires JoinLines(a) == JoinLines(b)
    ensures a == b
  {
    if |a| > 1 {
      FirstLine(a[0], JoinLines(a[1..]), b[0], JoinLines(b[1..]));
      JoinLinesInjective(a[1..], b[1..]);
      assert a == [a[0]] + a[1..] && b == [b[0]] + b[1..];
    }
  }

  lemma DecimalFacts(n: int, m: int)
    ensures '\n' !in Decimal(n)
    ensures Decimal(n) == Decimal(m) ==> n == m
  {
    DigitsAreDigits(if n < 0 then -n else n);
    IntRoundTrip(n, "");
    IntRoundTrip(m, "");
  }

  predicate NoLineBreaks(r: Request) {
    forall i :: 0 <= i < |TextFields(r)| ==> '\n' !in TextFields(r)[i]
  }

  lemma LinesDetermine(a: Request, b: Request, digest: seq<Byte> -> string)
    requires NoLineBreaks(a) && NoLineBreaks(b)
    requires JoinLines(Lines(a, digest)) == JoinLines(Lines(b, digest))
    ensures Lines(a, digest) == Lines(b, digest)
  {
    hide Decimal;
    DecimalFacts(a.ts, b.ts);
    DecimalFacts(b.ts, a.ts);
    hide JoinLines;
    var f, g := TextFields(a), TextFields(b);
    assert '\n' !in f[0] && '\n' !in f[1] && '\n' !in f[2] && '\n' !in f[3];
    assert '\n' !in f[4] && '\n' !in f[5] && '\n' !in f[6] && '\n' !in f[7];
    assert '\n' !in g[0] && '\n' !in g[1] && '\n' !in g[2] && '\n' !in g[3];
    assert '\n' !in g[4] && '\n' !in g[5] && '\n' !in g[6] && '\n' !in g[7];
    JoinLinesInjective(Lines(a, digest), Lines(b, digest));
  }

  /**
   Two requests are signed over the same bytes exactly when every text field and the time agree and
   the arguments have the same meaning, an absent argument counting as an empty object. Only
   the digests of the two argument texts have to differ when the texts do.
   */
  lemma SigningBytesExactly(a: Request, b: Request, digest: seq<Byte> -> string)
    requires WellFormed(a.args) && WellFormed(b.args)
    requires BuildSigningString(a, digest).Ok? && BuildSigningString(b, digest).Ok?
    requires var x, y := CanonicalBytes(DigestedArgs(a.args)), CanonicalBytes(DigestedArgs(b.args));
      digest(x) == digest(y) ==> x == y
    ensures BuildSigningString(a, digest) == BuildSigningString(b, digest) <==>
      TextFields(a) == TextFields(b) && a.ts == b.ts &&
      Meaning(DigestedArgs(a.args)) == Meaning(DigestedArgs(b.args))
  {
    var la, lb := Lines(a, digest), Lines(b, digest);
    CanonicalExactly(DigestedArgs(a.args), DigestedArgs(b.args));
    Utf8Injective(JoinLines(la), JoinLines(lb));
    DecimalFacts(a.ts, b.ts);
    var f, g := TextFields(a), TextFields(b);
    if JoinLines(la) == JoinLines(lb) {
      LinesDetermine(a, b, digest);
      assert la[0] == lb[0] && la[1] == lb[1] && la[2] == lb[2] && la[3] == lb[3] && la[4] == lb[4];
      assert la[5] == lb[5] && la[6] == lb[6] && la[7] == lb[7] && la[8] == lb[8] && la[9] == lb[9];
    }
    if f == g {
      assert f[0] == g[0] && f[1] == g[1] && f[2] == g[2] && f[3] == g[3];
      assert f[4] == g[4] && f[5] == g[5] && f[6] == g[6] && f[7] == g[7];
    }
  }

  // A request that carries null and one that carries {} cannot be told apart by their signatures.
  lemma NullSignsLikeEmpty(r: Request, digest: seq<Byte> -> string)
    ensures BuildSigningString(r.(args := Null), digest) == BuildSigningString(r.(args := Obj([])), digest)
    ensures Meaning(Null) != Meaning(Obj([]))
  {
    assert TextFields(r.(args := Null)) == TextFields(r.(args := Obj([])));
    assert Lines(r.(args := Null), digest) == Lines(r.(args := Obj([])), digest);
  }

  // The signed text, line by line.
  lemma SignedText(r: Request, digest: seq<Byte> -> string)
    ensures BuildSigningString(r, digest).Ok? <==>
      '\n' !in r.contract && '\n' !in r.kind && '\n' !in r.id && '\n' !in r.nonce && '\n' !in r.principal
      && '\n' !in r.keyId && '\n' !in r.funding && '\n' !in r.verb
    ensures BuildSigningString(r, digest).Ok? ==>
      BuildSigningString(r, digest).value == Utf8(
        r.contract + "\n" + r.kind + "\n" + r.id + "\n" + Decimal(r.ts) + "\n" + r.nonce + "\n" + r.principal + "\n"
        + r.keyId + "\n" + r.funding + "\n" + r.verb + "\n"
        + digest(CanonicalBytes(if r.args == Null then Obj([]) else r.args)))
  {
    hide Decimal, Utf8, CanonicalBytes, JoinLines;
    var f := TextFields(r);
    assert f[0] == r.kind && f[1] == r.id && f[2] == r.nonce && f[3] == r.principal;
    assert f[4] == r.keyId && f[5] == r.funding && f[6] == r.verb && f[7] == r.contract;
    TenLines(r.contract, r.kind, r.id, Decimal(r.ts), r.nonce, r.principal, r.keyId, r.funding, r.verb,
             digest(CanonicalBytes(DigestedArgs(r.args))));
  }

  lemma TenLines(a: string, b: string, c: string, d: string, e: string, f: string, g: string, h: string, i: string, j: string)
    ensures JoinLines([a, b, c, d, e, f, g, h, i, j]) ==
      a + "\n" + b + "\n" + c + "\n" + d + "\n" + e + "\n" + f + "\n" + g + "\n" + h + "\n" + i + "\n" + j
  {
    hide JoinLines;
    OneMore("", a, [b, c, d, e, f, g, h, i, j], [a, b, c, d, e, f, g, h, i, j]);
    OneMore(a + "\n", b, [c, d, e, f, g, h, i, j], [b, c, d, e, f, g, h, i, j]);
    OneMore(a + "\n" + b + "\n", c, [d, e, f, g, h, i, j], [c, d, e, f, g, h, i, j]);
    OneMore(a + "\n" + b + "\n" + c + "\n", d, [e, f, g, h, i, j], [d, e, f, g, h, i, j]);
    OneMore(a + "\n" + b + "\n" + c + "\n" + d + "\n", e, [f, g, h, i, j], [e, f, g, h, i, j]);
    OneMore(a + "\n" + b + "\n" + c + "\n" + d + "\n" + e + "\n", f, [g, h, i, j], [f, g, h, i, j]);
    OneMore(a + "\n" + b + "\n" + c + "\n" + d + "\n" + e + "\n" + f + "\n", g, [h, i, j], [g, h, i, j]);
    OneMore(a + "\n" + b + "\n" + c + "\n" + d + "\n" + e + "\n" + f + "\n" + g + "\n", h, [i, j], [h, i, j]);
    OneMore(a + "\n" + b + "\n" + c + "\n" + d + "\n" + e + "\n" + f + "\n" + g + "\n" + h + "\n", i, [j], [i, j]);
    OneLine(j);
    assert "" + JoinLines([a, b, c, d, e, f, g, h, i, j]) == JoinLines([a, b, c, d, e, f, g, h, i, j]);
    assert "" + a == a;
  }

  lemma OneLine(line: string)
    ensures JoinLines([line]) == line
  {
  }

  // What is in front of the lines, and the first of them.
  lemma OneMore(front: string, line: string, rest: seq<string>, lines: seq<string>)
    requires rest != [] && lines == [line] + rest
    ensures front + JoinLines(lines) == front + line + "\n" + JoinLines(rest)
  {
    assert lines[1..] == rest;
    assert front + (line + "\n" + JoinLines(rest)) == front + line + "\n" + JoinLines(rest);
  }
}
