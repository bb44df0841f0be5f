/**
 The canonical JSON printer and the request signing string (cockpit/identity/canonical.py).

 A Python dict is a list of members in insertion order with distinct keys, so two dicts that differ
 only in insertion order are different `Json` values with the same `Meaning`.
 */
module Canonical {
  import opened Bytes

  datatype Json =
    | Null
    | Bool(b: bool)
    | Int(n: int)
    | Str(s: string)
    | Arr(items: seq<Json>)
    | Obj(members: seq<Member>)

  datatype Member = Member(key: string, value: Json)

  // What a value stands for: dicts compare equal whatever their insertion order.
  datatype Value =
    | VNull
    | VBool(b: bool)
    | VInt(n: int)
    | VStr(s: string)
    | VArr(items: seq<Value>)
    | VObj(members: map<string, Value>)

  function Meaning(v: Json): Value {
    match v
    case Null => VNull
    case Bool(b) => VBool(b)
    case Int(n) => VInt(n)
    case Str(s) => VStr(s)
    case Arr(items) => VArr(ItemMeanings(items))
    case Obj(members) => VObj(MemberMeanings(members))
  }

  function ItemMeanings(items: seq<Json>): seq<Value> {
    if items == [] then [] else [Meaning(items[0])] + ItemMeanings(items[1..])
  }

  function MemberMeanings(ms: seq<Member>): map<string, Value> {
    if ms == [] then map[] else MemberMeanings(ms[1..])[ms[0].key := Meaning(ms[0].value)]
  }

  // Every dict inside the value has distinct keys, as every Python dict does.
  predicate WellFormed(v: Json) {
    match v
    case Arr(items) => ItemsWellFormed(items)
    case Obj(members) => MembersWellFormed(members)
    case _ => true
  }

  predicate ItemsWellFormed(items: seq<Json>) {
    items == [] || (WellFormed(items[0]) && ItemsWellFormed(items[1..]))
  }

  predicate MembersWellFormed(ms: seq<Member>) {
    ms == [] ||
    (WellFormed(ms[0].value) && MembersWellFormed(ms[1..]) && ms[0].key !in MemberMeanings(ms[1..]))
  }

  // ----- Ordering of keys by UTF-16 code units -----

  function CharUnits(c: char): (units: seq<nat>)
    ensures 1 <= |units| <= 2
  {
    var o := c as int;
    if o < 0x10000 then [o] else [0xD800 + (o - 0x10000) / 0x400, 0xDC00 + (o - 0x10000) % 0x400]
  }

  function Units(s: string): seq<nat> {
    if s == "" then [] else CharUnits(s[0]) + Units(s[1..])
  }

  // Python's comparison of tuples of integers.
  predicate TupleLess(a: seq<nat>, b: seq<nat>) {
    b != [] && (a == [] || a[0] < b[0] || (a[0] == b[0] && TupleLess(a[1..], b[1..])))
  }

  predicate KeyLess(s: string, t: string) {
    TupleLess(Units(s), Units(t))
  }

  lemma CharUnitsPrefixFree(c: char, d: char, x: seq<nat>, y: seq<nat>)
    requires CharUnits(c) + x == CharUnits(d) + y
    ensures c == d && x == y
  {
    var a, b := CharUnits(c), CharUnits(d);
    assert a[0] == (a + x)[0] == (b + y)[0] == b[0];
    assert |a| == (if 0xD800 <= a[0] < 0xDC00 then 2 else 1) == |b|;
    assert a == (a + x)[..|a|] == (b + y)[..|b|] == b;
    assert x == (a + x)[|a|..] == (b + y)[|b|..] == y;
    assert |a| == 2 ==> a[1] == b[1];
    assert c as int == d as int;
  }

  lemma {:induction false} UnitsInjective(s: string, t: string)
    requires Units(s) == Units(t)
    ensures s == t
  {
    if s != "" && t != "" {
      CharUnitsPrefixFree(s[0], t[0], Units(s[1..]), Units(t[1..]));
      UnitsInjective(s[1..], t[1..]);
    }
  }

  lemma {:induction false} TupleLessTotal(a: seq<nat>, b: seq<nat>)
    ensures a != b ==> TupleLess(a, b) || TupleLess(b, a)
    ensures !(TupleLess(a, b) && TupleLess(b, a))
  {
    if a != [] && b != [] {
      TupleLessTotal(a[1..], b[1..]);
      if a[0] == b[0] && a[1..] == b[1..] {
        assert a == [a[0]] + a[1..] == b;
      }
    }
  }

  lemma {:induction false} TupleLessTransitive(a: seq<nat>, b: seq<nat>, c: seq<nat>)
    requires TupleLess(a, b) && TupleLess(b, c)
    ensures TupleLess(a, c)
  {
    if a != [] && a[0] == b[0] == c[0] {
      TupleLessTransitive(a[1..], b[1..], c[1..]);
    }
  }

  // Section 3.2.3 of RFC 8785: the order on keys is a strict total order.
  lemma KeyLessStrictTotal(s: string, t: string, u: string)
    ensures !KeyLess(s, s)
    ensures s != t ==> KeyLess(s, t) != KeyLess(t, s)
    ensures KeyLess(s, t) && KeyLess(t, u) ==> KeyLess(s, u)
  {
    TupleLessTotal(Units(s), Units(s));
    TupleLessTotal(Units(s), Units(t));
    if Units(s) == Units(t) {
      UnitsInjective(s, t);
    }
    if KeyLess(s, t) && KeyLess(t, u) {
      TupleLessTransitive(Units(s), Units(t), Units(u));
    }
  }

  // It is not the order of code points: U+1F600 sorts before U+FB33.
  lemma NotCodePointOrder()
    ensures KeyLess("\U{1F600}", "\U{FB33}") && '\U{FB33}' < '\U{1F600}'
  {
    assert Units("\U{1F600}") == [0xD83D, 0xDE00];
    assert Units("\U{FB33}") == [0xFB33];
  }

  // ----- The printer -----

  // `sorted` is stable: a member goes before the first one that is not smaller.
  function Insert(m: Member, ms: seq<Member>): (r: seq<Member>)
    ensures MembersSize(r) == 1 + Size(m.value) + MembersSize(ms)
  {
    if ms == [] || !KeyLess(ms[0].key, m.key) then
      assert ([m] + ms)[1..] == ms;
      [m] + ms
    else
      var rest := Insert(m, ms[1..]);
      assert ([ms[0]] + rest)[1..] == rest;
      [ms[0]] + rest
  }

  function SortMembers(ms: seq<Member>): (r: seq<Member>)
    ensures MembersSize(r) == MembersSize(ms)
  {
    if ms == [] then [] else Insert(ms[0], SortMembers(ms[1..]))
  }

  function Size(v: Json): nat {
    match v
    case Arr(items) => 1 + ItemsSize(items)
    case Obj(members) => 1 + MembersSize(members)
    case _ => 1
  }

  function ItemsSize(items: seq<Json>): nat {
    if items == [] then 0 else 1 + Size(items[0]) + ItemsSize(items[1..])
  }

  function MembersSize(ms: seq<Member>): nat {
    if ms == [] then 0 else 1 + Size(ms[0].value) + MembersSize(ms[1..])
  }

  function Serialize(v: Json): string
    decreases Size(v)
  {
    match v
    case Null => "null"
    case Bool(b) => if b then "true" else "false"
    case Int(n) => Decimal(n)
    case Str(s) => Quote(s)
    case Arr(items) => "[" + SerializeItems(items) + "]"
    case Obj(members) => "{" + SerializeMembers(SortMembers(members)) + "}"
  }

  function SerializeItems(items: seq<Json>): string
    decreases ItemsSize(items)
  {
    if items == [] then ""
    else if |items| == 1 then Serialize(items[0])
    else Serialize(items[0]) + "," + SerializeItems(items[1..])
  }

  function SerializeMembers(ms: seq<Member>): string
    decreases MembersSize(ms)
  {
    if ms == [] then ""
    else
      var first := Quote(ms[0].key) + ":" + Serialize(ms[0].value);
      if |ms| == 1 then first else first + "," + SerializeMembers(ms[1..])
  }

  // `str` of an integer.
  function Decimal(n: int): string {
    if n < 0 then "-" + Digits(-n) else Digits(n)
  }

  function Digits(n: nat): string {
    if n < 10 then [DigitChar(n)] else Digits(n / 10) + [DigitChar(n % 10)]
  }

  function DigitChar(d: nat): char
    requires d < 10
  {
    (48 + d) as char
  }

  function HexChar(d: nat): char
    requires d < 16
  {
    if d < 10 then DigitChar(d) else (87 + d) as char
  }

  function EscapeChar(c: char): string {
    if c == '"' then "\\\""
    else if c == '\\' then "\\\\"
    else if c == '\U{8}' then "\\b"
    else if c == '\U{C}' then "\\f"
    else if c == '\n' then "\\n"
    else if c == '\r' then "\\r"
    else if c == '\t' then "\\t"
    else if c as int < 0x20 then "\\u00" + [HexChar(c as int / 16), HexChar(c as int % 16)]
    else [c]
  }

  function Escape(s: string): string {
    if s == "" then "" else EscapeChar(s[0]) + Escape(s[1..])
  }

  function Quote(s: string): string {
    "\"" + Escape(s) + "\""
  }

  lemma {:induction false} EscapeAppend(s: string, c: char)
    ensures Escape(s + [c]) == Escape(s) + EscapeChar(c)
  {
    if s == "" {
      assert s + [c] == [c];
    } else {
      assert (s + [c])[1..] == s[1..] + [c];
      EscapeAppend(s[1..], c);
    }
  }

  lemma EscapeNothing()
    ensures Escape("") == ""
  {
  }

  // The loop of `_jcs_string`.
  method JcsString(s: string) returns (text: string)
    ensures text == Quote(s)
  {
    hide HexChar, Escape;
    EscapeNothing();
    text := "\"";
    for i := 0 to |s|
      invariant text == "\"" + Escape(s[..i])
    {
      EscapeAppend(s[..i], s[i]);
      assert s[..i + 1] == s[..i] + [s[i]];
      var ch := s[i];
      var o := ch as int;
      if ch == '"' {
        text := text + "\\\"";
      } else if ch == '\\' {
        text := text + "\\\\";
      } else if ch == '\U{8}' {
        text := text + "\\b";
      } else if ch == '\U{C}' {
        text := text + "\\f";
      } else if ch == '\n' {
        text := text + "\\n";
      } else if ch == '\r' {
        text := text + "\\r";
      } else if ch == '\t' {
        text := text + "\\t";
      } else if o < 0x20 {
        text := text + "\\u00" + [HexChar(o / 16), HexChar(o % 16)];
      } else {
        text := text + [ch];
      }
    }
    assert s[..|s|] == s;
    text := text + "\"";
  }
}
