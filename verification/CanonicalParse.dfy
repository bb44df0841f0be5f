/**
 A parser for the texts that `Canonical.Serialize` prints, written from the grammar of RFC 8785
 and RFC 8259 alone, and the proofs that the two fit: the text determines the meaning of the value
 and the meaning determines the text.
 */
module CanonicalParse {
  import opened Bytes
  import opened Canonical

  // A parsed prefix of the input, and what follows it.
  datatype Parsed<+T> = Fail | Done(value: T, rest: string)

  predicate IsDigit(c: char) {
    '0' <= c <= '9'
  }

  // Length of the longest run of digits at the front.
  function DigitRun(s: string): (n: nat)
    ensures n <= |s|
    ensures forall i :: 0 <= i < n ==> IsDigit(s[i])
  {
    if s == "" || !IsDigit(s[0]) then 0 else 1 + DigitRun(s[1..])
  }

  function DigitsValue(s: string): int
    requires forall i :: 0 <= i < |s| ==> IsDigit(s[i])
  {
    if s == "" then 0
    else
      var last := s[|s| - 1];
      assert IsDigit(last);
      DigitsValue(s[..|s| - 1]) * 10 + (last as int - 48)
  }

  function ParseNat(s: string): (r: Parsed<int>)
    ensures r.Done? ==> |r.rest| < |s|
  {
    var n := DigitRun(s);
    if n == 0 then Fail else Done(DigitsValue(s[..n]), s[n..])
  }

  function ParseInt(s: string): (r: Parsed<Json>)
    ensures r.Done? ==> |r.rest| < |s|
  {
    var negative := s != "" && s[0] == '-';
    var r := ParseNat(if negative then s[1..] else s);
    if r.Fail? then Fail else Done(Int(if negative then -r.value else r.value), r.rest)
  }

  function HexValue(c: char): Option<nat> {
    if IsDigit(c) then Some(c as int - 48)
    else if 'a' <= c <= 'f' then Some(c as int - 87)
    else None
  }

  // The character behind a backslash, with the number of characters it takes up.
  function Unescape(s: string): (r: Parsed<char>)
    ensures r.Done? ==> |r.rest| < |s|
  {
    if s == "" then Fail
    else if s[0] == '"' || s[0] == '\\' then Done(s[0], s[1..])
    else if s[0] == 'b' then Done('\U{8}', s[1..])
    else if s[0] == 'f' then Done('\U{C}', s[1..])
    else if s[0] == 'n' then Done('\n', s[1..])
    else if s[0] == 'r' then Done('\r', s[1..])
    else if s[0] == 't' then Done('\t', s[1..])
    else if s[0] == 'u' && |s| >= 5 && s[1] == '0' && s[2] == '0' then
      match (HexValue(s[3]), HexValue(s[4]))
      case (Some(hi), Some(lo)) =>
        if hi < 16 && lo < 16 then Done((16 * hi + lo) as char, s[5..]) else Fail
      case _ => Fail
    else Fail
  }

  // The rest of a string literal, behind its opening quote.
  function ParseString(s: string): (r: Parsed<string>)
    ensures r.Done? ==> |r.rest| < |s|
    decreases |s|
  {
    if s == "" then Fail
    else if s[0] == '"' then Done("", s[1..])
    else if s[0] == '\\' then
      match Unescape(s[1..])
      case Fail => Fail
      case Done(c, rest) => ConsChar(c, ParseString(rest))
    else if s[0] as int < 0x20 then Fail
    else ConsChar(s[0], ParseString(s[1..]))
  }

  function ConsChar(c: char, r: Parsed<string>): Parsed<string> {
    match r
    case Fail => Fail
    case Done(s, rest) => Done([c] + s, rest)
  }

  function ParseLiteral(s: string): (r: Parsed<Json>)
    ensures r.Done? ==> |r.rest| < |s|
  {
    if "null" <= s then Done(Null, s[4..])
    else if "true" <= s then Done(Bool(true), s[4..])
    else if "false" <= s then Done(Bool(false), s[5..])
    else Fail
  }

  function ParseValue(s: string): (r: Parsed<Json>)
    ensures r.Done? ==> |r.rest| < |s|
    decreases |s|, 0
  {
    if s == "" then Fail
    else if s[0] == '"' then
      var r := ParseString(s[1..]);
      if r.Fail? then Fail else Done(Str(r.value), r.rest)
    else if s[0] == '[' then ParseArray(s[1..])
    else if s[0] == '{' then ParseObject(s[1..])
    else if s[0] == 'n' || s[0] == 't' || s[0] == 'f' then ParseLiteral(s)
    else ParseInt(s)
  }

  // The rest of an array, behind its opening bracket.
  function ParseArray(s: string): (r: Parsed<Json>)
    ensures r.Done? ==> |r.rest| < |s|
    decreases |s|, 2
  {
    if s != "" && s[0] == ']' then Done(Arr([]), s[1..])
    else
      var r := ParseItems(s);
      if r.Fail? then Fail else Done(Arr(r.value), r.rest)
  }

  // The rest of an object, behind its opening brace.
  function ParseObject(s: string): (r: Parsed<Json>)
    ensures r.Done? ==> |r.rest| < |s|
    decreases |s|, 2
  {
    if s != "" && s[0] == '}' then Done(Obj([]), s[1..])
    else
      var r := ParseMembers(s);
      if r.Fail? then Fail else Done(Obj(r.value), r.rest)
  }

  // One or more values up to the closing bracket.
  function ParseItems(s: string): (r: Parsed<seq<Json>>)
    ensures r.Done? ==> |r.rest| < |s|
    decreases |s|, 1
  {
    match ParseValue(s)
    case Fail => Fail
    case Done(v, rest) =>
      if rest == "" then Fail
      else if rest[0] == ']' then Done([v], rest[1..])
      else if rest[0] != ',' then Fail
      else
        match ParseItems(rest[1..])
        case Fail => Fail
        case Done(vs, end) => Done([v] + vs, end)
  }

  // One or more members up to the closing brace.
  function ParseMembers(s: string): (r: Parsed<seq<Member>>)
    ensures r.Done? ==> |r.rest| < |s|
    decreases |s|, 1
  {
    if s == "" || s[0] != '"' then Fail
    else
      match ParseString(s[1..])
      case Fail => Fail
      case Done(key, behind) =>
        if behind == "" || behind[0] != ':' then Fail
        else
          match ParseValue(behind[1..])
          case Fail => Fail
          case Done(v, rest) =>
            if rest == "" then Fail
            else if rest[0] == '}' then Done([Member(key, v)], rest[1..])
            else if rest[0] != ',' then Fail
            else
              match ParseMembers(rest[1..])
              case Fail => Fail
              case Done(ms, end) => Done([Member(key, v)] + ms, end)
  }

  // ----- What the parser returns: the same value with its dicts in key order -----

  function InKeyOrder(v: Json): Json
    decreases Size(v)
  {
    match v
    case Arr(items) => Arr(ItemsInKeyOrder(items))
    case Obj(members) => Obj(MembersInKeyOrder(SortMembers(members)))
    case _ => v
  }

  function ItemsInKeyOrder(items: seq<Json>): seq<Json>
    decreases ItemsSize(items)
  {
    if items == [] then [] else [InKeyOrder(items[0])] + ItemsInKeyOrder(items[1..])
  }

  function MembersInKeyOrder(ms: seq<Member>): seq<Member>
    decreases MembersSize(ms)
  {
    if ms == [] then []
    else [Member(ms[0].key, InKeyOrder(ms[0].value))] + MembersInKeyOrder(ms[1..])
  }

  // ----- Round trips of the pieces -----

  lemma {:induction false} DigitsAreDigits(n: nat)
    ensures forall i :: 0 <= i < |Digits(n)| ==> IsDigit(Digits(n)[i])
    ensures Digits(n) != "" && DigitsValue(Digits(n)) == n
  {
    if n >= 10 {
      DigitsAreDigits(n / 10);
      assert Digits(n)[..|Digits(n)| - 1] == Digits(n / 10);
    } else {
      assert Digits(n)[..0] == "";
    }
  }

  lemma {:induction false} DigitRunStops(ds: string, rest: string)
    requires forall i :: 0 <= i < |ds| ==> IsDigit(ds[i])
    requires rest == "" || !IsDigit(rest[0])
    ensures DigitRun(ds + rest) == |ds|
  {
    if ds == "" {
      assert ds + rest == rest;
    } else {
      assert (ds + rest)[1..] == ds[1..] + rest;
      DigitRunStops(ds[1..], rest);
    }
  }

  lemma NatRoundTrip(n: nat, rest: string)
    requires rest == "" || !IsDigit(rest[0])
    ensures ParseNat(Digits(n) + rest) == Done(n, rest)
    ensures Digits(n) != "" && IsDigit(Digits(n)[0])
  {
    DigitsAreDigits(n);
    DigitRunStops(Digits(n), rest);
    var s := Digits(n) + rest;
    assert s[..|Digits(n)|] == Digits(n) && s[|Digits(n)|..] == rest;
  }

  lemma SignStep(ds: string, n: int, rest: string)
    requires ds != "" && IsDigit(ds[0]) && ParseNat(ds + rest) == Done(n, rest)
    ensures ParseInt(ds + rest) == Done(Int(n), rest)
    ensures ParseInt("-" + ds + rest) == Done(Int(-n), rest)
  {
    assert ("-" + ds + rest)[1..] == ds + rest;
  }

  lemma NumberStep(s: string)
    requires s != "" && (s[0] == '-' || IsDigit(s[0]))
    ensures ParseValue(s) == ParseInt(s)
  {
  }

  lemma IntRoundTrip(n: int, rest: string)
    requires rest == "" || !IsDigit(rest[0])
    ensures ParseValue(Decimal(n) + rest) == Done(Int(n), rest)
  {
    var m := if n < 0 then -n else n;
    NatRoundTrip(m, rest);
    SignStep(Digits(m), m, rest);
    NumberStep(Decimal(n) + rest);
  }

  lemma UnescapeHex(o: nat, rest: string)
    requires o < 0x20
    ensures Unescape("u00" + [HexChar(o / 16), HexChar(o % 16)] + rest) == Done(o as char, rest)
  {
    var s := "u00" + [HexChar(o / 16), HexChar(o % 16)] + rest;
    assert s[5..] == rest;
    assert HexValue(HexChar(o / 16)) == Some(o / 16);
    assert HexValue(HexChar(o % 16)) == Some(o % 16);
  }

  lemma CharRoundTrip(c: char, rest: string)
    ensures ParseString(EscapeChar(c) + rest) == ConsChar(c, ParseString(rest))
  {
    hide Unescape, HexChar;
    var s := EscapeChar(c) + rest;
    if |EscapeChar(c)| == 1 {
      assert s[1..] == rest;
    } else {
      assert s[1..] == EscapeChar(c)[1..] + rest;
      UnescapeEscaped(c, rest);
    }
  }

  // Reading back what stands behind the backslash.
  lemma UnescapeEscaped(c: char, rest: string)
    requires |EscapeChar(c)| > 1
    ensures Unescape(EscapeChar(c)[1..] + rest) == Done(c, rest)
  {
    hide HexChar;
    if |EscapeChar(c)| == 2 {
      assert (EscapeChar(c)[1..] + rest)[1..] == rest;
    } else {
      UnescapeHex(c as int, rest);
      assert EscapeChar(c)[1..] == "u00" + [HexChar(c as int / 16), HexChar(c as int % 16)];
    }
  }

  lemma {:induction false} StringRoundTrip(s: string, rest: string)
    ensures ParseString(Escape(s) + "\"" + rest) == Done(s, rest)
  {
    if s == "" {
      assert (Escape(s) + "\"" + rest)[1..] == rest;
    } else {
      assert Escape(s) + "\"" + rest == EscapeChar(s[0]) + (Escape(s[1..]) + "\"" + rest);
      CharRoundTrip(s[0], Escape(s[1..]) + "\"" + rest);
      StringRoundTrip(s[1..], rest);
      assert s == [s[0]] + s[1..];
    }
  }

  // ----- One step of each list parser -----

  lemma ItemsEnd(text: string, v: Json, rest: string)
    requires ParseValue(text + "]" + rest) == Done(v, "]" + rest)
    ensures ParseItems(text + "]" + rest) == Done([v], rest)
  {
    assert ("]" + rest)[1..] == rest;
  }

  lemma ItemsMore(text: string, v: Json, tail: string, vs: seq<Json>, rest: string)
    requires ParseValue(text + "," + tail) == Done(v, "," + tail)
    requires ParseItems(tail) == Done(vs, rest)
    ensures ParseItems(text + "," + tail) == Done([v] + vs, rest)
  {
    assert ("," + tail)[1..] == tail;
  }

  lemma MembersEnd(key: string, text: string, v: Json, rest: string)
    requires ParseValue(text + "}" + rest) == Done(v, "}" + rest)
    ensures ParseMembers(Quote(key) + ":" + text + "}" + rest) == Done([Member(key, v)], rest)
  {
    hide ParseString, ParseValue, Quote;
    KeyStep(key, text + "}" + rest);
    assert Quote(key) + ":" + text + "}" + rest == Quote(key) + ":" + (text + "}" + rest);
    assert ("}" + rest)[1..] == rest;
  }

  lemma MembersMore(key: string, text: string, v: Json, tail: string, ms: seq<Member>, rest: string)
    requires ParseValue(text + "," + tail) == Done(v, "," + tail)
    requires ParseMembers(tail) == Done(ms, rest)
    ensures ParseMembers(Quote(key) + ":" + text + "," + tail) == Done([Member(key, v)] + ms, rest)
  {
    hide ParseString, ParseValue, Quote;
    KeyStep(key, text + "," + tail);
    assert Quote(key) + ":" + text + "," + tail == Quote(key) + ":" + (text + "," + tail);
    assert ("," + tail)[1..] == tail;
  }

  lemma KeyStep(key: string, behind: string)
    ensures var s := Quote(key) + ":" + behind;
      s[0] == '"' && ParseString(s[1..]) == Done(key, ":" + behind) && (":" + behind)[1..] == behind
  {
    var s := Quote(key) + ":" + behind;
    StringRoundTrip(key, ":" + behind);
    assert s[1..] == Escape(key) + "\"" + (":" + behind);
  }

  // ----- The whole round trip -----

  // A value can be followed by anything that does not continue a number.
  predicate Delimited(rest: string) {
    rest == "" || rest[0] in ",]}"
  }

  // Parsing the printed text gives the value back, its dicts in key order.
  lemma {:induction false} RoundTrip(v: Json, rest: string)
    requires Delimited(rest)
    ensures ParseValue(Serialize(v) + rest) == Done(InKeyOrder(v), rest)
    decreases Size(v), 0
  {
    match v
    case Arr(items) =>
      if items == [] {
        EmptyBrackets(rest);
        assert Serialize(v) == "[]";
      } else {
        ItemsRoundTrip(items, rest);
        BracketStep(SerializeItems(items), ItemsInKeyOrder(items), rest);
      }
    case Obj(members) =>
      var ms := SortMembers(members);
      if ms == [] {
        EmptyBrackets(rest);
        assert Serialize(v) == "{}";
      } else {
        MembersRoundTrip(ms, rest);
        BraceStep(SerializeMembers(ms), MembersInKeyOrder(ms), rest);
      }
    case Str(text) => TextRoundTrip(text, rest);
    case Int(n) => IntRoundTrip(n, rest);
    case _ => LiteralRoundTrip(v, rest);
  }

  lemma LiteralRoundTrip(v: Json, rest: string)
    requires v.Null? || v.Bool?
    ensures ParseValue(Serialize(v) + rest) == Done(v, rest)
  {
    var text := Serialize(v);
    assert text <= text + rest && (text + rest)[|text|..] == rest;
  }

  lemma TextRoundTrip(text: string, rest: string)
    ensures ParseValue(Quote(text) + rest) == Done(Str(text), rest)
  {
    StringRoundTrip(text, rest);
    assert (Quote(text) + rest)[1..] == Escape(text) + "\"" + rest;
  }

  lemma FirstChar(v: Json)
    ensures Serialize(v) != "" && Serialize(v)[0] != ']'
  {
    if v.Int? {
      NatRoundTrip(if v.n < 0 then -v.n else v.n, "");
    }
  }

  lemma BracketStep(text: string, items: seq<Json>, rest: string)
    requires text != "" && text[0] != ']' && ParseItems(text + "]" + rest) == Done(items, rest)
    ensures ParseValue("[" + text + "]" + rest) == Done(Arr(items), rest)
  {
    hide ParseItems, ParseMembers, ParseString, ParseLiteral, ParseInt;
    assert ("[" + text + "]" + rest)[1..] == text + "]" + rest;
  }

  lemma BraceStep(text: string, ms: seq<Member>, rest: string)
    requires text != "" && text[0] == '"' && ParseMembers(text + "}" + rest) == Done(ms, rest)
    ensures ParseValue("{" + text + "}" + rest) == Done(Obj(ms), rest)
  {
    hide ParseItems, ParseMembers, ParseString, ParseLiteral, ParseInt;
    assert ("{" + text + "}" + rest)[1..] == text + "}" + rest;
  }

  lemma EmptyBrackets(rest: string)
    ensures ParseValue("[]" + rest) == Done(Arr([]), rest)
    ensures ParseValue("{}" + rest) == Done(Obj([]), rest)
  {
    assert ("[]" + rest)[1..] == "]" + rest && ("]" + rest)[1..] == rest;
    assert ("{}" + rest)[1..] == "}" + rest && ("}" + rest)[1..] == rest;
  }

  // The two ways to bracket a text that is followed by a comma and the rest of a list.
  lemma Regroup(text: string, more: string, close: string, rest: string)
    ensures text + ("," + (more + close + rest)) == text + "," + (more + close + rest)
    ensures text + "," + (more + close + rest) == (text + "," + more) + close + rest
    ensures text + (close + rest) == text + close + rest
  {
  }

  lemma {:induction false} ItemsRoundTrip(items: seq<Json>, rest: string)
    requires items != []
    ensures ParseItems(SerializeItems(items) + "]" + rest) == Done(ItemsInKeyOrder(items), rest)
    ensures SerializeItems(items) != "" && SerializeItems(items)[0] != ']'
    decreases ItemsSize(items), 1
  {
    var text, v := Serialize(items[0]), InKeyOrder(items[0]);
    FirstChar(items[0]);
    if |items| == 1 {
      Regroup(text, "", "]", rest);
      RoundTrip(items[0], "]" + rest);
      ItemsEnd(text, v, rest);
      assert ItemsInKeyOrder(items) == [v];
    } else {
      var more := SerializeItems(items[1..]);
      var tail := more + "]" + rest;
      Regroup(text, more, "]", rest);
      RoundTrip(items[0], "," + tail);
      ItemsRoundTrip(items[1..], rest);
      ItemsMore(text, v, tail, ItemsInKeyOrder(items[1..]), rest);
    }
  }

  lemma {:induction false} MembersRoundTrip(ms: seq<Member>, rest: string)
    requires ms != []
    ensures ParseMembers(SerializeMembers(ms) + "}" + rest) == Done(MembersInKeyOrder(ms), rest)
    ensures SerializeMembers(ms) != "" && SerializeMembers(ms)[0] == '"'
    decreases MembersSize(ms), 1
  {
    var key, text, v := ms[0].key, Serialize(ms[0].value), InKeyOrder(ms[0].value);
    if |ms| == 1 {
      Regroup(text, "", "}", rest);
      RoundTrip(ms[0].value, "}" + rest);
      MembersEnd(key, text, v, rest);
      assert MembersInKeyOrder(ms) == [Member(key, v)];
    } else {
      var more := SerializeMembers(ms[1..]);
      var tail := more + "}" + rest;
      Regroup(text, more, "}", rest);
      Regroup(Quote(key) + ":" + text, more, "}", rest);
      RoundTrip(ms[0].value, "," + tail);
      MembersRoundTrip(ms[1..], rest);
      MembersMore(key, text, v, tail, MembersInKeyOrder(ms[1..]), rest);
    }
  }

  // ----- The text and the meaning determine each other -----

  // Strictly ascending keys, hence distinct ones.
  ghost predicate Ascending(ms: seq<Member>) {
    ms == [] ||
    ((forall k :: k in MemberMeanings(ms[1..]) ==> KeyLess(ms[0].key, k)) && Ascending(ms[1..]))
  }

  lemma ConsMeanings(m: Member, ms: seq<Member>)
    ensures MemberMeanings([m] + ms) == MemberMeanings(ms)[m.key := Meaning(m.value)]
    ensures MembersWellFormed([m] + ms) <==>
      WellFormed(m.value) && MembersWellFormed(ms) && m.key !in MemberMeanings(ms)
  {
    assert ([m] + ms)[1..] == ms;
  }

  lemma {:induction false} InsertPermutes(m: Member, ms: seq<Member>)
    ensures multiset(Insert(m, ms)) == multiset(ms) + multiset{m}
  {
    if ms != [] && KeyLess(ms[0].key, m.key) {
      InsertPermutes(m, ms[1..]);
      assert ms == [ms[0]] + ms[1..];
    }
  }

  lemma {:induction false} InsertFacts(m: Member, ms: seq<Member>)
    requires WellFormed(m.value) && MembersWellFormed(ms) && m.key !in MemberMeanings(ms)
    ensures MemberMeanings(Insert(m, ms)) == MemberMeanings(ms)[m.key := Meaning(m.value)]
    ensures MembersWellFormed(Insert(m, ms))
  {
    hide KeyLess, Meaning;
    if ms == [] || !KeyLess(ms[0].key, m.key) {
      ConsMeanings(m, ms);
    } else {
      var rest := Insert(m, ms[1..]);
      InsertFacts(m, ms[1..]);
      ConsMeanings(ms[0], rest);
      var before, x, y := MemberMeanings(ms[1..]), Meaning(m.value), Meaning(ms[0].value);
      assert before[m.key := x][ms[0].key := y] == before[ms[0].key := y][m.key := x];
    }
  }

  lemma {:induction false} InsertAscending(m: Member, ms: seq<Member>)
    requires WellFormed(m.value) && MembersWellFormed(ms) && m.key !in MemberMeanings(ms)
    requires Ascending(ms)
    ensures Ascending(Insert(m, ms))
  {
    if ms == [] || !KeyLess(ms[0].key, m.key) {
      assert ([m] + ms)[1..] == ms;
      forall k | k in MemberMeanings(ms)
        ensures KeyLess(m.key, k)
      {
        KeyLessStrictTotal(m.key, ms[0].key, k);
      }
    } else {
      InsertAscending(m, ms[1..]);
      InsertFacts(m, ms[1..]);
      assert Insert(m, ms)[1..] == Insert(m, ms[1..]);
    }
  }

  // `sorted` rearranges the members, keeps what they mean, and leaves their keys ascending.
  lemma {:induction false} SortFacts(ms: seq<Member>)
    requires MembersWellFormed(ms)
    ensures multiset(SortMembers(ms)) == multiset(ms)
    ensures MemberMeanings(SortMembers(ms)) == MemberMeanings(ms)
    ensures MembersWellFormed(SortMembers(ms)) && Ascending(SortMembers(ms))
  {
    if ms != [] {
      SortFacts(ms[1..]);
      InsertPermutes(ms[0], SortMembers(ms[1..]));
      InsertFacts(ms[0], SortMembers(ms[1..]));
      InsertAscending(ms[0], SortMembers(ms[1..]));
      assert ms == [ms[0]] + ms[1..];
    }
  }

  // What parsing returns means what was printed.
  lemma {:induction false} KeyOrderKeepsMeaning(v: Json)
    requires WellFormed(v)
    ensures Meaning(InKeyOrder(v)) == Meaning(v)
    decreases Size(v)
  {
    match v
    case Arr(items) => ItemsKeepMeaning(items);
    case Obj(members) =>
      SortFacts(members);
      MembersKeepMeaning(SortMembers(members));
    case _ =>
  }

  lemma {:induction false} ItemsKeepMeaning(items: seq<Json>)
    requires ItemsWellFormed(items)
    ensures ItemMeanings(ItemsInKeyOrder(items)) == ItemMeanings(items)
    decreases ItemsSize(items)
  {
    if items != [] {
      KeyOrderKeepsMeaning(items[0]);
      ItemsKeepMeaning(items[1..]);
      assert ItemsInKeyOrder(items)[1..] == ItemsInKeyOrder(items[1..]);
    }
  }

  lemma {:induction false} MembersKeepMeaning(ms: seq<Member>)
    requires MembersWellFormed(ms)
    ensures MemberMeanings(MembersInKeyOrder(ms)) == MemberMeanings(ms)
    decreases MembersSize(ms)
  {
    if ms != [] {
      KeyOrderKeepsMeaning(ms[0].value);
      MembersKeepMeaning(ms[1..]);
      assert MembersInKeyOrder(ms)[1..] == MembersInKeyOrder(ms[1..]);
    }
  }

  // Section 3.2.3 of RFC 8785: the text does not depend on insertion order, at any depth.
  lemma {:induction false} OrderIndependent(v: Json, w: Json)
    requires WellFormed(v) && WellFormed(w) && Meaning(v) == Meaning(w)
    ensures Serialize(v) == Serialize(w)
    decreases Size(v), 0
  {
    match v
    case Arr(items) => ItemsOrderIndependent(items, w.items);
    case Obj(members) =>
      SortFacts(members);
      SortFacts(w.members);
      MembersOrderIndependent(SortMembers(members), SortMembers(w.members));
    case _ =>
  }

  lemma {:induction false} ItemsOrderIndependent(items: seq<Json>, others: seq<Json>)
    requires ItemsWellFormed(items) && ItemsWellFormed(others)
    requires ItemMeanings(items) == ItemMeanings(others)
    ensures |items| == |others| && SerializeItems(items) == SerializeItems(others)
    decreases ItemsSize(items), 1
  {
    if items != [] && others != [] {
      assert ItemMeanings(items)[0] == ItemMeanings(others)[0];
      assert ItemMeanings(items)[1..] == ItemMeanings(others)[1..];
      OrderIndependent(items[0], others[0]);
      ItemsOrderIndependent(items[1..], others[1..]);
    }
  }

  lemma {:induction false} MembersOrderIndependent(ms: seq<Member>, ns: seq<Member>)
    requires MembersWellFormed(ms) && MembersWellFormed(ns) && Ascending(ms) && Ascending(ns)
    requires MemberMeanings(ms) == MemberMeanings(ns)
    ensures |ms| == |ns| && SerializeMembers(ms) == SerializeMembers(ns)
    decreases MembersSize(ms), 1
  {
    assert ns != [] ==> ns[0].key in MemberMeanings(ns);
    if ms != [] {
      assert ms[0].key in MemberMeanings(ns);
      SmallestKey(ms, ns);
      TailMeanings(ms);
      TailMeanings(ns);
      OrderIndependent(ms[0].value, ns[0].value);
      MembersOrderIndependent(ms[1..], ns[1..]);
    }
  }

  lemma TailMeanings(ms: seq<Member>)
    requires ms != [] && MembersWellFormed(ms)
    ensures MemberMeanings(ms[1..]) == MemberMeanings(ms) - {ms[0].key}
    ensures MemberMeanings(ms)[ms[0].key] == Meaning(ms[0].value)
  {
  }

  lemma SmallestKey(ms: seq<Member>, ns: seq<Member>)
    requires ms != [] && ns != [] && Ascending(ms) && Ascending(ns)
    requires MemberMeanings(ms).Keys == MemberMeanings(ns).Keys
    ensures ms[0].key == ns[0].key
  {
    if ms[0].key != ns[0].key {
      assert ms[0].key in MemberMeanings(ms).Keys && ns[0].key in MemberMeanings(ns).Keys;
      KeyLessStrictTotal(ms[0].key, ns[0].key, "");
    }
  }

  // `jcs_canonical_bytes`.
  function CanonicalBytes(v: Json): seq<Byte> {
    Utf8(Serialize(v))
  }

  // Two values print alike exactly when they have the same meaning, so a digest of the canonical
  // bytes stands for one value and for all its insertion orders.
  lemma CanonicalExactly(v: Json, w: Json)
    requires WellFormed(v) && WellFormed(w)
    ensures CanonicalBytes(v) == CanonicalBytes(w) <==> Meaning(v) == Meaning(w)
  {
    Utf8Injective(Serialize(v), Serialize(w));
    if Meaning(v) == Meaning(w) {
      OrderIndependent(v, w);
    }
    if Serialize(v) == Serialize(w) {
      RoundTrip(v, "");
      RoundTrip(w, "");
      KeyOrderKeepsMeaning(v);
      KeyOrderKeepsMeaning(w);
    }
  }
}
