/**
 The printed form, character by character (sections 3.2.2 and 3.2.3 of RFC 8785): the order of keys, the
 escapes of strings, the digits of integers and the absence of whitespace.
 */
module CanonicalForm {
  import opened Canonical
  import opened CanonicalParse

  // By code point, but the characters above U+FFFF lie between U+D7FF and U+E000.
  predicate CharBefore(c: char, d: char) {
    if (c as int < 0x10000) == (d as int < 0x10000) then c < d
    else if c as int < 0x10000 then c as int < 0xD800
    else d as int >= 0xE000
  }

  // The two texts agree on n characters, where one of them ends or they differ.
  ghost predicate PartAt(s: string, t: string, n: nat) {
    n <= |s| && n <= |t| && s[..n] == t[..n] && (n == |s| || n == |t| || s[n] != t[n])
  }

  ghost predicate EarlierAt(s: string, t: string, n: nat) {
    PartAt(s, t, n) && n < |t| && (n == |s| || CharBefore(s[n], t[n]))
  }

  ghost predicate Earlier(s: string, t: string) {
    exists n :: EarlierAt(s, t, n)
  }

  lemma TupleLessAppend(p: seq<nat>, a: seq<nat>, b: seq<nat>)
    ensures TupleLess(p + a, p + b) <==> TupleLess(a, b)
  {
    if p == [] {
      assert p + a == a && p + b == b;
    } else {
      assert (p + a)[1..] == p[1..] + a && (p + b)[1..] == p[1..] + b;
      TupleLessAppend(p[1..], a, b);
    }
  }

  lemma CharUnitsOrder(c: char, d: char, a: seq<nat>, b: seq<nat>)
    requires c != d
    ensures TupleLess(CharUnits(c) + a, CharUnits(d) + b) <==> CharBefore(c, d)
  {
    var x, y := CharUnits(c) + a, CharUnits(d) + b;
    assert x[0] == CharUnits(c)[0] && y[0] == CharUnits(d)[0];
    if x[0] == y[0] {
      assert x[1] == CharUnits(c)[1] && y[1] == CharUnits(d)[1];
      assert x[1..][0] == x[1] && y[1..][0] == y[1];
    }
  }

  lemma {:induction false} KeyLessAt(s: string, t: string, n: nat)
    requires PartAt(s, t, n)
    ensures KeyLess(s, t) <==> EarlierAt(s, t, n)
  {
    if n == 0 {
      if s != "" && t != "" {
        CharUnitsOrder(s[0], t[0], Units(s[1..]), Units(t[1..]));
      }
    } else {
      assert s[0] == s[..n][0] == t[..n][0] == t[0];
      assert s[1..][..n - 1] == s[..n][1..] == t[..n][1..] == t[1..][..n - 1];
      TupleLessAppend(CharUnits(s[0]), Units(s[1..]), Units(t[1..]));
      KeyLessAt(s[1..], t[1..], n - 1);
    }
  }

  function Agree(s: string, t: string): (n: nat)
    ensures PartAt(s, t, n)
  {
    if s == "" || t == "" || s[0] != t[0] then 0
    else
      var n := Agree(s[1..], t[1..]);
      assert s[..n + 1] == [s[0]] + s[1..][..n] && t[..n + 1] == [t[0]] + t[1..][..n];
      n + 1
  }

  // The order on keys: a proper prefix comes first, otherwise the first difference decides.
  lemma KeyOrderExactly(s: string, t: string)
    ensures KeyLess(s, t) <==> Earlier(s, t)
  {
    if KeyLess(s, t) {
      KeyLessAt(s, t, Agree(s, t));
    }
    if n :| EarlierAt(s, t, n) {
      KeyLessAt(s, t, n);
    }
  }

  // A dict is printed with its members in that order, each of them once.
  lemma {:induction false} MembersInOrder(ms: seq<Member>)
    requires MembersWellFormed(ms)
    ensures var r := SortMembers(ms);
      Serialize(Obj(ms)) == "{" + SerializeMembers(r) + "}" && multiset(r) == multiset(ms)
      && forall i, j :: 0 <= i < j < |r| ==> Earlier(r[i].key, r[j].key)
  {
    hide KeyLess, Earlier;
    SortFacts(ms);
    var r := SortMembers(ms);
    forall i, j | 0 <= i < j < |r|
      ensures Earlier(r[i].key, r[j].key)
    {
      AscendingPairs(r, i, j);
      KeyOrderExactly(r[i].key, r[j].key);
    }
  }

  lemma {:induction false} AscendingPairs(ms: seq<Member>, i: nat, j: nat)
    requires i < j < |ms| && Ascending(ms)
    ensures KeyLess(ms[i].key, ms[j].key)
  {
    hide KeyLess;
    if i > 0 {
      AscendingPairs(ms[1..], i - 1, j - 1);
    } else {
      KeyIsMeant(ms[1..], j - 1);
    }
  }

  lemma {:induction false} KeyIsMeant(ms: seq<Member>, j: nat)
    requires j < |ms|
    ensures ms[j].key in MemberMeanings(ms)
  {
    if j > 0 {
      KeyIsMeant(ms[1..], j - 1);
    }
  }

  // Nothing stands between the items, and a comma between two.
  lemma {:induction false} ItemsJoined(items: seq<Json>, last: Json)
    requires items != []
    ensures SerializeItems(items + [last]) == SerializeItems(items) + "," + Serialize(last)
  {
    hide Serialize;
    if |items| == 1 {
      assert (items + [last])[1..] == [last];
    } else {
      assert (items + [last])[1..] == items[1..] + [last];
      ItemsJoined(items[1..], last);
    }
  }

  lemma {:induction false} MembersJoined(ms: seq<Member>, last: Member)
    requires ms != []
    ensures SerializeMembers(ms + [last]) == SerializeMembers(ms) + "," + SerializeMembers([last])
  {
    hide Serialize, Quote;
    if |ms| == 1 {
      assert (ms + [last])[1..] == [last];
    } else {
      assert (ms + [last])[1..] == ms[1..] + [last];
      MembersJoined(ms[1..], last);
    }
  }

  lemma OneMember(m: Member)
    ensures SerializeMembers([m]) == Quote(m.key) + ":" + Serialize(m.value)
    ensures SerializeItems([m.value]) == Serialize(m.value)
  {
    hide Serialize, Quote;
  }

  const SHORT := map[
    '"' := '"', '\\' := '\\', '\U{8}' := 'b', '\U{C}' := 'f', '\n' := 'n', '\r' := 'r', '\t' := 't'
  ]

  // Seven characters have a short escape, the other control characters a long one, all else stands for itself.
  lemma EscapesExactly(c: char)
    ensures EscapeChar(c) ==
      if c in SHORT then ['\\', SHORT[c]]
      else if c as int < 0x20 then "\\u00" + ["0123456789abcdef"[c as int / 16], "0123456789abcdef"[c as int % 16]]
      else [c]
  {
  }

  // Integers have no leading zero and no sign but the minus of a negative one.
  lemma DecimalExactly(n: int)
    ensures n < 0 ==> Decimal(n) == "-" + Decimal(-n)
    ensures n == 0 ==> Decimal(n) == "0"
    ensures n > 0 ==> |Decimal(n)| >= 1 && '1' <= Decimal(n)[0] <= '9'
    ensures n > 0 ==> forall i :: 0 <= i < |Decimal(n)| ==> '0' <= Decimal(n)[i] <= '9'
  {
    if n > 0 {
      DigitsExactly(n);
    }
  }

  lemma {:induction false} DigitsExactly(n: nat)
    requires n > 0
    ensures |Digits(n)| >= 1 && '1' <= Digits(n)[0] <= '9'
    ensures forall i :: 0 <= i < |Digits(n)| ==> '0' <= Digits(n)[i] <= '9'
  {
    if n >= 10 {
      DigitsExactly(n / 10);
    }
  }
}
