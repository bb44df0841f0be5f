/** Vocabulary shared by the other modules: results, bytes, and UTF-8 as `str.encode` writes it. */
module Bytes {

  datatype Option<+T> = None | Some(value: T)

  datatype Result<+T, +E> = Ok(value: T) | Err(error: E)

  predicate Distinct<T(==)>(s: seq<T>) {
    forall i, j :: 0 <= i < j < |s| ==> s[i] != s[j]
  }

  type Byte = b: int | 0 <= b < 256

  // UTF-8 of one Unicode scalar value (RFC 3629, section 3).
  function EncodeChar(c: char): (bs: seq<Byte>)
    ensures 1 <= |bs| <= 4
  {
    var u := c as int;
    var v := u / 0x40;
    var w := v / 0x40;
    if u < 0x80 then [u]
    else if u < 0x800 then [0xC0 + v, 0x80 + u % 0x40]
    else if u < 0x10000 then [0xE0 + w, 0x80 + v % 0x40, 0x80 + u % 0x40]
    else [0xF0 + w / 0x40, 0x80 + w % 0x40, 0x80 + v % 0x40, 0x80 + u % 0x40]
  }

  function Utf8(s: string): seq<Byte> {
    if s == "" then [] else EncodeChar(s[0]) + Utf8(s[1..])
  }

  // How long the sequence is that a lead byte announces.
  function SequenceLength(lead: Byte): (n: nat)
    ensures 1 <= n <= 4
  {
    if lead < 0xC0 then 1 else if lead < 0xE0 then 2 else if lead < 0xF0 then 3 else 4
  }

  // Distinct characters have distinct encodings, and no encoding is a proper prefix of another.
  lemma EncodeCharPrefixFree(c: char, d: char, x: seq<Byte>, y: seq<Byte>)
    requires EncodeChar(c) + x == EncodeChar(d) + y
    ensures c == d && x == y
  {
    var a, b := EncodeChar(c), EncodeChar(d);
    assert a[0] == (a + x)[0] == (b + y)[0] == b[0];
    assert |a| == SequenceLength(a[0]) == |b|;
    assert a == (a + x)[..|a|] == (b + y)[..|b|] == b;
    assert x == (a + x)[|a|..] == (b + y)[|b|..] == y;
    SameEncoding(c, d);
  }

  lemma SameEncoding(c: char, d: char)
    requires EncodeChar(c) == EncodeChar(d)
    ensures c == d
  {
    var a, b := EncodeChar(c), EncodeChar(d);
    assert |a| == |b| && forall i :: 0 <= i < |a| ==> a[i] == b[i];
    var u, v := c as int, d as int;
    assert u == v by {
      if |a| == 1 {
        assert a[0] == b[0];
      } else if |a| == 2 {
        assert a[0] == b[0] && a[1] == b[1];
      } else if |a| == 3 {
        assert a[0] == b[0] && a[1] == b[1] && a[2] == b[2];
        assert u / 0x40 == v / 0x40;
      } else {
        assert a[0] == b[0] && a[1] == b[1] && a[2] == b[2] && a[3] == b[3];
        assert u / 0x40 / 0x40 == v / 0x40 / 0x40;
        assert u / 0x40 == v / 0x40;
      }
    }
  }

  // The shortest form, its bits highest first: a lead byte, then bytes that carry six bits each.
  lemma EncodeCharExactly(c: char)
    ensures var u, b := c as int, EncodeChar(c);
      |b| == (if u < 0x80 then 1 else if u < 0x800 then 2 else if u < 0x1_0000 then 3 else 4)
      && (forall i :: 1 <= i < |b| ==> 0x80 <= b[i] < 0xC0)
      && (|b| == 1 ==> u == b[0])
      && (|b| == 2 ==> u == 0x40 * (b[0] as int - 0xC0) + (b[1] as int - 0x80))
      && (|b| == 3 ==> u == 0x1000 * (b[0] as int - 0xE0) + 0x40 * (b[1] as int - 0x80) + (b[2] as int - 0x80))
      && (|b| == 4 ==> u == 0x4_0000 * (b[0] as int - 0xF0) + 0x1000 * (b[1] as int - 0x80) + 0x40 * (b[2] as int - 0x80) + (b[3] as int - 0x80))
  {
  }

  lemma {:induction false} Utf8Append(s: string, c: char)
    ensures Utf8(s + [c]) == Utf8(s) + EncodeChar(c)
  {
    if s == "" {
      assert s + [c] == [c];
    } else {
      assert (s + [c])[1..] == s[1..] + [c];
      Utf8Append(s[1..], c);
    }
  }

  // Encoding text as UTF-8 loses nothing.
  lemma {:induction false} Utf8Injective(s: string, t: string)
    ensures Utf8(s) == Utf8(t) <==> s == t
  {
    if Utf8(s) == Utf8(t) && s != "" && t != "" {
      EncodeCharPrefixFree(s[0], t[0], Utf8(s[1..]), Utf8(t[1..]));
      Utf8Injective(s[1..], t[1..]);
    }
  }
}
