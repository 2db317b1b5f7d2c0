/** S3's variant of query escaping (cmd/api-utils.go): `/` and `*` stay as they are,
    `~` is escaped, a space becomes `+`, every other reserved byte becomes %XX. */
module S3UrlEncode {
  import opened Basics

  type Byte = x: int | 0 <= x < 256

  const SPACE: Byte := 0x20
  const PLUS: Byte := 0x2B
  const PERCENT: Byte := 0x25

  /** Size of the buffer that spares an allocation for short results. */
  const STACK_BUFFER := 64

  predicate ShouldEscape(c: Byte) {
    if 0x41 <= c <= 0x5A || 0x61 <= c <= 0x7A || 0x30 <= c <= 0x39 then false  // A-Z a-z 0-9
    else c !in {0x2D, 0x5F, 0x2E, 0x2F, 0x2A}                                 // - _ . / *
  }

  /** The digits "0123456789ABCDEF". */
  function HexDigit(n: Byte): Byte
    requires n < 16
  {
    if n < 10 then 0x30 + n else 0x41 + (n - 10)
  }

  // The byte-by-byte meaning of the encoding.

  function EncodeByte(c: Byte): seq<Byte> {
    if c == SPACE then [PLUS]
    else if ShouldEscape(c) then [PERCENT, HexDigit(c / 16), HexDigit(c % 16)]
    else [c]
  }

  function Encode(s: seq<Byte>): seq<Byte> {
    if s == [] then [] else EncodeByte(s[0]) + Encode(s[1..])
  }

  // What that is, in characters.

  const HEX := "0123456789ABCDEF"

  predicate StaysItself(c: Byte) {
    var x := c as char;
    'A' <= x <= 'Z' || 'a' <= x <= 'z' || '0' <= x <= '9'
    || x == '-' || x == '_' || x == '.' || x == '/' || x == '*'
  }

  /** `t` stands for the byte `c`: itself, a plus sign for a space, or a percent sign and two
      hexadecimal digits whose value it is. */
  ghost predicate StandsFor(t: seq<Byte>, c: Byte) {
    if StaysItself(c) then t == [c]
    else if c as char == ' ' then |t| == 1 && t[0] as char == '+'
    else
      && |t| == 3 && t[0] as char == '%'
      && exists hi, lo :: IsHex(t[1], hi) && IsHex(t[2], lo) && 16 * hi + lo == c
  }

  predicate IsHex(c: Byte, value: int) {
    0 <= value < 16 && HEX[value] == c as char
  }

  /** `t` falls into pieces that stand for the bytes of `s`, in order. */
  ghost predicate StandsForAll(t: seq<Byte>, s: seq<Byte>) {
    if s == [] then t == []
    else exists k :: 0 <= k <= |t| && StandsFor(t[..k], s[0]) && StandsForAll(t[k..], s[1..])
  }

  lemma HexDigitIs(n: Byte, d: Byte)
    requires n < 16
    ensures HexDigit(n) == d <==> IsHex(d, n)
  {
    assert n in {0, 1, 2, 3, 4, 5, 6, 7, 8, 9, 10, 11, 12, 13, 14, 15};
  }

  lemma EscapedUnlessItself(c: Byte)
    ensures ShouldEscape(c) <==> !StaysItself(c)
    ensures c == SPACE <==> c as char == ' '
    ensures c == PLUS <==> c as char == '+'
    ensures c == PERCENT <==> c as char == '%'
  {
  }

  /** `EncodeByte` gives the one thing that stands for a byte. */
  lemma EncodeByteExact(c: Byte, t: seq<Byte>)
    ensures StandsFor(t, c) <==> t == EncodeByte(c)
  {
    EscapedUnlessItself(c);
    if |t| > 0 {
      EscapedUnlessItself(t[0]);
    }
    hide ShouldEscape, StaysItself, HexDigit, IsHex;
    if |t| == 3 {
      HexPairExact(c, t[1], t[2]);
    }
  }

  lemma HexPairExact(c: Byte, x: Byte, y: Byte)
    ensures (exists hi, lo :: IsHex(x, hi) && IsHex(y, lo) && 16 * hi + lo == c) <==> HexDigit(c / 16) == x && HexDigit(c % 16) == y
  {
    HexDigitIs(c / 16, x);
    HexDigitIs(c % 16, y);
    hide HexDigit, IsHex;
    if hi, lo :| IsHex(x, hi) && IsHex(y, lo) && 16 * hi + lo == c {
      HexRange(x, hi);
      HexRange(y, lo);
      assert hi == c / 16 && lo == c % 16;
    }
    assert 16 * (c / 16) + c % 16 == c;
  }

  lemma HexRange(c: Byte, value: int)
    requires IsHex(c, value)
    ensures 0 <= value < 16
  {
  }

  lemma {:induction false} EncodeExact(s: seq<Byte>, t: seq<Byte>)
    ensures StandsForAll(t, s) <==> t == Encode(s)
    decreases |s|
  {
    if s != [] {
      var head, rest := EncodeByte(s[0]), Encode(s[1..]);
      assert Encode(s) == head + rest;
      hide EncodeByte, StandsFor, Encode;
      if t == head + rest {
        EncodeByteExact(s[0], head);
        EncodeExact(s[1..], rest);
        FirstPiece(t, |head|, head, rest, s);
      }
      if StandsForAll(t, s) {
        var k :| 0 <= k <= |t| && StandsFor(t[..k], s[0]) && StandsForAll(t[k..], s[1..]);
        hide StandsForAll;
        EncodeByteExact(s[0], t[..k]);
        EncodeExact(s[1..], t[k..]);
        assert t == t[..k] + t[k..];
      }
    }
  }

  lemma FirstPiece(t: seq<Byte>, k: nat, head: seq<Byte>, rest: seq<Byte>, s: seq<Byte>)
    requires s != [] && k == |head| && t == head + rest && StandsFor(head, s[0]) && StandsForAll(rest, s[1..])
    ensures StandsForAll(t, s)
  {
    hide StandsFor;
    assert t[..k] == head && t[k..] == rest;
  }

  lemma {:induction false} EncodeConcat(a: seq<Byte>, b: seq<Byte>)
    ensures Encode(a + b) == Encode(a) + Encode(b)
  {
    if a == [] {
      assert a + b == b;
    } else {
      assert Encode(a + b) == EncodeByte(a[0]) + Encode(a[1..] + b) by {
        assert (a + b)[1..] == a[1..] + b;
      }
      assert Encode(a) == EncodeByte(a[0]) + Encode(a[1..]);
      hide Encode, EncodeByte;
      EncodeConcat(a[1..], b);
      Assoc(EncodeByte(a[0]), Encode(a[1..]), Encode(b));
    }
  }

  lemma EncodePrefixStep(s: seq<Byte>, i: nat)
    requires i < |s|
    ensures Encode(s[..i + 1]) == Encode(s[..i]) + EncodeByte(s[i])
  {
    assert s[..i + 1] == s[..i] + [s[i]];
    EncodeConcat(s[..i], [s[i]]);
    assert Encode([s[i]]) == EncodeByte(s[i]);
  }

  // The inverse: `+` and %XX as in section 2.1 of RFC 3986, hex digits in either case.

  function HexValue(c: Byte): Option<Byte> {
    if 0x30 <= c <= 0x39 then Some(c - 0x30)
    else if 0x41 <= c <= 0x46 then Some(c - 0x41 + 10)
    else if 0x61 <= c <= 0x66 then Some(c - 0x61 + 10)
    else None
  }

  function Decode(t: seq<Byte>): Option<seq<Byte>> {
    if t == [] then Some([])
    else if t[0] == PERCENT then
      if |t| < 3 || HexValue(t[1]).None? || HexValue(t[2]).None? then None
      else Cons(16 * HexValue(t[1]).value + HexValue(t[2]).value, Decode(t[3..]))
    else Cons(if t[0] == PLUS then SPACE else t[0], Decode(t[1..]))
  }

  function Cons(b: int, rest: Option<seq<Byte>>): Option<seq<Byte>> {
    if rest.None? || !(0 <= b < 256) then None else Some([b] + rest.value)
  }

  lemma HexDigitValue(n: Byte)
    requires n < 16
    ensures HexValue(HexDigit(n)) == Some(n) && HexDigit(n) != PERCENT && HexDigit(n) != PLUS
  {
  }

  lemma DecodeFirst(c: Byte, t: seq<Byte>)
    ensures Decode(EncodeByte(c) + t) == Cons(c, Decode(t))
  {
    var head := EncodeByte(c);
    assert (head + t)[|head|..] == t;
    if c != SPACE && ShouldEscape(c) {
      HexDigitValue(c / 16);
      HexDigitValue(c % 16);
      hide HexValue, HexDigit;
    }
  }

  lemma {:induction false} DecodeEncode(s: seq<Byte>)
    ensures Decode(Encode(s)) == Some(s)
  {
    if s != [] {
      hide Decode, EncodeByte;
      DecodeEncode(s[1..]);
      DecodeFirst(s[0], Encode(s[1..]));
      assert s == [s[0]] + s[1..];
    }
  }

  lemma EncodeInjective(s: seq<Byte>, t: seq<Byte>)
    requires Encode(s) == Encode(t)
    ensures s == t
  {
    DecodeEncode(s);
    DecodeEncode(t);
  }

  /** What an encoded name looks like: characters that stay, plus signs, and a percent sign
      with two digits that stand for a byte. */
  ghost predicate Canonical(t: seq<Byte>) {
    if t == [] then true
    else if t[0] as char == '%' then |t| >= 3 && (exists c :: StandsFor(t[..3], c)) && Canonical(t[3..])
    else (t[0] as char == '+' || StaysItself(t[0])) && Canonical(t[1..])
  }

  /** The canonical strings are exactly the encoder's outputs. */
  lemma {:induction false} CanonicalIsImage(t: seq<Byte>)
    ensures Canonical(t) <==> exists s :: Encode(s) == t
  {
    if Canonical(t) {
      var s := CanonicalDecodes(t);
    }
    forall s | Encode(s) == t
      ensures Canonical(t)
    {
      EncodeIsCanonical(s);
    }
  }

  lemma CanonicalFirst(c: Byte, t: seq<Byte>)
    ensures Canonical(EncodeByte(c) + t) <==> Canonical(t)
  {
    var head := EncodeByte(c);
    assert (head + t)[|head|..] == t && (head + t)[..|head|] == head;
    EncodeByteExact(c, head);
    EscapedUnlessItself(c);
    EscapedUnlessItself(head[0]);
    hide HexDigit, StaysItself, ShouldEscape, StandsFor;
  }

  lemma {:induction false} EncodeIsCanonical(s: seq<Byte>)
    ensures Canonical(Encode(s))
  {
    if s != [] {
      EncodeIsCanonical(s[1..]);
      CanonicalFirst(s[0], Encode(s[1..]));
      hide EncodeByte, Canonical;
    }
  }

  lemma {:induction false} CanonicalDecodes(t: seq<Byte>) returns (s: seq<Byte>)
    requires Canonical(t)
    ensures Encode(s) == t
  {
    if t == [] {
      s := [];
    } else if t[0] as char == '%' {
      var rest := CanonicalDecodes(t[3..]);
      var c :| StandsFor(t[..3], c);
      EncodeByteExact(c, t[..3]);
      s := [c] + rest;
      EncodeCons(c, rest);
      assert t == t[..3] + t[3..];
    } else {
      var rest := CanonicalDecodes(t[1..]);
      var c := if t[0] == PLUS then SPACE else t[0];
      s := [c] + rest;
      EscapedUnlessItself(t[0]);
      EncodeByteExact(c, t[..1]);
      EncodeCons(c, rest);
      assert t == t[..1] + t[1..];
    }
  }

  lemma EncodeCons(c: Byte, s: seq<Byte>)
    ensures Encode([c] + s) == EncodeByte(c) + Encode(s)
  {
    assert ([c] + s)[1..] == s;
  }

  // The two-pass encoder.

  /** Number of bytes of `s` that become %XX. */
  function HexCount(s: seq<Byte>): nat {
    if s == [] then 0
    else (if s[0] != SPACE && ShouldEscape(s[0]) then 1 else 0) + HexCount(s[1..])
  }

  lemma {:induction false} EncodeLength(s: seq<Byte>)
    ensures |Encode(s)| == |s| + 2 * HexCount(s)
  {
    if s != [] {
      EncodeLength(s[1..]);
    }
  }

  lemma {:induction false} HexCountConcat(a: seq<Byte>, b: seq<Byte>)
    ensures HexCount(a + b) == HexCount(a) + HexCount(b)
  {
    if a == [] {
      assert a + b == b;
    } else {
      HexCountConcat(a[1..], b);
      assert (a + b)[1..] == a[1..] + b;
    }
  }

  lemma HexCountPrefix(s: seq<Byte>, i: nat)
    requires i < |s|
    ensures HexCount(s[..i + 1]) == HexCount(s[..i]) + HexCount([s[i]])
    ensures HexCount(s[..i + 1]) <= HexCount(s)
  {
    assert s[..i + 1] == s[..i] + [s[i]];
    HexCountConcat(s[..i], [s[i]]);
    assert s == s[..i + 1] + s[i + 1..];
    HexCountConcat(s[..i + 1], s[i + 1..]);
  }

  lemma {:induction false} NothingToHexEncode(s: seq<Byte>)
    requires HexCount(s) == 0
    ensures |Encode(s)| == |s|
    ensures forall i :: 0 <= i < |s| ==> Encode(s)[i] == (if s[i] == SPACE then PLUS else s[i])
  {
    if s != [] {
      NothingToHexEncode(s[1..]);
    }
  }

  /** First pass: how many spaces and how many other bytes need escaping. */
  method CountEscapes(s: seq<Byte>) returns (spaceCount: nat, hexCount: nat)
    ensures hexCount == HexCount(s)
    ensures spaceCount == 0 <==> SPACE !in s
  {
    spaceCount, hexCount := 0, 0;
    assert s[..0] == [];
    for i := 0 to |s|
      invariant hexCount == HexCount(s[..i])
      invariant spaceCount == 0 <==> SPACE !in s[..i]
    {
      HexCountPrefix(s, i);
      assert s[..i + 1] == s[..i] + [s[i]];
      if ShouldEscape(s[i]) {
        if s[i] == SPACE {
          spaceCount := spaceCount + 1;
        } else {
          hexCount := hexCount + 1;
        }
      }
    }
    assert s[..|s|] == s;
  }

  /** Second pass for names with something to hex-encode. */
  method FillEscaped(s: seq<Byte>, t: array<Byte>)
    requires |s| + 2 * HexCount(s) <= t.Length
    modifies t
    ensures t[..|s| + 2 * HexCount(s)] == Encode(s)
  {
    var j: nat := 0;
    EncodeLength(s);
    EncodeLength(s[..0]);
    hide Encode, HexCount, EncodeByte;
    for i := 0 to |s|
      invariant j == |Encode(s[..i])| == i + 2 * HexCount(s[..i])
      invariant j <= t.Length
      invariant t[..j] == Encode(s[..i])
    {
      HexCountPrefix(s, i);
      EncodePrefixStep(s, i);
      EncodeLength(s[..i + 1]);
      j := PutByte(t, j, s[i]);
    }
    assert s[..|s|] == s;
  }

  method PutByte(t: array<Byte>, j: nat, c: Byte) returns (j': nat)
    requires j + |EncodeByte(c)| <= t.Length
    modifies t
    ensures j' == j + |EncodeByte(c)| && t[..j'] == old(t[..j]) + EncodeByte(c)
  {
    if c == SPACE {
      t[j] := PLUS;
      j' := j + 1;
    } else if ShouldEscape(c) {
      t[j] := PERCENT;
      t[j + 1] := HexDigit(c / 16);
      t[j + 2] := HexDigit(c % 16);
      j' := j + 3;
    } else {
      t[j] := c;
      j' := j + 1;
    }
  }

  /** Second pass for names whose only escapes are spaces. */
  method FillSpaces(s: seq<Byte>, t: array<Byte>)
    requires HexCount(s) == 0 && |s| <= t.Length
    modifies t
    ensures t[..|s|] == Encode(s)
  {
    for i := 0 to |s|  // copy(t, s)
      invariant forall k :: 0 <= k < i ==> t[k] == s[k]
    {
      t[i] := s[i];
    }
    for i := 0 to |s|
      invariant forall k :: 0 <= k < i ==> t[k] == if s[k] == SPACE then PLUS else s[k]
      invariant forall k :: i <= k < |s| ==> t[k] == s[k]
    {
      if s[i] == SPACE {
        t[i] := PLUS;
      }
    }
    NothingToHexEncode(s);
  }

  /** All three paths (nothing to do, spaces only, hex) compute `Encode`. */
  method S3UrlEncoded(s: seq<Byte>) returns (r: seq<Byte>)
    ensures StandsForAll(r, s)
    ensures r == Encode(s)
    ensures Decode(r) == Some(s)
  {
    hide StandsForAll, Decode, Encode;
    DecodeEncode(s);
    EncodeExact(s, Encode(s));
    var spaceCount, hexCount := CountEscapes(s);
    if spaceCount == 0 && hexCount == 0 {
      NothingToHexEncode(s);
      assert s == Encode(s);
      return s;
    }
    var required := |s| + 2 * hexCount;
    var t := new Byte[if required <= STACK_BUFFER then STACK_BUFFER else required];
    if hexCount == 0 {
      FillSpaces(s, t);
    } else {
      FillEscaped(s, t);
    }
    return t[..required];
  }
}
