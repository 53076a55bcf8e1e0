/** escapeJSONStrings against the string grammar of section 7 of RFC 8259. */
module JsonEscape {
  import opened Text

  type Byte = b: int | 0 <= b < 256

  const QUOTE: Byte := 0x22
  const BACKSLASH: Byte := 0x5C

  /** A hexadecimal digit as std::hex prints it. */
  function HexChar(d: int): Byte
    requires 0 <= d < 16
  {
    if d < 10 then 0x30 + d else 0x61 + d - 10
  }

  function EscapeByte(c: Byte): seq<Byte> {
    if c == QUOTE then [BACKSLASH, QUOTE]
    else if c == BACKSLASH then [BACKSLASH, BACKSLASH]
    else if c == 0x08 then [BACKSLASH, 0x62]
    else if c == 0x0C then [BACKSLASH, 0x66]
    else if c == 0x0A then [BACKSLASH, 0x6E]
    else if c == 0x0D then [BACKSLASH, 0x72]
    else if c == 0x09 then [BACKSLASH, 0x74]
    else if c <= 0x1F then [BACKSLASH, 0x75, 0x30, 0x30, HexChar(c / 16), HexChar(c % 16)]
    else [c]
  }

  function Escape(s: seq<Byte>): seq<Byte> {
    if s == [] then [] else Escape(s[..|s| - 1]) + EscapeByte(s[|s| - 1])
  }

  method EscapeJsonStrings(s: seq<Byte>) returns (r: seq<Byte>)
    ensures r == Escape(s)
    ensures Decode(r) == Some(s)
  {
    r := [];
    for i := 0 to |s|
      invariant r == Escape(s[..i])
    {
      assert s[..i + 1][..i] == s[..i];
      r := r + EscapeByte(s[i]);
    }
    assert s[..|s|] == s;
    DecodeEscape(s);
  }

  // ----- the grammar --------------------------------------------------------------------------

  function HexValue(b: Byte): int {
    if 0x30 <= b <= 0x39 then b - 0x30
    else if 0x41 <= b <= 0x46 then b - 0x41 + 10
    else if 0x61 <= b <= 0x66 then b - 0x61 + 10
    else -1
  }

  function Hex4(a: Byte, b: Byte, c: Byte, d: Byte): int {
    if HexValue(a) < 0 || HexValue(b) < 0 || HexValue(c) < 0 || HexValue(d) < 0 then -1
    else ((HexValue(a) * 16 + HexValue(b)) * 16 + HexValue(c)) * 16 + HexValue(d)
  }

  /** UTF-8 of a code point below 0x10000 that is no surrogate. */
  function Utf8(u: int): Option<seq<Byte>>
    requires 0 <= u < 0x10000
  {
    if u < 0x80 then Some([u])
    else if u < 0x800 then Some([0xC0 + u / 64, 0x80 + u % 64])
    else if 0xD800 <= u < 0xE000 then None
    else Some([0xE0 + u / 4096, 0x80 + u / 64 % 64, 0x80 + u % 64])
  }

  /** One character of a JSON string: its bytes and how many bytes of the text it took; None when the
      text is not legal here -- a bare quote, a control character, or a broken escape. */
  function DecodeOne(s: seq<Byte>): (r: Option<(seq<Byte>, nat)>)
    requires s != []
    ensures r.Some? ==> 0 < r.value.1 <= |s|
  {
    if s[0] < 0x20 || s[0] == QUOTE then None
    else if s[0] != BACKSLASH then Some(([s[0]], 1))
    else if |s| < 2 then None
    else if s[1] == QUOTE || s[1] == BACKSLASH || s[1] == 0x2F then Some(([s[1]], 2))
    else if s[1] == 0x62 then Some(([0x08], 2))
    else if s[1] == 0x66 then Some(([0x0C], 2))
    else if s[1] == 0x6E then Some(([0x0A], 2))
    else if s[1] == 0x72 then Some(([0x0D], 2))
    else if s[1] == 0x74 then Some(([0x09], 2))
    else if s[1] == 0x75 && |s| >= 6 && Hex4(s[2], s[3], s[4], s[5]) >= 0 then
      HexIsSmall(s[2], s[3], s[4], s[5]);
      var u := Utf8(Hex4(s[2], s[3], s[4], s[5]));
      if u.None? then None else Some((u.value, 6))
    else None
  }

  lemma HexIsSmall(a: Byte, b: Byte, c: Byte, d: Byte)
    ensures Hex4(a, b, c, d) < 0x10000
  {
  }

  /** The value of the content of a JSON string, None when it is not legal content. */
  function Decode(s: seq<Byte>): Option<seq<Byte>>
    decreases |s|
  {
    if s == [] then Some([])
    else
      var one := DecodeOne(s);
      if one.None? then None
      else
        var rest := Decode(s[one.value.1..]);
        if rest.None? then None else Some(one.value.0 + rest.value)
  }

  lemma OneByte(c: Byte, rest: seq<Byte>)
    ensures EscapeByte(c) + rest != []
    ensures DecodeOne(EscapeByte(c) + rest) == Some(([c], |EscapeByte(c)|))
  {
    var e := EscapeByte(c);
    var s := e + rest;
    assert forall i :: 0 <= i < |e| ==> s[i] == e[i];
  }

  lemma {:induction false} EscapeFirst(s: seq<Byte>)
    requires s != []
    ensures Escape(s) == EscapeByte(s[0]) + Escape(s[1..])
  {
    if |s| > 1 {
      var init := s[..|s| - 1];
      EscapeFirst(init);
      assert init[1..] == s[1..][..|s| - 2];
    } else {
      assert s[..0] == [] && s[1..] == [];
      assert Escape(s) == [] + EscapeByte(s[0]);
    }
  }

  /** Escaped text is legal JSON string content and decodes to the original, for all bytes. */
  lemma {:induction false} DecodeEscape(s: seq<Byte>)
    ensures Decode(Escape(s)) == Some(s)
  {
    if s != [] {
      EscapeFirst(s);
      var rest := Escape(s[1..]);
      OneByte(s[0], rest);
      DecodeEscape(s[1..]);
      assert (EscapeByte(s[0]) + rest)[|EscapeByte(s[0])|..] == rest;
      assert [s[0]] + s[1..] == s;
    }
  }

  lemma EscapeIsInjective(s: seq<Byte>, t: seq<Byte>)
    requires Escape(s) == Escape(t)
    ensures s == t
  {
    DecodeEscape(s);
    DecodeEscape(t);
  }
}
