/** The `application/x-www-form-urlencoded` serializer and parser of the WHATWG URL
    Standard (sections 5.1 and 5.2), which `URLSearchParams.toString` and
    `URLSearchParams.get` run: strings are UTF-8 encoded, the bytes
    `*-._`, digits and ASCII letters are kept, a space becomes `+`, and every other
    byte becomes `%` followed by two upper-case hexadecimal digits. */
module FormUrlEncoded {
  import opened Results
  import opened JsString

  type Byte = b: int | 0 <= b < 0x100

  /** A query parameter: name and value. */
  type Pair = (string, string)

  predicate IsContinuation(b: Byte) {
    0x80 <= b < 0xC0
  }

  /** UTF-8 encoding of one Unicode scalar value. */
  function Utf8Char(c: char): (r: seq<Byte>)
    ensures 1 <= |r| <= 4
  {
    var n := c as int;
    if n < 0x80 then [n]
    else if n < 0x800 then [0xC0 + n / 0x40, 0x80 + n % 0x40]
    else if n < 0x10000 then [0xE0 + n / 0x1000, 0x80 + n / 0x40 % 0x40, 0x80 + n % 0x40]
    else [0xF0 + n / 0x40000, 0x80 + n / 0x1000 % 0x40, 0x80 + n / 0x40 % 0x40, 0x80 + n % 0x40]
  }

  function Utf8Encode(s: string): seq<Byte> {
    if |s| == 0 then [] else Utf8Char(s[0]) + Utf8Encode(s[1..])
  }

  /** Decodes the first UTF-8 sequence of `bs` into a scalar value and the number of
      bytes it took; an overlong form, a surrogate or a truncated or stray byte is
      rejected. */
  function DecodeChar(bs: seq<Byte>): (r: Option<(char, nat)>)
    requires |bs| > 0
    ensures r.Some? ==> 1 <= r.value.1 <= |bs|
  {
    var b0: int := bs[0];
    if b0 < 0x80 then Some((b0 as char, 1))
    else if 0xC2 <= b0 < 0xE0 && |bs| >= 2 && IsContinuation(bs[1]) then
      Some((((b0 - 0xC0) * 0x40 + (bs[1] as int - 0x80)) as char, 2))
    else if 0xE0 <= b0 < 0xF0 && |bs| >= 3 && IsContinuation(bs[1]) && IsContinuation(bs[2]) then
      var n := (b0 - 0xE0) * 0x1000 + (bs[1] as int - 0x80) * 0x40 + (bs[2] as int - 0x80);
      if 0x800 <= n && !(0xD800 <= n < 0xE000) then Some((n as char, 3)) else None
    else if 0xF0 <= b0 < 0xF5 && |bs| >= 4
            && IsContinuation(bs[1]) && IsContinuation(bs[2]) && IsContinuation(bs[3]) then
      var n := (b0 - 0xF0) * 0x40000 + (bs[1] as int - 0x80) * 0x1000
               + (bs[2] as int - 0x80) * 0x40 + (bs[3] as int - 0x80);
      if 0x10000 <= n < 0x110000 then Some((n as char, 4)) else None
    else None
  }

  /** UTF-8 decoding of a whole byte sequence, or None when it is malformed. */
  function Utf8Decode(bs: seq<Byte>): Option<string>
    decreases |bs|
  {
    if |bs| == 0 then Some("")
    else match DecodeChar(bs)
      case None => None
      case Some((c, k)) =>
        match Utf8Decode(bs[k..])
        case None => None
        case Some(rest) => Some([c] + rest)
  }

  lemma DecodeEncodedChar(c: char, rest: seq<Byte>)
    ensures DecodeChar(Utf8Char(c) + rest) == Some((c, |Utf8Char(c)|))
  {
    var n := c as int;
    if n < 0x80 {
    } else if n < 0x800 {
      DecodeTwoBytes(c, rest);
    } else if n < 0x10000 {
      DecodeThreeBytes(c, rest);
    } else {
      DecodeFourBytes(c, rest);
    }
  }

  lemma DecodeTwoBytes(c: char, rest: seq<Byte>)
    requires 0x80 <= c as int < 0x800
    ensures DecodeChar(Utf8Char(c) + rest) == Some((c, 2))
  {
    var n := c as int;
    var bs := Utf8Char(c) + rest;
    assert bs[0] == 0xC0 + n / 0x40 && bs[1] == 0x80 + n % 0x40;
    assert (n / 0x40) * 0x40 + n % 0x40 == n;
  }

  lemma DecodeThreeBytes(c: char, rest: seq<Byte>)
    requires 0x800 <= c as int < 0x10000
    ensures DecodeChar(Utf8Char(c) + rest) == Some((c, 3))
  {
    var n := c as int;
    var bs := Utf8Char(c) + rest;
    assert bs[0] == 0xE0 + n / 0x1000 && bs[1] == 0x80 + n / 0x40 % 0x40 && bs[2] == 0x80 + n % 0x40;
    assert (n / 0x1000) * 0x40 + n / 0x40 % 0x40 == n / 0x40;
    assert (n / 0x40) * 0x40 + n % 0x40 == n;
  }

  lemma DecodeFourBytes(c: char, rest: seq<Byte>)
    requires 0x10000 <= c as int
    ensures DecodeChar(Utf8Char(c) + rest) == Some((c, 4))
  {
    var n := c as int;
    var bs := Utf8Char(c) + rest;
    assert bs[0] == 0xF0 + n / 0x40000 && bs[1] == 0x80 + n / 0x1000 % 0x40;
    assert bs[2] == 0x80 + n / 0x40 % 0x40 && bs[3] == 0x80 + n % 0x40;
    assert (n / 0x40000) * 0x40 + n / 0x1000 % 0x40 == n / 0x1000;
    assert (n / 0x1000) * 0x40 + n / 0x40 % 0x40 == n / 0x40;
    assert (n / 0x40) * 0x40 + n % 0x40 == n;
  }

  /** UTF-8 decoding inverts UTF-8 encoding. */
  lemma {:induction false} Utf8RoundTrip(s: string)
    ensures Utf8Decode(Utf8Encode(s)) == Some(s)
    decreases |s|
  {
    if |s| > 0 {
      var bs := Utf8Encode(s);
      DecodeEncodedChar(s[0], Utf8Encode(s[1..]));
      assert bs[|Utf8Char(s[0])|..] == Utf8Encode(s[1..]);
      Utf8RoundTrip(s[1..]);
      assert [s[0]] + s[1..] == s;
    }
  }

  lemma {:induction false} Utf8EncodeAppend(a: string, b: string)
    ensures Utf8Encode(a + b) == Utf8Encode(a) + Utf8Encode(b)
    decreases |a|
  {
    if |a| > 0 {
      assert (a + b)[1..] == a[1..] + b;
      Utf8EncodeAppend(a[1..], b);
    } else {
      assert a + b == b;
    }
  }

  /** The bytes kept as they are by the serializer. */
  predicate Unreserved(b: int) {
    b == 0x2A || b == 0x2D || b == 0x2E || (0x30 <= b <= 0x39) || (0x41 <= b <= 0x5A)
    || b == 0x5F || (0x61 <= b <= 0x7A)
  }

  /** The characters the serializer can emit. */
  predicate IsSerializedChar(c: char) {
    Unreserved(c as int) || c == '+' || c == '%' || c == '=' || c == '&'
  }

  function HexDigit(d: int): (c: char)
    requires 0 <= d < 16
    ensures Unreserved(c as int)
  {
    if d < 10 then ('0' as int + d) as char else ('A' as int + d - 10) as char
  }

  predicate IsHexByte(b: Byte) {
    (0x30 <= b <= 0x39) || (0x41 <= b <= 0x46) || (0x61 <= b <= 0x66)
  }

  function HexValue(b: Byte): (d: int)
    requires IsHexByte(b)
    ensures 0 <= d < 16
  {
    if b <= 0x39 then b - 0x30 else if b <= 0x46 then b - 0x41 + 10 else b - 0x61 + 10
  }

  /** The serialization of one byte. */
  function EncodeByte(b: Byte): (r: string)
    ensures forall i :: 0 <= i < |r| ==> IsSerializedChar(r[i]) && r[i] != '=' && r[i] != '&'
  {
    if b == 0x20 then "+"
    else if Unreserved(b) then [b as char]
    else ['%', HexDigit(b / 16), HexDigit(b % 16)]
  }

  function PercentEncode(bs: seq<Byte>): (r: string)
    ensures forall i :: 0 <= i < |r| ==> IsSerializedChar(r[i]) && r[i] != '=' && r[i] != '&'
  {
    if |bs| == 0 then "" else EncodeByte(bs[0]) + PercentEncode(bs[1..])
  }

  /** The serialization of one name or value. */
  function EncodeComponent(s: string): (r: string)
    ensures forall i :: 0 <= i < |r| ==> IsSerializedChar(r[i]) && r[i] != '=' && r[i] != '&'
  {
    PercentEncode(Utf8Encode(s))
  }

  /** A string of bytes the serializer keeps is its own serialization. */
  lemma {:induction false} EncodeUnreserved(s: string)
    requires forall i :: 0 <= i < |s| ==> Unreserved(s[i] as int)
    ensures EncodeComponent(s) == s
    decreases |s|
  {
    if |s| > 0 {
      EncodeUnreserved(s[1..]);
      assert Utf8Encode(s) == [s[0] as int] + Utf8Encode(s[1..]);
      assert PercentEncode(Utf8Encode(s)) == [s[0]] + PercentEncode(Utf8Encode(s[1..]));
      assert s == [s[0]] + s[1..];
    }
  }

  lemma {:induction false} PercentEncodeAppend(a: seq<Byte>, b: seq<Byte>)
    ensures PercentEncode(a + b) == PercentEncode(a) + PercentEncode(b)
    decreases |a|
  {
    if |a| > 0 {
      assert (a + b)[1..] == a[1..] + b;
      PercentEncodeAppend(a[1..], b);
    } else {
      assert a + b == b;
    }
  }

  /** The serialization of a string is the concatenation of those of its parts. */
  lemma EncodeComponentAppend(a: string, b: string)
    ensures EncodeComponent(a + b) == EncodeComponent(a) + EncodeComponent(b)
  {
    Utf8EncodeAppend(a, b);
    PercentEncodeAppend(Utf8Encode(a), Utf8Encode(b));
  }

  function EncodePair(p: Pair): string {
    EncodeComponent(p.0) + "=" + EncodeComponent(p.1)
  }

  /** `URLSearchParams.toString()`: the serialized pairs joined by `&`, in order. */
  function Serialize(pairs: seq<Pair>): (r: string)
    ensures forall i :: 0 <= i < |r| ==> IsSerializedChar(r[i])
  {
    var pieces := seq(|pairs|, i requires 0 <= i < |pairs| => EncodePair(pairs[i]));
    SerializedPieces(pieces);
    Join(pieces, '&')
  }

  lemma {:induction false} SerializedPieces(xs: seq<string>)
    requires forall i, j :: 0 <= i < |xs| && 0 <= j < |xs[i]| ==> IsSerializedChar(xs[i][j])
    ensures forall j :: 0 <= j < |Join(xs, '&')| ==> IsSerializedChar(Join(xs, '&')[j])
    decreases |xs|
  {
    if |xs| > 1 {
      SerializedPieces(xs[1..]);
      var j := Join(xs[1..], '&');
      assert Join(xs, '&') == xs[0] + ['&'] + j;
      forall k | 0 <= k < |Join(xs, '&')|
        ensures IsSerializedChar(Join(xs, '&')[k])
      {
        if k < |xs[0]| {
        } else if k == |xs[0]| {
        } else {
          assert Join(xs, '&')[k] == j[k - |xs[0]| - 1];
        }
      }
    }
  }

  /** Step 3.3 of the parser: every `+` byte stands for a space. */
  function PlusToSpace(bs: seq<Byte>): (r: seq<Byte>)
    ensures |r| == |bs|
    ensures forall i :: 0 <= i < |bs| ==> r[i] == if bs[i] == 0x2B then 0x20 else bs[i]
  {
    seq(|bs|, i requires 0 <= i < |bs| => if bs[i] == 0x2B then 0x20 else bs[i])
  }

  lemma PlusToSpaceAppend(a: seq<Byte>, b: seq<Byte>)
    ensures PlusToSpace(a + b) == PlusToSpace(a) + PlusToSpace(b)
  {
  }

  /** Percent-decoding (URL Standard section 1.3): `%` and two hexadecimal digits
      stand for one byte; every other byte stands for itself. */
  function PercentDecode(bs: seq<Byte>): seq<Byte>
    decreases |bs|
  {
    if |bs| == 0 then []
    else if bs[0] == 0x25 && |bs| >= 3 && IsHexByte(bs[1]) && IsHexByte(bs[2]) then
      [HexValue(bs[1]) * 16 + HexValue(bs[2])] + PercentDecode(bs[3..])
    else [bs[0]] + PercentDecode(bs[1..])
  }

  /** Steps 3.3 and 3.4 of the parser for one name or value. */
  function DecodeComponent(s: string): Option<string> {
    Utf8Decode(PercentDecode(PlusToSpace(Utf8Encode(s))))
  }

  /** Decoding the bytes of one serialized byte yields that byte, whatever follows. */
  lemma DecodeEncodedByte(b: Byte, tail: seq<Byte>)
    ensures PercentDecode(PlusToSpace(Utf8Encode(EncodeByte(b))) + tail) == [b] + PercentDecode(tail)
  {
    var e := EncodeByte(b);
    if b == 0x20 {
      assert Utf8Encode(e) == [0x2B];
    } else if Unreserved(b) {
      assert Utf8Encode(e) == [b];
    } else {
      var hi, lo := HexDigit(b / 16), HexDigit(b % 16);
      assert e == ['%'] + [hi] + [lo];
      assert Utf8Encode(e) == [0x25, hi as int, lo as int] by {
        assert e[1..] == [hi, lo];
        assert e[1..][1..] == [lo];
        assert Utf8Encode([lo]) == [lo as int] + Utf8Encode([]);
        assert Utf8Encode([hi, lo]) == [hi as int] + Utf8Encode([lo]);
      }
      var bs := PlusToSpace(Utf8Encode(e)) + tail;
      assert bs[3..] == tail;
      assert HexValue(hi as int) * 16 + HexValue(lo as int) == b;
    }
  }

  lemma {:induction false} PercentRoundTrip(bs: seq<Byte>)
    ensures PercentDecode(PlusToSpace(Utf8Encode(PercentEncode(bs)))) == bs
    decreases |bs|
  {
    if |bs| > 0 {
      var head, rest := EncodeByte(bs[0]), PercentEncode(bs[1..]);
      Utf8EncodeAppend(head, rest);
      PlusToSpaceAppend(Utf8Encode(head), Utf8Encode(rest));
      DecodeEncodedByte(bs[0], PlusToSpace(Utf8Encode(rest)));
      PercentRoundTrip(bs[1..]);
      assert [bs[0]] + bs[1..] == bs;
    }
  }

  /** Decoding inverts the serialization of a single name or value. */
  lemma ComponentRoundTrip(s: string)
    ensures DecodeComponent(EncodeComponent(s)) == Some(s)
  {
    PercentRoundTrip(Utf8Encode(s));
    Utf8RoundTrip(s);
  }

  /** Steps 3.1 and 3.2 of the parser for one non-empty `&`-separated piece: the
      name is the text before the first `=`, the value the text after it (all of
      the piece and the empty string when it has no `=`). */
  function ParsePiece(piece: string): Option<Pair> {
    var i := IndexOf(piece, "=");
    var name := if i == -1 then piece else piece[..i];
    var value := if i == -1 then "" else piece[i + 1..];
    match (DecodeComponent(name), DecodeComponent(value))
    case (Some(n), Some(v)) => Some((n, v))
    case _ => None
  }

  function ParsePieces(pieces: seq<string>): Option<seq<Pair>> {
    if |pieces| == 0 then Some([])
    else
      match ParsePieces(pieces[1..])
      case None => None
      case Some(rest) =>
        if pieces[0] == "" then Some(rest)
        else match ParsePiece(pieces[0])
          case None => None
          case Some(p) => Some([p] + rest)
  }

  /** The form-urlencoded parser (URL Standard section 5.1) over a query string,
      rejecting input that is not UTF-8 after percent-decoding rather than
      substituting U+FFFD. */
  function Parse(query: string): Option<seq<Pair>> {
    ParsePieces(Split(query, '&'))
  }

  /** `URLSearchParams.get(name)`: the value of the first pair with that name. */
  function Get(pairs: seq<Pair>, name: string): (r: Option<string>)
    ensures r.None? <==> forall i :: 0 <= i < |pairs| ==> pairs[i].0 != name
    ensures r.Some? ==> exists i :: 0 <= i < |pairs| && pairs[i] == (name, r.value)
                                    && forall j :: 0 <= j < i ==> pairs[j].0 != name
  {
    if |pairs| == 0 then None
    else if pairs[0].0 == name then Some(pairs[0].1)
    else
      var r := Get(pairs[1..], name);
      assert forall i :: 1 <= i < |pairs| ==> pairs[i] == pairs[1..][i - 1];
      r
  }

  lemma ParseEncodedPair(p: Pair)
    ensures EncodePair(p) != ""
    ensures ParsePiece(EncodePair(p)) == Some(p)
  {
    var n, v := EncodeComponent(p.0), EncodeComponent(p.1);
    var piece := EncodePair(p);
    assert piece[|n|] == '=';
    assert OccursAt(piece, "=", |n|);
    var i := IndexOf(piece, "=");
    assert i == |n|;
    assert piece[..i] == n;
    assert piece[i + 1..] == v;
    ComponentRoundTrip(p.0);
    ComponentRoundTrip(p.1);
  }

  lemma {:induction false} ParseEncodedPieces(pairs: seq<Pair>)
    ensures ParsePieces(seq(|pairs|, i requires 0 <= i < |pairs| => EncodePair(pairs[i]))) == Some(pairs)
    decreases |pairs|
  {
    var pieces := seq(|pairs|, i requires 0 <= i < |pairs| => EncodePair(pairs[i]));
    if |pairs| > 0 {
      var tail := seq(|pairs| - 1, i requires 0 <= i < |pairs| - 1 => EncodePair(pairs[1..][i]));
      assert pieces[1..] == tail;
      ParseEncodedPieces(pairs[1..]);
      ParseEncodedPair(pairs[0]);
      assert [pairs[0]] + pairs[1..] == pairs;
    }
  }

  /** Parsing a serialization gives back the pairs it was made from, in order. */
  lemma SerializeRoundTrip(pairs: seq<Pair>)
    ensures Parse(Serialize(pairs)) == Some(pairs)
  {
    var pieces := seq(|pairs|, i requires 0 <= i < |pairs| => EncodePair(pairs[i]));
    ParseEncodedPieces(pairs);
    if |pairs| == 0 {
      assert Serialize(pairs) == "";
    } else {
      forall i | 0 <= i < |pieces|
        ensures '&' !in pieces[i]
      {
        var n, v := EncodeComponent(pairs[i].0), EncodeComponent(pairs[i].1);
        assert pieces[i] == n + "=" + v;
        forall k | 0 <= k < |pieces[i]|
          ensures pieces[i][k] != '&'
        {
          if k < |n| { assert pieces[i][k] == n[k]; }
          else if k > |n| { assert pieces[i][k] == v[k - |n| - 1]; }
        }
      }
      SplitJoin(pieces, '&');
    }
  }
}
