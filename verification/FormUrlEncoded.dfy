/** Query strings as the URL Standard reads and writes them (sections 5.1, 5.2
    and 6.2), over UTF-8 as the Encoding Standard decodes it (section 8.1.1). */
module FormUrlEncoded {
  import opened Common

  type Byte = b: int | 0 <= b < 256

  datatype Pair = Pair(name: string, value: string)

  // ---- UTF-8 ----

  function Utf8Char(c: char): (r: seq<Byte>)
    ensures 1 <= |r| <= 4
  {
    var n := c as int;
    if n < 0x80 then [n]
    else if n < 0x800 then [0xC0 + n / 64, 0x80 + n % 64]
    else if n < 0x1_0000 then [0xE0 + n / 4096, 0x80 + n / 64 % 64, 0x80 + n % 64]
    else [0xF0 + n / 262144, 0x80 + n / 4096 % 64, 0x80 + n / 64 % 64, 0x80 + n % 64]
  }

  function Utf8(s: string): seq<Byte> {
    if s == "" then [] else Utf8Char(s[0]) + Utf8(s[1..])
  }

  const REPLACEMENT: char := '\U{FFFD}'

  predicate Within(b: seq<Byte>, i: nat, low: int, high: int) {
    i < |b| && low <= b[i] <= high
  }

  /** What a continuation byte carries. */
  function Six(b: seq<Byte>, i: nat): int
    requires i < |b|
  {
    b[i] as int - 0x80
  }

  /** The first character of a non-empty byte string and how many bytes it takes.
      A malformed sequence becomes one replacement character, and the byte that
      broke it is read again. */
  function Next(b: seq<Byte>): (r: (char, nat))
    requires b != []
    ensures 1 <= r.1 <= |b|
  {
    var lead: int := b[0];
    if lead < 0x80 then (lead as char, 1)
    else if 0xC2 <= lead <= 0xDF then
      if !Within(b, 1, 0x80, 0xBF) then (REPLACEMENT, 1)
      else (((lead - 0xC0) * 64 + Six(b, 1)) as char, 2)
    else if 0xE0 <= lead <= 0xEF then
      if !Within(b, 1, if lead == 0xE0 then 0xA0 else 0x80, if lead == 0xED then 0x9F else 0xBF) then (REPLACEMENT, 1)
      else if !Within(b, 2, 0x80, 0xBF) then (REPLACEMENT, 2)
      else (((lead - 0xE0) * 4096 + Six(b, 1) * 64 + Six(b, 2)) as char, 3)
    else if 0xF0 <= lead <= 0xF4 then
      if !Within(b, 1, if lead == 0xF0 then 0x90 else 0x80, if lead == 0xF4 then 0x8F else 0xBF) then (REPLACEMENT, 1)
      else if !Within(b, 2, 0x80, 0xBF) then (REPLACEMENT, 2)
      else if !Within(b, 3, 0x80, 0xBF) then (REPLACEMENT, 3)
      else (((lead - 0xF0) * 262144 + Six(b, 1) * 4096 + Six(b, 2) * 64 + Six(b, 3)) as char, 4)
    else (REPLACEMENT, 1)
  }

  function Utf8Decode(b: seq<Byte>): string
    decreases |b|
  {
    if b == [] then "" else var (c, used) := Next(b); [c] + Utf8Decode(b[used..])
  }

  lemma NextReadsBack(c: char, rest: seq<Byte>)
    ensures Next(Utf8Char(c) + rest) == (c, |Utf8Char(c)|)
  {
    var n, b := c as int, Utf8Char(c) + rest;
    assert n / 4096 == n / 64 / 64 && n / 262144 == n / 64 / 64 / 64;
    if n < 0x80 {
      assert b[0] == n;
    } else if n < 0x800 {
      assert b[0] == 0xC0 + n / 64 && b[1] == 0x80 + n % 64;
    } else if n < 0x1_0000 {
      assert b[0] == 0xE0 + n / 4096 && b[1] == 0x80 + n / 64 % 64 && b[2] == 0x80 + n % 64;
    } else {
      assert b[0] == 0xF0 + n / 262144 && b[1] == 0x80 + n / 4096 % 64 && b[2] == 0x80 + n / 64 % 64 && b[3] == 0x80 + n % 64;
    }
  }

  lemma {:induction false} Utf8RoundTrip(s: string)
    ensures Utf8Decode(Utf8(s)) == s
  {
    if s != "" {
      NextReadsBack(s[0], Utf8(s[1..]));
      assert Utf8(s)[|Utf8Char(s[0])|..] == Utf8(s[1..]);
      Utf8RoundTrip(s[1..]);
      assert s == [s[0]] + s[1..];
    }
  }

  // ---- Percent-encoding ----

  predicate Plain(b: Byte) {
    0x30 <= b <= 0x39 || 0x41 <= b <= 0x5A || 0x61 <= b <= 0x7A || b == 0x2A || b == 0x2D || b == 0x2E || b == 0x5F
  }

  function HexDigit(d: int): char
    requires 0 <= d < 16
  {
    if d < 10 then ('0' as int + d) as char else ('A' as int + d - 10) as char
  }

  predicate IsHex(c: char) {
    '0' <= c <= '9' || 'A' <= c <= 'F' || 'a' <= c <= 'f'
  }

  function HexValue(c: char): (d: int)
    requires IsHex(c)
    ensures 0 <= d < 16
  {
    if c <= '9' then c as int - '0' as int
    else if c <= 'F' then c as int - 'A' as int + 10
    else c as int - 'a' as int + 10
  }

  function EncodeByte(b: Byte): string {
    if b == 0x20 then "+"
    else if Plain(b) then [b as char]
    else ['%', HexDigit(b / 16), HexDigit(b % 16)]
  }

  function EncodeBytes(b: seq<Byte>): string {
    if b == [] then "" else EncodeByte(b[0]) + EncodeBytes(b[1..])
  }

  /** `+` is a space, a `%` not followed by two hexadecimal digits is itself. */
  function PercentDecode(s: string): seq<Byte> {
    if s == "" then []
    else if s[0] == '+' then [0x20] + PercentDecode(s[1..])
    else if s[0] == '%' && |s| >= 3 && IsHex(s[1]) && IsHex(s[2]) then
      [HexValue(s[1]) * 16 + HexValue(s[2])] + PercentDecode(s[3..])
    else Utf8Char(s[0]) + PercentDecode(s[1..])
  }

  function Encode(s: string): string {
    EncodeBytes(Utf8(s))
  }

  function Decode(s: string): string {
    Utf8Decode(PercentDecode(s))
  }

  /** What an encoded name or value is made of: no `&`, `=`, `#`, `?`, backslash,
      or control character among it. */
  predicate Wire(c: char) {
    '0' <= c <= '9' || 'A' <= c <= 'Z' || 'a' <= c <= 'z' || c == '*' || c == '-' || c == '.' || c == '_' || c == '+' || c == '%'
  }

  lemma ByteRoundTrip(b: Byte, rest: string)
    ensures PercentDecode(EncodeByte(b) + rest) == [b] + PercentDecode(rest)
    ensures forall c :: c in EncodeByte(b) ==> Wire(c)
  {
    var s := EncodeByte(b) + rest;
    assert s[|EncodeByte(b)|..] == rest;
    assert b == b / 16 * 16 + b % 16;
    if b != 0x20 && !Plain(b) {
      assert s[0] == '%' && s[1] == HexDigit(b / 16) && s[2] == HexDigit(b % 16);
    }
  }

  lemma {:induction false} BytesRoundTrip(b: seq<Byte>)
    ensures PercentDecode(EncodeBytes(b)) == b
    ensures forall c :: c in EncodeBytes(b) ==> Wire(c)
  {
    if b != [] {
      ByteRoundTrip(b[0], EncodeBytes(b[1..]));
      BytesRoundTrip(b[1..]);
    }
  }

  /** Encoding any text and decoding it gives it back. */
  lemma TextRoundTrip(s: string)
    ensures Decode(Encode(s)) == s
    ensures forall c :: c in Encode(s) ==> Wire(c)
  {
    BytesRoundTrip(Utf8(s));
    Utf8RoundTrip(s);
  }

  lemma {:induction false} EncodeBytesAppend(a: seq<Byte>, b: seq<Byte>)
    ensures EncodeBytes(a + b) == EncodeBytes(a) + EncodeBytes(b)
  {
    if a == [] {
      assert a + b == b;
    } else {
      EncodeBytesAppend(a[1..], b);
      assert (a + b)[0] == a[0] && (a + b)[1..] == a[1..] + b;
      Associate(EncodeByte(a[0]), EncodeBytes(a[1..]), EncodeBytes(b));
    }
  }

  lemma Associate<T>(a: seq<T>, b: seq<T>, c: seq<T>)
    ensures a + (b + c) == (a + b) + c
  {
  }

  lemma {:induction false} Utf8Append(a: string, b: string)
    ensures Utf8(a + b) == Utf8(a) + Utf8(b)
  {
    if a == "" {
      assert a + b == b;
    } else {
      Utf8Append(a[1..], b);
      assert (a + b)[0] == a[0] && (a + b)[1..] == a[1..] + b;
      Associate(Utf8Char(a[0]), Utf8(a[1..]), Utf8(b));
    }
  }

  lemma EncodeSplits(a: string, b: string)
    ensures Encode(a + b) == Encode(a) + Encode(b)
  {
    Utf8Append(a, b);
    EncodeBytesAppend(Utf8(a), Utf8(b));
  }

  predicate IsCapitalHex(c: char) {
    '0' <= c <= '9' || 'A' <= c <= 'F'
  }

  /** Character by character: letters, digits and four marks stand for themselves,
      a space is a plus sign, every other ASCII character a `%` and its number. */
  lemma EncodeMeans(c: char)
    requires c as int < 128
    ensures c == ' ' ==> Encode([c]) == "+"
    ensures c != '+' && c != '%' && Wire(c) ==> Encode([c]) == [c]
    ensures c != ' ' && (c == '+' || c == '%' || !Wire(c)) ==> exists hi, lo ::
      Encode([c]) == ['%', hi, lo] && IsCapitalHex(hi) && IsCapitalHex(lo) && HexValue(hi) * 16 + HexValue(lo) == c as int
  {
    EncodeAscii(c as int);
    var hi, lo := HexDigit(c as int / 16), HexDigit(c as int % 16);
    assert c != ' ' && !Plain(c as int) ==> Encode([c]) == ['%', hi, lo];
  }

  lemma HexRoundTrip(d: int)
    requires 0 <= d < 16
    ensures IsCapitalHex(HexDigit(d)) && HexValue(HexDigit(d)) == d
  {
  }

  /** A number may be written with small letters too. */
  lemma SmallHexIsRead(d: int, rest: string)
    requires 10 <= d < 16
    ensures var c := ('a' as int + d - 10) as char;
      IsHex(c) && HexValue(c) == d && PercentDecode(['%', '4', c] + rest) == [64 + d] + PercentDecode(rest)
  {
    var s := ['%', '4', ('a' as int + d - 10) as char] + rest;
    assert s[3..] == rest;
  }

  lemma EncodeAscii(n: Byte)
    requires n < 128
    ensures Encode([n as char]) == EncodeByte(n)
    ensures n == n / 16 * 16 + n % 16
    ensures IsCapitalHex(HexDigit(n / 16)) && HexValue(HexDigit(n / 16)) == n / 16
    ensures IsCapitalHex(HexDigit(n % 16)) && HexValue(HexDigit(n % 16)) == n % 16
  {
    HexRoundTrip(n / 16);
    HexRoundTrip(n % 16);
    var s := [n as char];
    var bytes: seq<Byte> := [n];
    assert s[1..] == "" && Utf8(s) == bytes;
    assert bytes[1..] == [] && EncodeBytes(bytes) == EncodeByte(n) + EncodeBytes([]);
  }

  /** A byte that begins no character is replaced and reading goes on behind it; so
      is one that begins a character of several bytes, when the next byte is no
      continuation. */
  lemma StrayByte(b: Byte, rest: seq<Byte>)
    requires 0x80 <= b <= 0xC1 || 0xF5 <= b || (0xC2 <= b && (rest == [] || rest[0] < 0x80 || rest[0] > 0xBF))
    ensures Utf8Decode([b] + rest) == ['\U{FFFD}'] + Utf8Decode(rest)
  {
    var bytes := [b] + rest;
    assert bytes[1..] == rest;
    assert rest != [] ==> bytes[1] == rest[0];
    assert Next(bytes) == (REPLACEMENT, 1);
  }

  // ---- Lists of pairs ----

  /** What comes before the first `c`, all of `s` when there is none. */
  function Upto(s: string, c: char): string {
    if s == "" || s[0] == c then "" else [s[0]] + Upto(s[1..], c)
  }

  /** What comes after the first `c`, nothing when there is none. */
  function Past(s: string, c: char): (r: string)
    ensures s != "" ==> |r| < |s|
  {
    if s == "" then "" else if s[0] == c then s[1..] else Past(s[1..], c)
  }

  lemma {:induction false} Splits(a: string, c: char, b: string)
    requires c !in a
    ensures Upto(a, c) == a && Past(a, c) == ""
    ensures Upto(a + [c] + b, c) == a && Past(a + [c] + b, c) == b
  {
    if a != "" {
      Splits(a[1..], c, b);
      assert (a + [c] + b)[1..] == a[1..] + [c] + b;
    }
  }

  lemma {:induction false} SplitsEarlier(a: string, c: char, b: string)
    requires c in a
    ensures Upto(a + b, c) == Upto(a, c) && Past(a + b, c) == Past(a, c) + b
  {
    assert (a + b)[1..] == a[1..] + b;
    if a[0] != c { SplitsEarlier(a[1..], c, b); }
  }

  /** The text between the `&`s. */
  function Pieces(s: string): (r: seq<string>)
    ensures r != []
    decreases |s|
  {
    if '&' in s then [Upto(s, '&')] + Pieces(Past(s, '&')) else [s]
  }

  /** An empty piece is no pair, a piece without `=` has an empty value. */
  function Pairs(pieces: seq<string>): seq<Pair> {
    if pieces == [] then []
    else (if pieces[0] == "" then [] else [PairOf(pieces[0])]) + Pairs(pieces[1..])
  }

  function PairOf(piece: string): Pair {
    Pair(Decode(Upto(piece, '=')), Decode(Past(piece, '=')))
  }

  function Parse(s: string): seq<Pair> {
    Pairs(Pieces(s))
  }

  function SerializePair(p: Pair): string {
    Encode(p.name) + "=" + Encode(p.value)
  }

  function Serialize(list: seq<Pair>): string {
    if list == [] then ""
    else if |list| == 1 then SerializePair(list[0])
    else SerializePair(list[0]) + "&" + Serialize(list[1..])
  }

  lemma PairRoundTrip(p: Pair)
    ensures var s := SerializePair(p);
      s != "" && '&' !in s && Decode(Upto(s, '=')) == p.name && Decode(Past(s, '=')) == p.value
    ensures forall c :: c in SerializePair(p) ==> Wire(c) || c == '='
  {
    TextRoundTrip(p.name);
    TextRoundTrip(p.value);
    Splits(Encode(p.name), '=', Encode(p.value));
  }

  /** Any list of pairs, whatever characters are in it, survives the query string. */
  lemma {:induction false} ListRoundTrip(list: seq<Pair>)
    ensures Parse(Serialize(list)) == list
    ensures Serialize(list) == "" <==> list == []
    ensures forall c :: c in Serialize(list) ==> Wire(c) || c == '=' || c == '&'
  {
    if list == [] {
      assert [""][1..] == [];
    } else {
      PairRoundTrip(list[0]);
      ListRoundTrip(list[1..]);
      var first, rest := SerializePair(list[0]), Serialize(list[1..]);
      if |list| == 1 {
        assert Pieces(first) == [first] && [first][1..] == [];
      } else {
        PiecesJoin(first, rest);
        assert Pieces(first) == [first];
        assert ([first] + Pieces(rest))[1..] == Pieces(rest);
      }
    }
  }

  lemma {:induction false} PiecesJoin(a: string, b: string)
    ensures Pieces(a + "&" + b) == Pieces(a) + Pieces(b)
    decreases |a|
  {
    if '&' in a {
      SplitsEarlier(a, '&', "&" + b);
      assert a + "&" + b == a + ("&" + b);
      assert Past(a, '&') + "&" + b == Past(a, '&') + ("&" + b);
      PiecesJoin(Past(a, '&'), b);
    } else {
      Splits(a, '&', b);
    }
  }

  lemma {:induction false} PairsJoin(a: seq<string>, b: seq<string>)
    ensures Pairs(a + b) == Pairs(a) + Pairs(b)
  {
    if a == [] {
      assert a + b == b;
    } else {
      assert (a + b)[1..] == a[1..] + b;
      PairsJoin(a[1..], b);
    }
  }

  /** Query strings joined by `&` hold the pairs of both. */
  lemma ParseJoins(a: string, b: string)
    ensures Parse(a + "&" + b) == Parse(a) + Parse(b)
  {
    PiecesJoin(a, b);
    PairsJoin(Pieces(a), Pieces(b));
  }

  // ---- URLSearchParams ----

  function Without(list: seq<Pair>, name: string): seq<Pair> {
    if list == [] then []
    else if list[0].name == name then Without(list[1..], name)
    else [list[0]] + Without(list[1..], name)
  }

  /** The first pair of that name takes the value and the others go; a new pair
      goes last. */
  function With(list: seq<Pair>, name: string, value: string): seq<Pair> {
    if list == [] then [Pair(name, value)]
    else if list[0].name == name then [Pair(name, value)] + Without(list[1..], name)
    else [list[0]] + With(list[1..], name, value)
  }

  predicate Has(list: seq<Pair>, name: string) {
    exists i :: 0 <= i < |list| && list[i].name == name
  }

  /** `get` */
  function First(list: seq<Pair>, name: string): Option<string> {
    if list == [] then None else if list[0].name == name then Some(list[0].value) else First(list[1..], name)
  }

  lemma {:induction false} FirstJoins(a: seq<Pair>, b: seq<Pair>, name: string)
    ensures First(a + b, name) == if First(a, name).Some? then First(a, name) else First(b, name)
    ensures First(a, name).Some? <==> Has(a, name)
  {
    if a == [] {
      assert a + b == b;
    } else {
      assert (a + b)[1..] == a[1..] + b;
      FirstJoins(a[1..], b, name);
      HasInTail(a, name);
    }
  }

  /** A string init loses one leading `?`. */
  function FromText(s: string): seq<Pair> {
    Parse(if s != "" && s[0] == '?' then s[1..] else s)
  }

  class SearchParams {
    var list: seq<Pair>

    constructor (init: seq<Pair>)
      ensures list == init
    {
      list := init;
    }

    method Set(name: string, value: string)
      modifies this
      ensures list == With(old(list), name, value)
    {
      list := With(list, name, value);
    }

    method Delete(name: string)
      modifies this
      ensures list == Without(old(list), name)
    {
      list := Without(list, name);
    }

    function ToString(): string
      reads this
    {
      Serialize(list)
    }
  }

  /** After `set` the name stands once, with that value, and every other pair is as
      it was. */
  lemma {:induction false} WithMeans(list: seq<Pair>, name: string, value: string)
    ensures Without(With(list, name, value), name) == Without(list, name)
    ensures Named(With(list, name, value), name) == [value]
    ensures First(With(list, name, value), name) == Some(value)
  {
    if list == [] || list[0].name == name {
      var rest := if list == [] then [] else Without(list[1..], name);
      var after := With(list, name, value);
      assert after[1..] == rest;
      if list != [] { NoneNamed(list[1..], name); }
    } else {
      WithMeans(list[1..], name, value);
      assert With(list, name, value)[1..] == With(list[1..], name, value);
    }
  }

  /** The values of a name, in order. */
  function Named(list: seq<Pair>, name: string): seq<string> {
    if list == [] then [] else (if list[0].name == name then [list[0].value] else []) + Named(list[1..], name)
  }

  lemma {:induction false} NoneNamed(list: seq<Pair>, name: string)
    ensures Named(Without(list, name), name) == [] && Without(Without(list, name), name) == Without(list, name)
  {
    if list != [] {
      NoneNamed(list[1..], name);
      var kept := Without(list[1..], name);
      assert list[0].name != name ==> ([list[0]] + kept)[1..] == kept;
    }
  }

  lemma HasInTail(list: seq<Pair>, name: string)
    requires list != []
    ensures Has(list, name) <==> list[0].name == name || Has(list[1..], name)
  {
    if Has(list[1..], name) {
      var i :| 0 <= i < |list[1..]| && list[1..][i].name == name;
      assert list[i + 1].name == name;
    }
  }

  lemma {:induction false} WithoutRemoves(list: seq<Pair>, name: string, other: string)
    ensures !Has(Without(list, name), name)
    ensures !Has(list, name) ==> Without(list, name) == list
    ensures !Has(list, other) ==> !Has(Without(list, name), other)
  {
    if list != [] {
      WithoutRemoves(list[1..], name, other);
      HasInTail(list, name);
      HasInTail(list, other);
      var kept := [list[0]] + Without(list[1..], name);
      assert kept[1..] == Without(list[1..], name);
      HasInTail(kept, name);
      HasInTail(kept, other);
    }
  }

  lemma {:induction false} WithoutIsNoLonger(list: seq<Pair>, name: string)
    ensures |Serialize(Without(list, name))| <= |Serialize(list)|
  {
    if |list| == 1 {
      assert Without(list[1..], name) == [];
    } else if list != [] {
      WithoutIsNoLonger(list[1..], name);
      var rest := Without(list[1..], name);
      assert ([list[0]] + rest)[1..] == rest;
    }
  }

  lemma {:induction false} WithoutJoins(a: seq<Pair>, b: seq<Pair>, name: string)
    ensures Without(a + b, name) == Without(a, name) + Without(b, name)
  {
    if a == [] {
      assert a + b == b;
    } else {
      assert (a + b)[1..] == a[1..] + b;
      WithoutJoins(a[1..], b, name);
    }
  }
}
