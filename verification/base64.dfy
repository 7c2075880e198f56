/**
 * Base64 as the browser's `window.btoa` and `window.atob` use it: the encoding of
 * section 4 of RFC 4648 (alphabet A-Z a-z 0-9 + /, padded with '=' to a multiple
 * of four characters), and the forgiving-base64 decode of the WHATWG Infra
 * standard (ASCII whitespace ignored, padding optional, a single leftover
 * character rejected).  Binary strings are strings whose every character has a
 * code below 256; they carry one byte per character.
 */
module Base64 {
  import opened Wrappers

  type byte = x: int | 0 <= x < 256
  type sextet = x: int | 0 <= x < 64

  /** The DOMException `atob` and `btoa` throw. */
  datatype DomError = InvalidCharacterError

  /** The character that RFC 4648 section 4 assigns to a 6-bit value. */
  function Symbol(v: sextet): char
  {
    if v < 26 then ('A' as int + v) as char
    else if v < 52 then ('a' as int + (v - 26)) as char
    else if v < 62 then ('0' as int + (v - 52)) as char
    else if v == 62 then '+'
    else '/'
  }

  /** Membership in the 64-character alphabet of RFC 4648 section 4. */
  predicate IsSymbol(c: char)
  {
    ('A' <= c <= 'Z') || ('a' <= c <= 'z') || ('0' <= c <= '9') || c == '+' || c == '/'
  }

  predicate AllSymbols(s: string)
  {
    forall i :: 0 <= i < |s| ==> IsSymbol(s[i])
  }

  /** The 6-bit value an alphabet character stands for. */
  function ValueOf(c: char): (v: sextet)
    requires IsSymbol(c)
    ensures Symbol(v) == c
  {
    if 'A' <= c <= 'Z' then c as int - 'A' as int
    else if 'a' <= c <= 'z' then c as int - 'a' as int + 26
    else if '0' <= c <= '9' then c as int - '0' as int + 52
    else if c == '+' then 62
    else 63
  }

  /** Symbol and ValueOf are mutually inverse: the alphabet is a bijection onto 0..63. */
  lemma SymbolValueOf(v: sextet)
    ensures IsSymbol(Symbol(v)) && ValueOf(Symbol(v)) == v
  {
  }

  /** The four characters of one complete 3-byte group. */
  function Quad(b0: byte, b1: byte, b2: byte): string
  {
    [Symbol(b0 / 4), Symbol(b0 % 4 * 16 + b1 / 16), Symbol(b1 % 16 * 4 + b2 / 64), Symbol(b2 % 64)]
  }

  /** The encoding without its '=' padding: 6 bits per character, the last group zero-filled. */
  function EncodeBody(b: seq<byte>): (s: string)
    ensures AllSymbols(s)
    decreases |b|
  {
    if |b| == 0 then ""
    else if |b| == 1 then [Symbol(b[0] / 4), Symbol(b[0] % 4 * 16)]
    else if |b| == 2 then [Symbol(b[0] / 4), Symbol(b[0] % 4 * 16 + b[1] / 16), Symbol(b[1] % 16 * 4)]
    else
      var q, rest := Quad(b[0], b[1], b[2]), EncodeBody(b[3..]);
      QuadSymbols(b[0], b[1], b[2]);
      AllSymbolsAppend(q, rest);
      q + rest
  }

  /** The '=' characters that complete the last group to four characters. */
  function Padding(n: nat): string
  {
    if n % 3 == 1 then "==" else if n % 3 == 2 then "=" else ""
  }

  /** Base64 encoding of RFC 4648 section 4. */
  function Encode(b: seq<byte>): (s: string)
    ensures |s| == 4 * ((|b| + 2) / 3)
    ensures IsPaddedBase64(s)
  {
    EncodeShape(b);
    EncodeBody(b) + Padding(|b|)
  }

  /** The unpadded encoding plus its padding is a well-formed padded encoding of the expected length. */
  lemma EncodeShape(b: seq<byte>)
    ensures |EncodeBody(b) + Padding(|b|)| == 4 * ((|b| + 2) / 3)
    ensures IsPaddedBase64(EncodeBody(b) + Padding(|b|))
  {
    EncodeBodyLength(b);
    PaddedShape(EncodeBody(b), |b|);
  }

  /** Alphabet characters of the unpadded length for n bytes, followed by the padding for n bytes, form a padded encoding. */
  lemma PaddedShape(body: string, n: nat)
    requires AllSymbols(body)
    requires |body| == (4 * n + 2) / 3
    ensures |body + Padding(n)| == 4 * ((n + 2) / 3)
    ensures IsPaddedBase64(body + Padding(n))
  {
    PaddingLength(n);
    var pad := Padding(n);
    var s := body + pad;
    forall i | 0 <= i < |s|
      ensures IsSymbol(s[i]) || (s[i] == '=' && |s| - 2 <= i)
    {
      if i < |body| {
        assert s[i] == body[i];
      } else {
        assert s[i] == pad[i - |body|];
      }
    }
    if |s| >= 2 && s[|s| - 2] == '=' {
      assert s[|s| - 2] != body[|body| - 1] || |pad| == 2;
      assert |pad| == 2;
      assert s[|s| - 1] == pad[1];
    }
  }

  /** Padding completes the unpadded length to a multiple of four. */
  lemma PaddingLength(n: nat)
    ensures (4 * n + 2) / 3 + |Padding(n)| == 4 * ((n + 2) / 3)
    ensures ((4 * n + 2) / 3 + |Padding(n)|) % 4 == 0
    ensures Padding(n) == "" || Padding(n) == "=" || Padding(n) == "=="
    ensures Padding(n) != "" ==> (4 * n + 2) / 3 >= 2
  {
    var q, r := n / 3, n % 3;
    assert n == 3 * q + r;
    assert (4 * n + 2) / 3 == 4 * q + (4 * r + 2) / 3;
    assert (n + 2) / 3 == q + (r + 2) / 3;
    assert (4 * n + 2) / 3 + |Padding(n)| == 4 * (q + (r + 2) / 3);
  }

  /** Four characters for every complete group, and two or three for a final partial one. */
  lemma {:induction false} EncodeBodyLength(b: seq<byte>)
    ensures |EncodeBody(b)| == (4 * |b| + 2) / 3
    decreases |b|
  {
    if |b| >= 3 {
      EncodeBodyLength(b[3..]);
      assert |EncodeBody(b)| == 4 + |EncodeBody(b[3..])|;
    }
  }

  /**
   * Well-formed padded output: every character is in the alphabet except an
   * '=' in one of the last two positions, and an '=' is never followed by an
   * alphabet character.
   */
  predicate IsPaddedBase64(s: string)
  {
    && |s| % 4 == 0
    && (forall i :: 0 <= i < |s| ==> IsSymbol(s[i]) || (s[i] == '=' && |s| - 2 <= i))
    && (|s| >= 2 && s[|s| - 2] == '=' ==> s[|s| - 1] == '=')
  }

  /** The three bytes of a complete group of four characters. */
  function DecodeGroup(c0: char, c1: char, c2: char, c3: char): seq<byte>
    requires IsSymbol(c0) && IsSymbol(c1) && IsSymbol(c2) && IsSymbol(c3)
  {
    [ValueOf(c0) * 4 + ValueOf(c1) / 16, ValueOf(c1) % 16 * 16 + ValueOf(c2) / 4, ValueOf(c2) % 4 * 64 + ValueOf(c3)]
  }

  /** The bytes of a final group of two or three characters; the leftover bits are dropped. */
  function DecodeTail(s: string): seq<byte>
    requires AllSymbols(s) && (|s| == 2 || |s| == 3)
  {
    if |s| == 2 then [ValueOf(s[0]) * 4 + ValueOf(s[1]) / 16]
    else [ValueOf(s[0]) * 4 + ValueOf(s[1]) / 16, ValueOf(s[1]) % 16 * 16 + ValueOf(s[2]) / 4]
  }

  /** Decoding of an unpadded run of alphabet characters. */
  function DecodeBody(s: string): seq<byte>
    requires AllSymbols(s)
    requires |s| % 4 != 1
    decreases |s|
  {
    if |s| == 0 then []
    else if |s| < 4 then DecodeTail(s)
    else DecodeGroup(s[0], s[1], s[2], s[3]) + DecodeBody(s[4..])
  }

  /** ASCII whitespace of the WHATWG Infra standard: TAB, LF, FF, CR and SPACE. */
  predicate IsAsciiWhitespace(c: char)
  {
    c == '\t' || c == '\n' || c == '\U{000C}' || c == '\r' || c == ' '
  }

  predicate NoWhitespace(s: string)
  {
    forall i :: 0 <= i < |s| ==> !IsAsciiWhitespace(s[i])
  }

  /** The string with every ASCII whitespace character removed. */
  function StripWhitespace(s: string): (r: string)
    ensures NoWhitespace(r)
    ensures |r| <= |s|
    ensures NoWhitespace(s) ==> r == s
    decreases |s|
  {
    if |s| == 0 then ""
    else (if IsAsciiWhitespace(s[0]) then "" else [s[0]]) + StripWhitespace(s[1..])
  }

  /** Whitespace removal distributes over concatenation. */
  lemma {:induction false} StripWhitespaceAppend(a: string, b: string)
    ensures StripWhitespace(a + b) == StripWhitespace(a) + StripWhitespace(b)
    decreases |a|
  {
    if |a| == 0 {
      assert a + b == b;
    } else {
      assert (a + b)[1..] == a[1..] + b;
      StripWhitespaceAppend(a[1..], b);
    }
  }

  /** Forgiving-base64 step 2: when the length is a multiple of four, one or two trailing '=' are dropped. */
  function RemovePadding(d: string): string
  {
    if |d| % 4 == 0 && |d| >= 2 && d[|d| - 2] == '=' && d[|d| - 1] == '=' then d[..|d| - 2]
    else if |d| % 4 == 0 && |d| >= 1 && d[|d| - 1] == '=' then d[..|d| - 1]
    else d
  }

  /** Forgiving-base64 decode of the WHATWG Infra standard; None is its failure. */
  function ForgivingDecode(s: string): (r: Option<seq<byte>>)
    ensures r.Some? ==> |r.value| <= |s|
  {
    var d := RemovePadding(StripWhitespace(s));
    if |d| % 4 == 1 then None
    else if !AllSymbols(d) then None
    else
      DecodeBodyLength(d);
      Some(DecodeBody(d))
  }

  /** Decoding never yields more bytes than it reads characters. */
  lemma {:induction false} DecodeBodyLength(s: string)
    requires AllSymbols(s)
    requires |s| % 4 != 1
    ensures |DecodeBody(s)| <= |s|
    decreases |s|
  {
    if |s| >= 4 {
      DecodeBodyLength(s[4..]);
    }
  }

  predicate IsBinaryString(s: string)
  {
    forall i :: 0 <= i < |s| ==> s[i] as int < 256
  }

  /** One character per byte, the character code being the byte (String.fromCharCode). */
  function BinaryString(b: seq<byte>): (s: string)
    ensures |s| == |b|
    ensures IsBinaryString(s)
  {
    seq(|b|, i requires 0 <= i < |b| => b[i] as char)
  }

  /** The bytes a binary string carries. */
  function BinaryBytes(s: string): (b: seq<byte>)
    requires IsBinaryString(s)
    ensures |b| == |s|
    ensures BinaryString(b) == s
  {
    seq(|s|, i requires 0 <= i < |s| => s[i] as int)
  }

  /** Reading back the bytes of the binary string made from them gives the same bytes. */
  lemma BinaryBytesOfBinaryString(b: seq<byte>)
    ensures BinaryBytes(BinaryString(b)) == b
  {
  }

  /** `window.btoa`: throws on a character above U+00FF, otherwise encodes the string's bytes. */
  function Btoa(s: string): (r: Result<string, DomError>)
    ensures r.Ok? <==> IsBinaryString(s)
    ensures r.Ok? ==> |r.value| == 4 * ((|s| + 2) / 3) && IsPaddedBase64(r.value)
  {
    if !IsBinaryString(s) then Err(InvalidCharacterError)
    else Ok(Encode(BinaryBytes(s)))
  }

  /** `window.atob`: forgiving-base64 decode, the bytes returned as a binary string. */
  function Atob(s: string): (r: Result<string, DomError>)
    ensures r.Ok? <==> ForgivingDecode(s).Some?
    ensures r.Ok? ==> IsBinaryString(r.value) && |r.value| <= |s|
  {
    match ForgivingDecode(s)
    case None => Err(InvalidCharacterError)
    case Some(b) => Ok(BinaryString(b))
  }

  /** The three bytes of a complete group survive the 6-bit split and rejoin. */
  lemma GroupArithmetic(b0: byte, b1: byte, b2: byte)
    ensures (b0 / 4) * 4 + (b0 % 4 * 16 + b1 / 16) / 16 == b0
    ensures (b0 % 4 * 16 + b1 / 16) % 16 * 16 + (b1 % 16 * 4 + b2 / 64) / 4 == b1
    ensures (b1 % 16 * 4 + b2 / 64) % 4 * 64 + b2 % 64 == b2
  {
  }

  /** The characters of a group are alphabet characters. */
  lemma QuadSymbols(b0: byte, b1: byte, b2: byte)
    ensures AllSymbols(Quad(b0, b1, b2))
  {
    SymbolValueOf(b0 / 4);
    SymbolValueOf(b0 % 4 * 16 + b1 / 16);
    SymbolValueOf(b1 % 16 * 4 + b2 / 64);
    SymbolValueOf(b2 % 64);
  }

  /** The characters of a group are alphabet characters standing for the group's four 6-bit values. */
  lemma QuadValues(b0: byte, b1: byte, b2: byte)
    ensures AllSymbols(Quad(b0, b1, b2))
    ensures ValueOf(Quad(b0, b1, b2)[0]) == b0 / 4
    ensures ValueOf(Quad(b0, b1, b2)[1]) == b0 % 4 * 16 + b1 / 16
    ensures ValueOf(Quad(b0, b1, b2)[2]) == b1 % 16 * 4 + b2 / 64
    ensures ValueOf(Quad(b0, b1, b2)[3]) == b2 % 64
  {
    SymbolValueOf(b0 / 4);
    SymbolValueOf(b0 % 4 * 16 + b1 / 16);
    SymbolValueOf(b1 % 16 * 4 + b2 / 64);
    SymbolValueOf(b2 % 64);
  }

  /** Decoding the four characters of a group yields its three bytes. */
  lemma DecodeQuad(b0: byte, b1: byte, b2: byte, rest: string)
    requires AllSymbols(rest) && |rest| % 4 != 1
    ensures AllSymbols(Quad(b0, b1, b2) + rest)
    ensures DecodeBody(Quad(b0, b1, b2) + rest) == [b0, b1, b2] + DecodeBody(rest)
  {
    var q := Quad(b0, b1, b2);
    QuadValues(b0, b1, b2);
    var s := q + rest;
    AllSymbolsAppend(q, rest);
    assert s[4..] == rest;
    assert s[0] == q[0] && s[1] == q[1] && s[2] == q[2] && s[3] == q[3];
    GroupDecodes(b0, b1, b2, q[0], q[1], q[2], q[3]);
  }

  /** Four characters standing for the 6-bit values of a group decode to the group's bytes. */
  lemma GroupDecodes(b0: byte, b1: byte, b2: byte, c0: char, c1: char, c2: char, c3: char)
    requires IsSymbol(c0) && IsSymbol(c1) && IsSymbol(c2) && IsSymbol(c3)
    requires ValueOf(c0) == b0 / 4 && ValueOf(c1) == b0 % 4 * 16 + b1 / 16
    requires ValueOf(c2) == b1 % 16 * 4 + b2 / 64 && ValueOf(c3) == b2 % 64
    ensures DecodeGroup(c0, c1, c2, c3) == [b0, b1, b2]
  {
    GroupJoin(b0, b1, b2, ValueOf(c0), ValueOf(c1), ValueOf(c2), ValueOf(c3));
  }

  /** Concatenating two runs of alphabet characters gives one. */
  lemma AllSymbolsAppend(a: string, b: string)
    requires AllSymbols(a) && AllSymbols(b)
    ensures AllSymbols(a + b)
  {
    forall i | 0 <= i < |a + b|
      ensures IsSymbol((a + b)[i])
    {
      if i < |a| {
        assert (a + b)[i] == a[i];
      } else {
        assert (a + b)[i] == b[i - |a|];
      }
    }
  }

  /** Rejoining the four 6-bit values of a group restores its bytes. */
  lemma GroupJoin(b0: byte, b1: byte, b2: byte, x0: int, x1: int, x2: int, x3: int)
    requires x0 == b0 / 4 && x1 == b0 % 4 * 16 + b1 / 16 && x2 == b1 % 16 * 4 + b2 / 64 && x3 == b2 % 64
    ensures x0 * 4 + x1 / 16 == b0
    ensures x1 % 16 * 16 + x2 / 4 == b1
    ensures x2 % 4 * 64 + x3 == b2
  {
    GroupArithmetic(b0, b1, b2);
  }

  /** A lone trailing byte survives its two-character encoding. */
  lemma DecodeOne(b0: byte)
    ensures DecodeBody(EncodeBody([b0])) == [b0]
  {
    var v0: sextet, v1: sextet := b0 / 4, b0 % 4 * 16;
    SymbolValueOf(v0);
    SymbolValueOf(v1);
    var s := EncodeBody([b0]);
    assert s == [Symbol(v0), Symbol(v1)];
    assert ValueOf(s[0]) == v0 && ValueOf(s[1]) == v1;
  }

  /** Two trailing bytes survive their three-character encoding. */
  lemma DecodeTwo(b0: byte, b1: byte)
    ensures DecodeBody(EncodeBody([b0, b1])) == [b0, b1]
  {
    var v0: sextet, v1: sextet, v2: sextet := b0 / 4, b0 % 4 * 16 + b1 / 16, b1 % 16 * 4;
    SymbolValueOf(v0);
    SymbolValueOf(v1);
    SymbolValueOf(v2);
    GroupArithmetic(b0, b1, 0);
    var s := EncodeBody([b0, b1]);
    assert s == [Symbol(v0), Symbol(v1), Symbol(v2)];
    assert ValueOf(s[0]) == v0 && ValueOf(s[1]) == v1 && ValueOf(s[2]) == v2;
  }

  /** An unpadded encoding never leaves a single character over. */
  lemma BodyLength(n: nat)
    ensures (4 * n + 2) / 3 % 4 != 1
  {
    var q, r := n / 3, n % 3;
    assert n == 3 * q + r;
    assert (4 * n + 2) / 3 == 4 * q + (4 * r + 2) / 3;
  }

  /** The unpadded encoding decodes back to the bytes it was made from. */
  lemma {:induction false} DecodeEncodeBody(b: seq<byte>)
    ensures |EncodeBody(b)| % 4 != 1
    ensures DecodeBody(EncodeBody(b)) == b
    decreases |b|
  {
    EncodeBodyLength(b);
    BodyLength(|b|);
    if |b| == 0 {
    } else if |b| < 3 {
      DecodeShort(b);
    } else {
      DecodeEncodeBody(b[3..]);
      DecodeEncodeStep(b);
    }
  }

  /** One complete group in front of an encoding that decodes back adds its three bytes in front of the decoding. */
  lemma DecodeEncodeStep(b: seq<byte>)
    requires |b| >= 3
    requires |EncodeBody(b[3..])| % 4 != 1
    requires DecodeBody(EncodeBody(b[3..])) == b[3..]
    ensures |EncodeBody(b)| % 4 != 1
    ensures DecodeBody(EncodeBody(b)) == b
  {
    var rest := b[3..];
    EncodeBodyStep(b);
    ModFourStep(|EncodeBody(rest)|);
    DecodeQuad(b[0], b[1], b[2], EncodeBody(rest));
    assert b == [b[0], b[1], b[2]] + rest;
  }

  /** Adding a complete group keeps the remainder modulo four. */
  lemma ModFourStep(n: nat)
    ensures (n + 4) % 4 == n % 4
  {
  }

  /** One step of EncodeBody on at least three bytes. */
  lemma EncodeBodyStep(b: seq<byte>)
    requires |b| >= 3
    ensures EncodeBody(b) == Quad(b[0], b[1], b[2]) + EncodeBody(b[3..])
  {
  }

  /** One or two bytes survive their unpadded encoding. */
  lemma DecodeShort(b: seq<byte>)
    requires 1 <= |b| <= 2
    ensures |EncodeBody(b)| == |b| + 1
    ensures DecodeBody(EncodeBody(b)) == b
  {
    if |b| == 1 {
      assert b == [b[0]];
      DecodeOne(b[0]);
    } else {
      assert b == [b[0], b[1]];
      DecodeTwo(b[0], b[1]);
    }
  }

  /** Removing the padding of an encoding leaves exactly the unpadded encoding. */
  lemma RemovePaddingOfEncode(b: seq<byte>)
    ensures RemovePadding(Encode(b)) == EncodeBody(b)
  {
    var body := EncodeBody(b);
    var s := Encode(b);
    if |b| % 3 == 0 {
      assert s == body;
      if |s| >= 1 {
        assert IsSymbol(s[|s| - 1]);
      }
    } else if |b| % 3 == 1 {
      assert s[..|s| - 2] == body;
    } else {
      assert IsSymbol(s[|s| - 2]);
      assert s[..|s| - 1] == body;
    }
  }

  /** Forgiving decode inverts encoding. */
  lemma ForgivingDecodeEncode(b: seq<byte>)
    ensures ForgivingDecode(Encode(b)) == Some(b)
  {
    RemovePaddingOfEncode(b);
    DecodeEncodeBody(b);
  }

  /** `atob` returns the bytes that `btoa` encoded, for every binary string. */
  lemma AtobBtoa(s: string)
    requires IsBinaryString(s)
    ensures Btoa(s).Ok?
    ensures Atob(Btoa(s).value) == Ok(s)
  {
    ForgivingDecodeEncode(BinaryBytes(s));
  }

  /** `btoa` accepts exactly the binary strings. */
  lemma BtoaRejects(s: string)
    ensures Btoa(s).Ok? <==> IsBinaryString(s)
  {
  }

  /** `atob` looks only at the non-whitespace characters of its argument. */
  lemma AtobIgnoresWhitespace(s: string)
    ensures Atob(s) == Atob(StripWhitespace(s))
  {
  }

  /** The padded encoding contains no ASCII whitespace. */
  lemma PaddedBase64HasNoWhitespace(s: string)
    requires IsPaddedBase64(s)
    ensures NoWhitespace(s)
  {
    forall i | 0 <= i < |s|
      ensures !IsAsciiWhitespace(s[i])
    {
    }
  }

  /** Encoding a prefix of whole 3-byte groups yields the corresponding prefix of the encoding. */
  lemma {:induction false} EncodeBodyPrefix(b: seq<byte>, groups: nat)
    requires 3 * groups <= |b|
    ensures 4 * groups <= |EncodeBody(b)|
    ensures EncodeBody(b)[..4 * groups] == EncodeBody(b[..3 * groups])
    decreases groups
  {
    if groups == 0 {
    } else {
      assert |b| >= 3;
      var rest := b[3..];
      EncodeBodyPrefix(rest, groups - 1);
      assert b[..3 * groups] == b[..3] + rest[..3 * (groups - 1)];
      assert b[..3 * groups][3..] == rest[..3 * (groups - 1)];
      assert EncodeBody(b[..3 * groups]) == Quad(b[0], b[1], b[2]) + EncodeBody(rest[..3 * (groups - 1)]);
      assert EncodeBody(b) == Quad(b[0], b[1], b[2]) + EncodeBody(rest);
    }
  }

  /** Encoding whole groups needs no padding, and the encoding of a prefix of whole groups is a prefix of the encoding. */
  lemma EncodePrefix(b: seq<byte>, groups: nat)
    requires 3 * groups <= |b|
    ensures Encode(b)[..4 * groups] == Encode(b[..3 * groups])
  {
    var body, k := EncodeBody(b), 4 * groups;
    EncodeBodyPrefix(b, groups);
    PrefixOfAppend(body, Padding(|b|), k);
    PaddingOfGroups(groups);
    assert Encode(b[..3 * groups]) == EncodeBody(b[..3 * groups]) + "";
  }

  /** Whole groups need no padding. */
  lemma PaddingOfGroups(groups: nat)
    ensures Padding(3 * groups) == ""
  {
  }

  /** A prefix that lies within the first part of a concatenation is a prefix of that part. */
  lemma PrefixOfAppend<T>(a: seq<T>, p: seq<T>, k: nat)
    requires k <= |a|
    ensures (a + p)[..k] == a[..k]
  {
  }
}
