/**
 * The text handling of `src/utils/RSA.js`: base64 of key bytes, wrapping into
 * 64-character lines, framing with `-----BEGIN <type>-----` and
 * `-----END <type>-----` lines (the textual encoding of section 2 of RFC 7468,
 * with the `PUBLIC KEY` label of its section 13), stripping that framing back
 * off, and the byte-string conversions around `btoa`/`atob`.
 * The WebCrypto calls that consume and produce the key bytes are not modelled.
 */
module Rsa {
  import opened Wrappers
  import opened Base64
  import opened JsString

  /** Characters per line of the wrapped base64 body. */
  const LINE_WIDTH: nat := 64

  /** Label of the PEM block that `getPEM` produces. */
  const PUBLIC_KEY_LABEL: string := "PUBLIC KEY"

  /**
   * `stringToArrayBuffer`: one byte per character, the character code stored
   * into a Uint8Array, which keeps it modulo 256.
   */
  function StringToArrayBuffer(byteString: string): (buffer: seq<byte>)
    ensures |buffer| == |byteString|
    ensures IsBinaryString(byteString) ==> BinaryString(buffer) == byteString
  {
    seq(|byteString|, i requires 0 <= i < |byteString| => (byteString[i] as int) % 256)
  }

  /** Byte i of the buffer is the code of character i, reduced modulo 256. */
  lemma StringToArrayBufferTruncates(byteString: string, i: nat)
    requires i < |byteString|
    ensures StringToArrayBuffer(byteString)[i] == (byteString[i] as int) % 256
    ensures byteString[i] as int < 256 ==> StringToArrayBuffer(byteString)[i] == byteString[i] as int
  {
  }

  /** Bytes turned into a binary string and back are unchanged. */
  lemma StringToArrayBufferOfBinaryString(b: seq<byte>)
    ensures StringToArrayBuffer(BinaryString(b)) == b
  {
  }

  /**
   * `arrayBufferToBase64`: the buffer's bytes as a binary string
   * (String.fromCharCode per byte), passed to `btoa`.  The result is always
   * the RFC 4648 encoding of the buffer: `btoa` never throws here.
   */
  function ArrayBufferToBase64(buffer: seq<byte>): (r: Result<string, DomError>)
    ensures r == Ok(Encode(buffer))
    ensures |r.value| == 4 * ((|buffer| + 2) / 3)
    ensures IsPaddedBase64(r.value)
    ensures Atob(r.value) == Ok(BinaryString(buffer))
  {
    BinaryBytesOfBinaryString(buffer);
    ForgivingDecodeEncode(buffer);
    Btoa(BinaryString(buffer))
  }

  /** The lines of the wrapped text, without their terminators. */
  function Chunks(s: string): (lines: seq<string>)
    ensures |lines| == (|s| + LINE_WIDTH - 1) / LINE_WIDTH
    decreases |s|
  {
    if |s| == 0 then []
    else if |s| <= LINE_WIDTH then [s]
    else [s[..LINE_WIDTH]] + Chunks(s[LINE_WIDTH..])
  }

  /**
   * The lines are consecutive slices of the input, all of LINE_WIDTH
   * characters except a shorter, non-empty last one.
   */
  lemma {:induction false} ChunksShape(s: string)
    ensures forall i :: 0 <= i < |Chunks(s)| ==> 0 < |Chunks(s)[i]| <= LINE_WIDTH
    ensures forall i :: 0 <= i < |Chunks(s)| - 1 ==> |Chunks(s)[i]| == LINE_WIDTH
    ensures forall i :: 0 <= i < |Chunks(s)| ==>
      LINE_WIDTH * i + |Chunks(s)[i]| <= |s| && Chunks(s)[i] == s[LINE_WIDTH * i .. LINE_WIDTH * i + |Chunks(s)[i]|]
    decreases |s|
  {
    if |s| > LINE_WIDTH {
      var tail := Chunks(s[LINE_WIDTH..]);
      ChunksShape(s[LINE_WIDTH..]);
      var lines := Chunks(s);
      assert lines == [s[..LINE_WIDTH]] + tail;
      forall i | 1 <= i < |lines|
        ensures lines[i] == tail[i - 1]
        ensures lines[i] == s[LINE_WIDTH * i .. LINE_WIDTH * i + |lines[i]|]
      {
        assert lines[i] == tail[i - 1];
        var t, from, len := s[LINE_WIDTH..], LINE_WIDTH * (i - 1), |tail[i - 1]|;
        assert from + len <= |t| && tail[i - 1] == t[from .. from + len];
        SliceOfSuffix(s, LINE_WIDTH, from, from + len);
        assert from + LINE_WIDTH == LINE_WIDTH * i;
      }
    }
  }

  /** A slice of a suffix is the slice of the whole shifted by where the suffix starts. */
  lemma SliceOfSuffix(s: string, k: nat, a: nat, b: nat)
    requires k <= |s| && a <= b <= |s| - k
    ensures s[k..][a..b] == s[k + a .. k + b]
  {
  }

  /** The lines, concatenated, are the input. */
  lemma {:induction false} ConcatChunks(s: string)
    ensures Concat(Chunks(s)) == s
    decreases |s|
  {
    if |s| > LINE_WIDTH {
      ConcatChunks(s[LINE_WIDTH..]);
      assert Chunks(s)[1..] == Chunks(s[LINE_WIDTH..]);
      assert s[..LINE_WIDTH] + s[LINE_WIDTH..] == s;
    } else if |s| > 0 {
      assert Chunks(s)[1..] == [];
    }
  }

  /**
   * `addNewLines`: while text remains, take up to 64 characters
   * (`substring(0, 64)`), append them with a '\n', and continue with the rest.
   */
  function AddNewLines(str: string): (r: string)
    ensures |r| == |str| + (|str| + LINE_WIDTH - 1) / LINE_WIDTH
    ensures |str| > 0 ==> r[|r| - 1] == '\n'
    decreases |str|
  {
    if |str| == 0 then ""
    else
      var n := Min(LINE_WIDTH, |str|);
      str[..n] + "\n" + AddNewLines(str[n..])
  }

  /** `atob` cannot tell the wrapped text from the unwrapped: wrapping adds only whitespace. */
  lemma {:induction false} AddNewLinesWhitespace(str: string)
    ensures StripWhitespace(AddNewLines(str)) == StripWhitespace(str)
    decreases |str|
  {
    if |str| > 0 {
      var n := Min(LINE_WIDTH, |str|);
      var rest := AddNewLines(str[n..]);
      assert AddNewLines(str) == str[..n] + "\n" + rest;
      AddNewLinesWhitespace(str[n..]);
      StripLine(str[..n], rest);
      StripWhitespaceAppend(str[..n], str[n..]);
      assert str[..n] + str[n..] == str;
    }
  }

  /** A line break between two texts disappears when whitespace is removed. */
  lemma StripLine(line: string, rest: string)
    ensures StripWhitespace(line + "\n" + rest) == StripWhitespace(line) + StripWhitespace(rest)
  {
    var tail := ['\n'] + rest;
    assert tail[1..] == rest;
    assert StripWhitespace(tail) == StripWhitespace(rest);
    StripWhitespaceAppend(line, tail);
    assert line + "\n" + rest == line + tail;
  }

  /** The wrapped text is its lines joined by '\n', with a final '\n'. */
  lemma {:induction false} AddNewLinesJoin(s: string)
    ensures AddNewLines(s) == Join(Chunks(s) + [""], '\n')
    decreases |s|
  {
    if |s| == 0 {
    } else if |s| <= LINE_WIDTH {
      assert [s] + [""] == [s, ""];
    } else {
      var tail := Chunks(s[LINE_WIDTH..]);
      AddNewLinesJoin(s[LINE_WIDTH..]);
      assert Chunks(s) + [""] == [s[..LINE_WIDTH]] + (tail + [""]);
      assert (Chunks(s) + [""])[1..] == tail + [""];
    }
  }

  /** The lines of a string, as `split('\n')` sees them. */
  function LinesOf(s: string): seq<string>
  {
    Split(s, '\n')
  }

  /**
   * Line structure of `addNewLines` on newline-free text: ceil(len/64) lines,
   * each terminated by '\n' (so `split` leaves one empty piece after the
   * last), each of at most 64 characters and all but the last of exactly 64,
   * and deleting the terminators gives back the input.
   */
  lemma AddNewLinesLines(s: string)
    requires '\n' !in s
    ensures var p := LinesOf(AddNewLines(s));
      && |p| == (|s| + LINE_WIDTH - 1) / LINE_WIDTH + 1
      && p[|p| - 1] == ""
      && (forall i :: 0 <= i < |p| - 1 ==> 0 < |p[i]| <= LINE_WIDTH)
      && (forall i :: 0 <= i < |p| - 2 ==> |p[i]| == LINE_WIDTH)
      && Concat(p) == s
  {
    var c := Chunks(s);
    LinesOfAddNewLines(s);
    ChunksShape(s);
    ConcatChunks(s);
    ConcatSnoc(c, "");
    ChunkLinesShape(c);
  }

  /** Splitting the wrapped text at '\n' gives back its lines and one empty piece. */
  lemma LinesOfAddNewLines(s: string)
    requires '\n' !in s
    ensures LinesOf(AddNewLines(s)) == Chunks(s) + [""]
  {
    AddNewLinesJoin(s);
    ChunksSeparatorFree(s, '\n');
    SplitJoin(Chunks(s) + [""], '\n');
  }

  /** Appending the empty piece keeps the bounds of the lines before it. */
  lemma ChunkLinesShape(c: seq<string>)
    requires forall i :: 0 <= i < |c| ==> 0 < |c[i]| <= LINE_WIDTH
    requires forall i :: 0 <= i < |c| - 1 ==> |c[i]| == LINE_WIDTH
    ensures forall i :: 0 <= i < |c + [""]| - 1 ==> 0 < |(c + [""])[i]| <= LINE_WIDTH
    ensures forall i :: 0 <= i < |c + [""]| - 2 ==> |(c + [""])[i]| == LINE_WIDTH
  {
    var p := c + [""];
    forall i | 0 <= i < |p| - 1
      ensures p[i] == c[i]
    {
    }
  }

  /** The lines of a string without a given character do not contain it either. */
  lemma ChunksSeparatorFree(s: string, sep: char)
    requires sep !in s
    ensures SeparatorFree(Chunks(s) + [""], sep)
    ensures SeparatorFree(Chunks(s), sep)
  {
    var c := Chunks(s);
    ChunksShape(s);
    forall i, j | 0 <= i < |c| && 0 <= j < |c[i]|
      ensures c[i][j] != sep
    {
      assert c[i][j] == s[LINE_WIDTH * i + j];
    }
  }

  /** The lines of a string without whitespace contain no whitespace. */
  lemma ChunksNoWhitespace(s: string)
    requires NoWhitespace(s)
    ensures forall i :: 0 <= i < |Chunks(s)| ==> NoWhitespace(Chunks(s)[i])
  {
    var c := Chunks(s);
    ChunksShape(s);
    forall i, j | 0 <= i < |c| && 0 <= j < |c[i]|
      ensures !IsAsciiWhitespace(c[i][j])
    {
      assert c[i][j] == s[LINE_WIDTH * i + j];
    }
  }

  /** The first lines of the wrapped text hold exactly the corresponding prefix of the input. */
  lemma {:induction false} ConcatChunksPrefix(s: string, j: nat)
    requires j < |Chunks(s)|
    ensures LINE_WIDTH * j <= |s|
    ensures Concat(Chunks(s)[..j]) == s[..LINE_WIDTH * j]
    decreases j
  {
    var c := Chunks(s);
    ChunksShape(s);
    if j == 0 {
    } else {
      ConcatChunksPrefix(s, j - 1);
      assert c[..j] == c[..j - 1] + [c[j - 1]];
      ConcatSnoc(c[..j - 1], c[j - 1]);
      assert s[..LINE_WIDTH * j] == s[..LINE_WIDTH * (j - 1)] + s[LINE_WIDTH * (j - 1) .. LINE_WIDTH * j];
    }
  }

  /** Removing whitespace from '\n'-joined whitespace-free lines concatenates them. */
  lemma {:induction false} StripJoinedLines(parts: seq<string>)
    requires forall i :: 0 <= i < |parts| ==> NoWhitespace(parts[i])
    ensures StripWhitespace(Join(parts, '\n')) == Concat(parts)
    decreases |parts|
  {
    if |parts| == 0 {
    } else if |parts| == 1 {
      assert Concat(parts[1..]) == "";
    } else {
      StripJoinedLines(parts[1..]);
      StripWhitespaceAppend(parts[0], ['\n']);
      StripWhitespaceAppend(parts[0] + ['\n'], Join(parts[1..], '\n'));
    }
  }

  /** The opening delimiter line of a PEM block with the given type. */
  function BeginLine(pemType: string): string
  {
    "-----BEGIN " + pemType + "-----"
  }

  /** The closing delimiter line of a PEM block with the given type. */
  function EndLine(pemType: string): string
  {
    "-----END " + pemType + "-----"
  }

  /**
   * `toPem`: the BEGIN line and '\n', the base64 of the key wrapped into
   * '\n'-terminated lines, then the END line with no newline after it.
   */
  function ToPem(key: seq<byte>, pemType: string): (pem: string)
    ensures |pem| > 0 && pem[|pem| - 1] == '-'
    ensures pem == Join([BeginLine(pemType)] + BodyLines(key) + [EndLine(pemType)], '\n')
  {
    FrameJoin(BeginLine(pemType), Encode(key), EndLine(pemType));
    BeginLine(pemType) + "\n" + AddNewLines(ArrayBufferToBase64(key).value) + EndLine(pemType)
  }

  /** `getPEM` after `exportKey('spki', ...)`: the exported bytes framed as a PUBLIC KEY block. */
  function GetPem(spki: seq<byte>): (pem: string)
    ensures LinesOf(pem) == [BeginLine(PUBLIC_KEY_LABEL)] + BodyLines(spki) + [EndLine(PUBLIC_KEY_LABEL)]
  {
    PublicKeyLabelOneLine();
    PemLines(spki, PUBLIC_KEY_LABEL);
    ToPem(spki, PUBLIC_KEY_LABEL)
  }

  /** The lines of the base64 body of the PEM of a key. */
  function BodyLines(key: seq<byte>): seq<string>
  {
    Chunks(Encode(key))
  }

  /** Text framed by a first line and a last line is the three parts joined by '\n'. */
  lemma FrameJoin(begin: string, body: string, end: string)
    ensures begin + "\n" + AddNewLines(body) + end == Join([begin] + Chunks(body) + [end], '\n')
  {
    AddNewLinesJoin(body);
    FrameJoinLines(begin, Chunks(body), AddNewLines(body), end);
  }

  /** '\n'-terminated lines between a first and a last line: the whole is all the lines joined by '\n'. */
  lemma FrameJoinLines(begin: string, lines: seq<string>, terminated: string, end: string)
    requires terminated == Join(lines + [""], '\n')
    ensures begin + "\n" + terminated + end == Join([begin] + lines + [end], '\n')
  {
    JoinReplaceLast(lines, '\n', end);
    JoinCons(begin, lines + [end], '\n');
    assert [begin] + lines + [end] == [begin] + (lines + [end]);
  }

  /** A PEM block is its BEGIN line, its body lines and its END line joined by '\n'. */
  lemma ToPemJoin(key: seq<byte>, pemType: string)
    ensures ToPem(key, pemType) == Join([BeginLine(pemType)] + BodyLines(key) + [EndLine(pemType)], '\n')
  {
    FrameJoin(BeginLine(pemType), Encode(key), EndLine(pemType));
  }

  /** Every line of a PEM block is free of '\n' when its type is. */
  lemma PemLinesSeparatorFree(key: seq<byte>, pemType: string)
    requires '\n' !in pemType
    ensures '\n' !in BeginLine(pemType) && '\n' !in EndLine(pemType)
    ensures SeparatorFree(BodyLines(key), '\n')
  {
    PaddedBase64HasNoWhitespace(Encode(key));
    assert '\n' !in Encode(key) by {
      forall j | 0 <= j < |Encode(key)|
        ensures Encode(key)[j] != '\n'
      {
        assert !IsAsciiWhitespace(Encode(key)[j]);
      }
    }
    ChunksSeparatorFree(Encode(key), '\n');
  }

  /**
   * Splitting a PEM block at '\n' gives exactly its lines: the BEGIN line,
   * the body lines and the END line, with no empty piece after the last.
   */
  lemma PemLines(key: seq<byte>, pemType: string)
    requires '\n' !in pemType
    ensures LinesOf(ToPem(key, pemType)) == [BeginLine(pemType)] + BodyLines(key) + [EndLine(pemType)]
  {
    var framed := [BeginLine(pemType)] + BodyLines(key) + [EndLine(pemType)];
    PemLinesSeparatorFree(key, pemType);
    FramedLinesSeparatorFree(BeginLine(pemType), BodyLines(key), EndLine(pemType));
    SplitJoin(framed, '\n');
  }

  /** Separator-free lines between separator-free first and last lines are separator-free. */
  lemma FramedLinesSeparatorFree(begin: string, lines: seq<string>, end: string)
    requires '\n' !in begin && '\n' !in end && SeparatorFree(lines, '\n')
    ensures SeparatorFree([begin] + lines + [end], '\n')
  {
    var framed := [begin] + lines + [end];
    forall i | 0 <= i < |framed|
      ensures '\n' !in framed[i]
    {
      if i == 0 {
        assert framed[i] == begin;
      } else if i <= |lines| {
        assert framed[i] == lines[i - 1];
      } else {
        assert framed[i] == end;
      }
    }
  }

  /** `removeHeaders`: `split('\n')`, keep `slice(1, -2)`, `join('\n')`. */
  function RemoveHeaders(pem: string): (r: string)
    ensures |LinesOf(pem)| <= 3 ==> r == ""
    ensures |LinesOf(pem)| >= 4 ==> LinesOf(r) == LinesOf(pem)[1..|LinesOf(pem)| - 2]
  {
    var lines := LinesOf(pem);
    SliceDropEnds(lines);
    var kept := Slice(lines, 1, -2);
    if |lines| >= 4 then
      SplitJoin(kept, '\n');
      Join(kept, '\n')
    else
      Join(kept, '\n')
  }

  /**
   * removeHeaders keeps exactly the lines strictly between the first one and
   * the last two, in order, whenever at least one such line exists.
   */
  lemma RemoveHeadersLines(pem: string)
    requires |LinesOf(pem)| >= 4
    ensures LinesOf(RemoveHeaders(pem)) == LinesOf(pem)[1..|LinesOf(pem)| - 2]
  {
    var p := LinesOf(pem);
    SliceDropEnds(p);
    SplitJoin(p[1..|p| - 2], '\n');
  }

  /** With at most three lines nothing is kept. */
  lemma RemoveHeadersShort(pem: string)
    requires |LinesOf(pem)| <= 3
    ensures RemoveHeaders(pem) == ""
  {
    SliceDropEnds(LinesOf(pem));
  }

  /** Framed lines followed by a final '\n': removeHeaders returns the inner lines. */
  lemma RemoveHeadersFramedTerminated(begin: string, lines: seq<string>, end: string)
    requires '\n' !in begin && '\n' !in end && SeparatorFree(lines, '\n')
    ensures RemoveHeaders(Join([begin] + lines + [end], '\n') + "\n") == Join(lines, '\n')
  {
    var all := [begin] + lines + [end];
    var withEmpty := all + [""];
    JoinSnoc(all, '\n', "");
    FramedSeparatorFree(begin, lines, end);
    assert Join(all, '\n') + "\n" == Join(withEmpty, '\n');
    SplitJoin(withEmpty, '\n');
    assert LinesOf(Join(withEmpty, '\n')) == withEmpty;
    SliceDropEnds(withEmpty);
    assert withEmpty[1..|withEmpty| - 2] == lines;
    assert Slice(withEmpty, 1, -2) == lines;
  }

  /** Separator-free lines between separator-free first and last lines, with an empty piece after them, are separator-free. */
  lemma FramedSeparatorFree(begin: string, lines: seq<string>, end: string)
    requires '\n' !in begin && '\n' !in end && SeparatorFree(lines, '\n')
    ensures SeparatorFree([begin] + lines + [end] + [""], '\n')
  {
    var framed := [begin] + lines + [end];
    FramedLinesSeparatorFree(begin, lines, end);
    forall i | 0 <= i < |framed + [""]|
      ensures '\n' !in (framed + [""])[i]
    {
      if i < |framed| {
        assert (framed + [""])[i] == framed[i];
      }
    }
  }

  /** The lines but the last; none when there are none. */
  function DropLast(lines: seq<string>): seq<string>
  {
    if |lines| == 0 then [] else lines[..|lines| - 1]
  }

  /** Framed lines with no final '\n': removeHeaders loses the last inner line. */
  lemma RemoveHeadersFramed(begin: string, lines: seq<string>, end: string)
    requires '\n' !in begin && '\n' !in end && SeparatorFree(lines, '\n')
    ensures RemoveHeaders(Join([begin] + lines + [end], '\n')) == Join(DropLast(lines), '\n')
  {
    var all := [begin] + lines + [end];
    assert |all| == |lines| + 2;
    assert SeparatorFree(all, '\n') by {
      forall i | 0 <= i < |all|
        ensures '\n' !in all[i]
      {
        if 1 <= i <= |lines| {
          assert all[i] == lines[i - 1];
        }
      }
    }
    SplitJoin(all, '\n');
    assert LinesOf(Join(all, '\n')) == all;
    SliceDropEnds(all);
    assert Slice(all, 1, -2) == DropLast(lines) by {
      if |lines| > 0 {
        assert all[1..|all| - 2] == lines[..|lines| - 1];
      }
    }
  }

  /**
   * A PEM with a newline after its END line: removeHeaders returns exactly
   * the body lines joined by '\n', whose non-whitespace characters are the
   * base64 of the key.
   */
  lemma RemoveHeadersOfTerminatedPem(key: seq<byte>, pemType: string)
    requires '\n' !in pemType
    ensures RemoveHeaders(ToPem(key, pemType) + "\n") == Join(BodyLines(key), '\n')
    ensures StripWhitespace(RemoveHeaders(ToPem(key, pemType) + "\n")) == Encode(key)
  {
    var c := BodyLines(key);
    ToPemJoin(key, pemType);
    PemLinesSeparatorFree(key, pemType);
    RemoveHeadersFramedTerminated(BeginLine(pemType), c, EndLine(pemType));
    PaddedBase64HasNoWhitespace(Encode(key));
    ChunksNoWhitespace(Encode(key));
    StripJoinedLines(c);
    ConcatChunks(Encode(key));
  }

  /**
   * Number of key bytes that survive removeHeaders on an unterminated PEM:
   * all body lines but the last are kept, and each full 64-character line
   * carries 48 bytes.
   */
  function KeptBytes(n: nat): nat
  {
    var lines := (4 * ((n + 2) / 3) + LINE_WIDTH - 1) / LINE_WIDTH;
    if lines == 0 then 0 else 48 * (lines - 1)
  }

  /**
   * A PEM as toPem produces it, with no newline after the END line:
   * removeHeaders drops the last body line, so only the base64 of the first
   * KeptBytes bytes remains, strictly fewer than the key has.
   */
  lemma RemoveHeadersOfPem(key: seq<byte>, pemType: string)
    requires '\n' !in pemType
    ensures RemoveHeaders(ToPem(key, pemType)) == Join(DropLast(BodyLines(key)), '\n')
    ensures KeptBytes(|key|) <= |key|
    ensures StripWhitespace(RemoveHeaders(ToPem(key, pemType))) == Encode(key[..KeptBytes(|key|)])
    ensures |key| > 0 ==> KeptBytes(|key|) < |key|
  {
    var c := BodyLines(key);
    ToPemJoin(key, pemType);
    PemLinesSeparatorFree(key, pemType);
    RemoveHeadersFramed(BeginLine(pemType), c, EndLine(pemType));
    KeptBytesBound(|key|);
    if |c| == 0 {
      assert |key| == 0;
    } else {
      KeptBodyIsEncodedPrefix(key);
    }
  }

  /** The body lines but the last, once their line breaks are removed, are the encoding of the first KeptBytes bytes. */
  lemma KeptBodyIsEncodedPrefix(key: seq<byte>)
    requires |BodyLines(key)| > 0
    ensures KeptBytes(|key|) <= |key|
    ensures StripWhitespace(Join(BodyLines(key)[..|BodyLines(key)| - 1], '\n')) == Encode(key[..KeptBytes(|key|)])
  {
    var b64 := Encode(key);
    var c := BodyLines(key);
    PaddedBase64HasNoWhitespace(b64);
    StripLinesButLast(b64);
    var groups := 16 * (|c| - 1);
    KeptGroups(|key|, |b64|, |c|);
    EncodePrefix(key, groups);
  }

  /** Removing the line breaks from all lines but the last leaves the text up to the start of the last line. */
  lemma StripLinesButLast(s: string)
    requires NoWhitespace(s)
    requires |Chunks(s)| > 0
    ensures LINE_WIDTH * (|Chunks(s)| - 1) <= |s|
    ensures StripWhitespace(Join(Chunks(s)[..|Chunks(s)| - 1], '\n')) == s[..LINE_WIDTH * (|Chunks(s)| - 1)]
  {
    var c := Chunks(s);
    var kept := c[..|c| - 1];
    ChunksNoWhitespace(s);
    assert forall i :: 0 <= i < |kept| ==> NoWhitespace(kept[i]);
    StripJoinedLines(kept);
    ConcatChunksPrefix(s, |c| - 1);
  }

  /** The lines before the last of the base64 of n bytes hold the encoding of KeptBytes(n) bytes. */
  lemma KeptGroups(n: nat, encoded: nat, lines: nat)
    requires encoded == 4 * ((n + 2) / 3)
    requires lines == (encoded + LINE_WIDTH - 1) / LINE_WIDTH
    requires lines > 0
    ensures 3 * (16 * (lines - 1)) == KeptBytes(n) <= n
    ensures LINE_WIDTH * (lines - 1) == 4 * (16 * (lines - 1))
  {
    KeptBytesBound(n);
  }

  /** Bounds on KeptBytes: it never exceeds the key length and is strictly smaller for a non-empty key. */
  lemma KeptBytesBound(n: nat)
    ensures KeptBytes(n) <= n
    ensures n > 0 ==> KeptBytes(n) < n
    ensures KeptBytes(n) % 48 == 0
  {
    var len := 4 * ((n + 2) / 3);
    var lines := (len + LINE_WIDTH - 1) / LINE_WIDTH;
    if lines > 0 {
      assert LINE_WIDTH * (lines - 1) < len;
      assert 16 * (lines - 1) < (n + 2) / 3;
      assert 3 * ((n + 2) / 3) <= n + 2;
    }
  }

  /**
   * The pure prefix of `importKey`: removeHeaders, `atob`, then
   * stringToArrayBuffer.  The bytes are what `crypto.subtle.importKey`
   * receives as SPKI data; `atob` may throw.
   */
  function ImportKeyBytes(pem: string): (r: Result<seq<byte>, DomError>)
    ensures r.Ok? <==> Atob(RemoveHeaders(pem)).Ok?
    ensures r.Ok? ==> BinaryString(r.value) == Atob(RemoveHeaders(pem)).value
  {
    match Atob(RemoveHeaders(pem))
    case Err(e) => Err(e)
    case Ok(binary) => Ok(StringToArrayBuffer(binary))
  }

  /**
   * Key bytes framed by toPem and given a final '\n' come back unchanged
   * through the first three steps of importKey; atob skips the line breaks.
   */
  lemma ImportKeyOfTerminatedPem(key: seq<byte>, pemType: string)
    requires '\n' !in pemType
    ensures ImportKeyBytes(ToPem(key, pemType) + "\n") == Ok(key)
  {
    RemoveHeadersOfTerminatedPem(key, pemType);
    AtobIgnoresWhitespace(RemoveHeaders(ToPem(key, pemType) + "\n"));
    ForgivingDecodeEncode(key);
    StringToArrayBufferOfBinaryString(key);
  }

  /**
   * Key bytes framed by toPem with no final '\n' are truncated to their first
   * KeptBytes bytes by the first three steps of importKey.
   */
  lemma ImportKeyOfPem(key: seq<byte>, pemType: string)
    requires '\n' !in pemType
    ensures KeptBytes(|key|) <= |key|
    ensures ImportKeyBytes(ToPem(key, pemType)) == Ok(key[..KeptBytes(|key|)])
    ensures |key| > 0 ==> ImportKeyBytes(ToPem(key, pemType)) != Ok(key)
  {
    var body := RemoveHeaders(ToPem(key, pemType));
    RemoveHeadersOfPem(key, pemType);
    var kept := key[..KeptBytes(|key|)];
    assert StripWhitespace(body) == Encode(kept);
    AtobIgnoresWhitespace(body);
    ForgivingDecodeEncode(kept);
    assert Atob(body) == Ok(BinaryString(kept));
    StringToArrayBufferOfBinaryString(kept);
    if |key| > 0 {
      assert |kept| < |key|;
    }
  }

  /** A 294-byte SPKI encoding of an RSA-2048 public key keeps 288 bytes: its seventh, 8-character body line is lost. */
  lemma KeptBytesOfRsa2048Spki()
    ensures (4 * ((294 + 2) / 3) + LINE_WIDTH - 1) / LINE_WIDTH == 7
    ensures KeptBytes(294) == 288
  {
  }

  /** The PUBLIC KEY label fits on one line. */
  lemma PublicKeyLabelOneLine()
    ensures '\n' !in PUBLIC_KEY_LABEL
  {
    assert forall i :: 0 <= i < |PUBLIC_KEY_LABEL| ==> PUBLIC_KEY_LABEL[i] != '\n';
  }

  /**
   * The PUBLIC KEY block getPEM produces for exported key bytes, once
   * re-imported, gives the bytes back only when a final '\n' is appended.
   */
  lemma GetPemReimport(spki: seq<byte>)
    ensures ImportKeyBytes(GetPem(spki) + "\n") == Ok(spki)
    ensures KeptBytes(|spki|) <= |spki|
    ensures ImportKeyBytes(GetPem(spki)) == Ok(spki[..KeptBytes(|spki|)])
    ensures |spki| > 0 ==> ImportKeyBytes(GetPem(spki)) != Ok(spki)
  {
    PublicKeyLabelOneLine();
    var pem := GetPem(spki);
    assert pem == ToPem(spki, PUBLIC_KEY_LABEL);
    ImportKeyOfTerminatedPem(spki, PUBLIC_KEY_LABEL);
    ImportKeyOfPem(spki, PUBLIC_KEY_LABEL);
    var r := ImportKeyBytes(pem);
    assert r == Ok(spki[..KeptBytes(|spki|)]);
  }
}
