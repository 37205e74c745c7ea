/**
 * Base64 as the `codecs` "base64" codec produces it (parbake.py:140): the
 * standard alphabet and `=` padding of section 4 of RFC 4648, laid out as
 * `base64.encodebytes` does, in lines of at most 76 characters (57 input
 * bytes), each ended by a newline, as in section 6.8 of RFC 2045.
 */
module Base64 {
  import opened Wrappers
  import opened Utf8

  type sextet = x: int | 0 <= x < 64

  /** Number of input bytes per output line of `base64.encodebytes`. */
  const LINE_BYTES: nat := 57

  /** The 64-character alphabet of RFC 4648, table 1. */
  function Digit(i: sextet): (c: char)
    ensures IsDigitChar(c)
  {
    if i < 26 then ('A' as int + i) as char
    else if i < 52 then ('a' as int + (i - 26)) as char
    else if i < 62 then ('0' as int + (i - 52)) as char
    else if i == 62 then '+'
    else '/'
  }

  predicate IsDigitChar(c: char) {
    'A' <= c <= 'Z' || 'a' <= c <= 'z' || '0' <= c <= '9' || c == '+' || c == '/'
  }

  /** The alphabet position of a character, if it is in the alphabet. */
  function ValueOf(c: char): (r: Option<sextet>)
    ensures r.Some? <==> IsDigitChar(c)
  {
    if 'A' <= c <= 'Z' then Some(c as int - 'A' as int)
    else if 'a' <= c <= 'z' then Some(c as int - 'a' as int + 26)
    else if '0' <= c <= '9' then Some(c as int - '0' as int + 52)
    else if c == '+' then Some(62)
    else if c == '/' then Some(63)
    else None
  }

  lemma ValueOfDigit(i: sextet)
    ensures ValueOf(Digit(i)) == Some(i)
  {
  }

  /** A character of an encoding: an alphabet digit or the pad `=`. */
  predicate IsEncodingChar(c: char) {
    IsDigitChar(c) || c == '='
  }

  /** RFC 4648 section 4: each 3-byte group becomes four digits; a final 1- or 2-byte group is padded. */
  function Encode(b: seq<byte>): (r: string)
    ensures |r| == 4 * ((|b| + 2) / 3)
    decreases |b|
  {
    if |b| == 0 then []
    else if |b| == 1 then Single(b[0])
    else if |b| == 2 then Pair(b[0], b[1])
    else
      assert (|b| + 2) / 3 == (|b[3..]| + 2) / 3 + 1;
      Quad(b[0], b[1], b[2]) + Encode(b[3..])
  }

  /** A final 1-byte group: two digits and two pads. */
  function Single(b0: byte): (r: string)
    ensures |r| == 4 && IsEncodingChar(r[0]) && IsEncodingChar(r[1]) && IsEncodingChar(r[2]) && IsEncodingChar(r[3])
  {
    [Digit(b0 / 4), Digit((b0 % 4) * 16), '=', '=']
  }

  /** A final 2-byte group: three digits and one pad. */
  function Pair(b0: byte, b1: byte): (r: string)
    ensures |r| == 4 && IsEncodingChar(r[0]) && IsEncodingChar(r[1]) && IsEncodingChar(r[2]) && IsEncodingChar(r[3])
  {
    [Digit(b0 / 4), Digit((b0 % 4) * 16 + b1 / 16), Digit((b1 % 16) * 4), '=']
  }

  /** The four digits of a full 3-byte group: its 24 bits, six at a time. */
  function Quad(b0: byte, b1: byte, b2: byte): (r: string)
    ensures |r| == 4 && IsEncodingChar(r[0]) && IsEncodingChar(r[1]) && IsEncodingChar(r[2]) && IsEncodingChar(r[3])
  {
    [Digit(b0 / 4), Digit((b0 % 4) * 16 + b1 / 16), Digit((b1 % 16) * 4 + b2 / 64), Digit(b2 % 64)]
  }

  /** The inverse of Encode: four characters at a time, padding only in the last group. */
  function Decode(s: string): Option<seq<byte>>
    decreases |s|
  {
    if |s| == 0 then Some([])
    else if |s| < 4 then None
    else
      var v0, v1, v2, v3 := ValueOf(s[0]), ValueOf(s[1]), ValueOf(s[2]), ValueOf(s[3]);
      if v0.None? || v1.None? then None
      else
        var a, b := v0.value, v1.value;
        if |s| == 4 && s[2] == '=' && s[3] == '=' then
          Some([a * 4 + b / 16])
        else if v2.None? then None
        else
          var c := v2.value;
          if |s| == 4 && s[3] == '=' then
            Some([a * 4 + b / 16, (b % 16) * 16 + c / 4])
          else if v3.None? then None
          else
            match Decode(s[4..])
            case None => None
            case Some(rest) => Some(Bytes(a, b, c, v3.value) + rest)
  }

  /** The three bytes whose 24 bits the four sextets spell. */
  function Bytes(v0: sextet, v1: sextet, v2: sextet, v3: sextet): seq<byte> {
    [v0 * 4 + v1 / 16, (v1 % 16) * 16 + v2 / 4, (v2 % 4) * 64 + v3]
  }

  lemma GroupRoundTrip(b0: byte, b1: byte, b2: byte)
    ensures var s0, s1, s2, s3 := b0 / 4, (b0 % 4) * 16 + b1 / 16, (b1 % 16) * 4 + b2 / 64, b2 % 64;
      0 <= s1 < 64 && 0 <= s2 < 64 &&
      s0 * 4 + s1 / 16 == b0 && (s1 % 16) * 16 + s2 / 4 == b1 && (s2 % 4) * 64 + s3 == b2
  {
  }

  lemma DecodeOneByte(b0: byte)
    ensures Decode(Single(b0)) == Some([b0])
  {
    ValueOfDigit(b0 / 4);
    ValueOfDigit((b0 % 4) * 16);
  }

  lemma DecodeTwoBytes(b0: byte, b1: byte)
    ensures Decode(Pair(b0, b1)) == Some([b0, b1])
  {
    GroupRoundTrip(b0, b1, 0);
    var s0, s1, s2 := b0 / 4, (b0 % 4) * 16 + b1 / 16, (b1 % 16) * 4;
    ValueOfDigit(s0);
    ValueOfDigit(s1);
    ValueOfDigit(s2);
  }

  /** One unpadded group of four digits decodes to three bytes ahead of the rest. */
  lemma DecodeDigits(s: string, v0: sextet, v1: sextet, v2: sextet, v3: sextet, rest: seq<byte>)
    requires |s| >= 4
    requires ValueOf(s[0]) == Some(v0) && ValueOf(s[1]) == Some(v1)
    requires ValueOf(s[2]) == Some(v2) && ValueOf(s[3]) == Some(v3)
    requires Decode(s[4..]) == Some(rest)
    ensures Decode(s) == Some(Bytes(v0, v1, v2, v3) + rest)
  {
    assert s[2] != '=' && s[3] != '=';
  }

  /** The digits of a full group name the sextets that decode back to its bytes. */
  lemma QuadValues(b0: byte, b1: byte, b2: byte) returns (s0: sextet, s1: sextet, s2: sextet, s3: sextet)
    ensures var q := Quad(b0, b1, b2);
      ValueOf(q[0]) == Some(s0) && ValueOf(q[1]) == Some(s1) &&
      ValueOf(q[2]) == Some(s2) && ValueOf(q[3]) == Some(s3)
    ensures Bytes(s0, s1, s2, s3) == [b0, b1, b2]
  {
    GroupRoundTrip(b0, b1, b2);
    s0, s1, s2, s3 := b0 / 4, (b0 % 4) * 16 + b1 / 16, (b1 % 16) * 4 + b2 / 64, b2 % 64;
    ValueOfDigit(s0);
    ValueOfDigit(s1);
    ValueOfDigit(s2);
    ValueOfDigit(s3);
  }

  /** A text starting with the group of three bytes starts with the sextets that spell them. */
  lemma GroupDigits(b0: byte, b1: byte, b2: byte, s: string) returns (s0: sextet, s1: sextet, s2: sextet, s3: sextet)
    requires |s| >= 4 && s[..4] == Quad(b0, b1, b2)
    ensures ValueOf(s[0]) == Some(s0) && ValueOf(s[1]) == Some(s1)
    ensures ValueOf(s[2]) == Some(s2) && ValueOf(s[3]) == Some(s3)
    ensures Bytes(s0, s1, s2, s3) == [b0, b1, b2]
  {
    var q := Quad(b0, b1, b2);
    s0, s1, s2, s3 := QuadValues(b0, b1, b2);
    assert s[0] == q[0] && s[1] == q[1] && s[2] == q[2] && s[3] == q[3];
  }

  lemma DecodeGroup(b: seq<byte>, s: string)
    requires |b| >= 3 && |s| >= 4
    requires s[..4] == Quad(b[0], b[1], b[2])
    requires Decode(s[4..]) == Some(b[3..])
    ensures Decode(s) == Some(b)
  {
    var rest := b[3..];
    var s0, s1, s2, s3 := GroupDigits(b[0], b[1], b[2], s);
    DecodeDigits(s, s0, s1, s2, s3, rest);
    assert [b[0], b[1], b[2]] + rest == b;
  }

  lemma EncodeFirstGroup(b: seq<byte>)
    requires |b| >= 3
    ensures Encode(b)[..4] == Quad(b[0], b[1], b[2])
    ensures Encode(b)[4..] == Encode(b[3..])
  {
    var q, t := Quad(b[0], b[1], b[2]), Encode(b[3..]);
    assert Encode(b) == q + t;
    assert (q + t)[..4] == q;
    assert (q + t)[4..] == t;
  }

  /** Every character is an alphabet digit or the pad. */
  predicate IsEncoding(s: string) {
    forall k :: 0 <= k < |s| ==> IsEncodingChar(s[k])
  }

  lemma IsEncodingAppend(s: string, t: string)
    requires IsEncoding(s) && IsEncoding(t)
    ensures IsEncoding(s + t)
  {
    assert forall k :: 0 <= k < |s + t| ==> (s + t)[k] == if k < |s| then s[k] else t[k - |s|];
  }

  /** An encoding uses only the RFC 4648 alphabet and the pad `=`. */
  lemma {:induction false} EncodeAlphabet(b: seq<byte>)
    ensures IsEncoding(Encode(b))
    decreases |b|
  {
    if |b| == 1 {
      var r := Single(b[0]);
      assert forall k :: 0 <= k < 4 ==> r[k] == r[0] || r[k] == r[1] || r[k] == r[2] || r[k] == r[3];
    } else if |b| == 2 {
      var r := Pair(b[0], b[1]);
      assert forall k :: 0 <= k < 4 ==> r[k] == r[0] || r[k] == r[1] || r[k] == r[2] || r[k] == r[3];
    } else if |b| >= 3 {
      var q := Quad(b[0], b[1], b[2]);
      assert forall k :: 0 <= k < 4 ==> q[k] == q[0] || q[k] == q[1] || q[k] == q[2] || q[k] == q[3];
      EncodeAlphabet(b[3..]);
      IsEncodingAppend(q, Encode(b[3..]));
    }
  }

  /** Decoding an encoding gives back the bytes. */
  lemma {:induction false} DecodeEncode(b: seq<byte>)
    ensures Decode(Encode(b)) == Some(b)
    decreases |b|
  {
    if |b| == 1 {
      DecodeOneByte(b[0]);
      assert b == [b[0]];
    } else if |b| == 2 {
      DecodeTwoBytes(b[0], b[1]);
      assert b == [b[0], b[1]];
    } else if |b| >= 3 {
      DecodeEncodeGroup(b);
    }
  }

  lemma {:induction false} DecodeEncodeGroup(b: seq<byte>)
    requires |b| >= 3
    ensures Decode(Encode(b)) == Some(b)
    decreases |b|, 0
  {
    EncodeFirstGroup(b);
    DecodeEncode(b[3..]);
    DecodeGroup(b, Encode(b));
  }

  /** Distinct byte strings have distinct encodings. */
  lemma EncodeInjective(a: seq<byte>, b: seq<byte>)
    ensures Encode(a) == Encode(b) ==> a == b
  {
    DecodeEncode(a);
    DecodeEncode(b);
  }

  /** A prefix whose length is a multiple of three encodes independently of what follows. */
  lemma {:induction false} EncodeAppend(a: seq<byte>, b: seq<byte>)
    requires |a| % 3 == 0
    ensures Encode(a + b) == Encode(a) + Encode(b)
    decreases |a|
  {
    if |a| > 0 {
      assert (a + b)[3..] == a[3..] + b;
      EncodeAppend(a[3..], b);
    } else {
      assert a + b == b;
    }
  }

  /**
   * `base64.encodebytes`: the input in chunks of 57 bytes, each chunk's
   * encoding followed by a newline; the empty input gives the empty text.
   */
  function EncodeLines(b: seq<byte>): (r: string)
    ensures r == [] <==> b == []
    ensures r != [] ==> r[|r| - 1] == '\n'
    decreases |b|
  {
    if b == [] then []
    else
      var n := if |b| < LINE_BYTES then |b| else LINE_BYTES;
      Encode(b[..n]) + "\n" + EncodeLines(b[n..])
  }

  /**
   * The lines of EncodeLines joined by newlines, without the final one:
   * what `.strip()` leaves of a non-empty input's encoding.
   */
  function JoinedLines(b: seq<byte>): (r: string)
    requires b != []
    ensures |r| > 0 && IsEncodingChar(r[0]) && IsEncodingChar(r[|r| - 1])
    decreases |b|
  {
    if |b| <= LINE_BYTES then
      EncodeAlphabet(b);
      Encode(b)
    else
      EncodeAlphabet(b[..LINE_BYTES]);
      Encode(b[..LINE_BYTES]) + "\n" + JoinedLines(b[LINE_BYTES..])
  }

  lemma {:induction false} EncodeLinesJoined(b: seq<byte>)
    requires b != []
    ensures EncodeLines(b) == JoinedLines(b) + "\n"
    decreases |b|
  {
    if |b| > LINE_BYTES {
      EncodeLinesJoined(b[LINE_BYTES..]);
    } else {
      assert b[..|b|] == b;
      assert b[|b|..] == [];
    }
  }

  /** The text with every newline removed. */
  function RemoveNewlines(s: string): (r: string)
    ensures '\n' !in r
  {
    if s == [] then [] else (if s[0] == '\n' then [] else [s[0]]) + RemoveNewlines(s[1..])
  }

  lemma {:induction false} RemoveNewlinesAppend(s: string, t: string)
    ensures RemoveNewlines(s + t) == RemoveNewlines(s) + RemoveNewlines(t)
  {
    if s == [] {
      assert s + t == t;
    } else {
      var head := if s[0] == '\n' then [] else [s[0]];
      assert (s + t)[0] == s[0] && (s + t)[1..] == s[1..] + t;
      assert RemoveNewlines(s + t) == head + RemoveNewlines(s[1..] + t);
      RemoveNewlinesAppend(s[1..], t);
      assert head + (RemoveNewlines(s[1..]) + RemoveNewlines(t)) == (head + RemoveNewlines(s[1..])) + RemoveNewlines(t);
    }
  }

  lemma {:induction false} RemoveNewlinesNoNewline(s: string)
    requires IsEncoding(s)
    ensures RemoveNewlines(s) == s
  {
    if s != [] {
      RemoveNewlinesNoNewline(s[1..]);
    }
  }

  /** Removing the line breaks from the joined lines restores the unbroken encoding. */
  lemma {:induction false} RemoveNewlinesJoined(b: seq<byte>)
    requires b != []
    ensures RemoveNewlines(JoinedLines(b)) == Encode(b)
    decreases |b|
  {
    if |b| <= LINE_BYTES {
      EncodeAlphabet(b);
      RemoveNewlinesNoNewline(Encode(b));
    } else {
      var head, tail := b[..LINE_BYTES], b[LINE_BYTES..];
      var line := Encode(head);
      EncodeAlphabet(head);
      RemoveNewlinesLine(line, JoinedLines(tail));
      RemoveNewlinesJoined(tail);
      EncodeAppend(head, tail);
      assert head + tail == b;
    }
  }

  lemma {:induction false} RemoveNewlinesLine(line: string, rest: string)
    requires IsEncoding(line)
    ensures RemoveNewlines(line + "\n" + rest) == line + RemoveNewlines(rest)
  {
    if line == [] {
      assert line + "\n" + rest == ['\n'] + rest;
      assert (['\n'] + rest)[1..] == rest;
    } else {
      assert (line + "\n" + rest)[1..] == line[1..] + "\n" + rest;
      RemoveNewlinesLine(line[1..], rest);
      assert [line[0]] + line[1..] == line;
    }
  }

  /** The joined lines contain a newline exactly when the input is longer than one line's 57 bytes. */
  lemma {:induction false} JoinedLinesNewline(b: seq<byte>)
    requires b != []
    ensures '\n' in JoinedLines(b) <==> |b| > LINE_BYTES
  {
    if |b| <= LINE_BYTES {
      var s := Encode(b);
      EncodeAlphabet(b);
      assert forall k :: 0 <= k < |s| ==> s[k] != '\n';
    } else {
      var left := Encode(b[..LINE_BYTES]);
      assert JoinedLines(b)[|left|] == '\n';
    }
  }

  /**
   * The length of the joined lines of `n` bytes: four characters per
   * started 3-byte group, and one newline before each further line.
   */
  function JoinedLength(n: nat): nat {
    if n == 0 then 0 else 4 * ((n + 2) / 3) + (n - 1) / LINE_BYTES
  }

  lemma {:induction false} JoinedLinesLength(b: seq<byte>)
    requires b != []
    ensures |JoinedLines(b)| == JoinedLength(|b|)
    decreases |b|
  {
    if |b| > LINE_BYTES {
      var head, tail := b[..LINE_BYTES], b[LINE_BYTES..];
      var line := Encode(head);
      assert |head| == LINE_BYTES;
      assert |line| == 76;
      assert JoinedLines(b) == line + "\n" + JoinedLines(tail);
      assert |JoinedLines(b)| == 77 + |JoinedLines(tail)|;
      JoinedLinesLength(tail);
      JoinedLengthStep(|b|);
    } else {
      assert JoinedLines(b) == Encode(b);
      assert (|b| - 1) / LINE_BYTES == 0;
      assert JoinedLength(|b|) == 4 * ((|b| + 2) / 3);
    }
  }

  /** A line of 57 bytes contributes 76 characters and one newline. */
  lemma JoinedLengthStep(n: nat)
    requires n > LINE_BYTES
    ensures JoinedLength(n) == 77 + JoinedLength(n - LINE_BYTES)
  {
    assert (n + 2) / 3 == (n - LINE_BYTES + 2) / 3 + 19;
    assert (n - 1) / LINE_BYTES == (n - LINE_BYTES - 1) / LINE_BYTES + 1;
  }

  /** Alphabet digits and the pad are ASCII. */
  lemma EncodingAscii(s: string)
    requires IsEncoding(s)
    ensures IsAscii(s)
  {
  }

  /** The joined lines are ASCII text: alphabet digits, pads and newlines. */
  lemma {:induction false} JoinedLinesAscii(b: seq<byte>)
    requires b != []
    ensures IsAscii(JoinedLines(b))
    decreases |b|
  {
    if |b| <= LINE_BYTES {
      EncodeAlphabet(b);
      EncodingAscii(Encode(b));
    } else {
      var line, rest := Encode(b[..LINE_BYTES]), JoinedLines(b[LINE_BYTES..]);
      EncodeAlphabet(b[..LINE_BYTES]);
      EncodingAscii(line);
      JoinedLinesAscii(b[LINE_BYTES..]);
      assert IsAscii("\n");
      AsciiAppend(line, "\n");
      AsciiAppend(line + "\n", rest);
    }
  }
}
