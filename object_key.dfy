/**
  How the handlers turn the object key of an S3 event record into the image's
  name. S3 delivers the key form-urlencoded (a space arrives as '+', other
  reserved characters as %XX escapes of their UTF-8 bytes). The handlers
  rewrite every '+' to a space, the application/x-www-form-urlencoded
  convention of section 5.1 of the WHATWG URL Standard, then percent-decode
  the result with decodeURIComponent (ECMA-262 section 19.2.6.2, the "Decode"
  operation with an empty reserved set; percent-encoding itself is section
  2.1 of RFC 3986), and take the part after the last '/' as the file name.
 */
module ObjectKey {
  import opened Wrappers
  import opened Js

  // ---------------------------------------------------------------------------
  // key.replace(/\+/g, " ")

  function PlusToSpace(s: string): (r: string)
    ensures |r| == |s|
    ensures forall i :: 0 <= i < |s| ==> r[i] == (if s[i] == '+' then ' ' else s[i])
  {
    if s == [] then [] else [if s[0] == '+' then ' ' else s[0]] + PlusToSpace(s[1..])
  }

  lemma PlusToSpaceAppend(a: string, b: string)
    ensures PlusToSpace(a + b) == PlusToSpace(a) + PlusToSpace(b)
  {
    var l, r := PlusToSpace(a + b), PlusToSpace(a) + PlusToSpace(b);
    assert |l| == |r|;
    forall i | 0 <= i < |l| ensures l[i] == r[i] {
      if i < |a| { assert (a + b)[i] == a[i]; } else { assert (a + b)[i] == b[i - |a|]; }
    }
  }

  // ---------------------------------------------------------------------------
  // Hexadecimal digits and single %XX escapes

  predicate IsHexDigit(c: char) {
    '0' <= c <= '9' || 'a' <= c <= 'f' || 'A' <= c <= 'F'
  }

  function HexDigitValue(c: char): (d: nat)
    requires IsHexDigit(c)
    ensures d < 16
  {
    if '0' <= c <= '9' then c as int - '0' as int
    else if 'a' <= c <= 'f' then c as int - 'a' as int + 10
    else c as int - 'A' as int + 10
  }

  /** The upper-case hex digit of d; HexDigitValue reads it back. */
  function HexChar(d: nat): (c: char)
    requires d < 16
    ensures IsHexDigit(c) && HexDigitValue(c) == d
    ensures c != '%' && c != '+'
  {
    if d < 10 then ('0' as int + d) as char else ('A' as int + d - 10) as char
  }

  /** The byte written as "%XX" at index k of s, if there is one. */
  function EscapedByte(s: string, k: nat): (r: Option<nat>)
    ensures r.Some? ==> r.value < 256 && k + 3 <= |s|
    ensures r.Some? <==> k + 3 <= |s| && s[k] == '%' && IsHexDigit(s[k + 1]) && IsHexDigit(s[k + 2])
  {
    if k + 3 <= |s| && s[k] == '%' && IsHexDigit(s[k + 1]) && IsHexDigit(s[k + 2])
    then Some(16 * HexDigitValue(s[k + 1]) + HexDigitValue(s[k + 2]))
    else None
  }

  // ---------------------------------------------------------------------------
  // UTF-8, as decodeURIComponent reads it

  /** The length of the UTF-8 sequence that lead byte b starts: the number of
      its leading 1 bits, or 1 for an ASCII byte; 0 when no sequence can start
      with b (a continuation byte, or five or more leading 1 bits). */
  function SequenceLength(b: nat): (n: nat)
    requires b < 256
    ensures n <= 4
  {
    if b < 0x80 then 1
    else if b < 0xC0 then 0
    else if b < 0xE0 then 2
    else if b < 0xF0 then 3
    else if b < 0xF8 then 4
    else 0
  }

  predicate IsContinuation(b: nat) {
    0x80 <= b < 0xC0
  }

  /** The code-point bits a lead byte of an n-byte sequence carries. */
  function LeadBits(b: nat, n: nat): int
    requires 2 <= n <= 4
  {
    if n == 2 then b - 0xC0 else if n == 3 then b - 0xE0 else b - 0xF0
  }

  /** The smallest code point whose shortest encoding has n bytes (smaller ones would be overlong). */
  function MinCodePoint(n: nat): int
    requires 2 <= n <= 4
  {
    if n == 2 then 0x80 else if n == 3 then 0x800 else 0x10000
  }

  /** A Unicode scalar value: a code point that is not a surrogate. */
  predicate IsScalar(cp: int) {
    0 <= cp < 0xD800 || 0xE000 <= cp < 0x110000
  }

  /** Reads the continuation bytes j .. n-1 of a sequence, the j-th written as
      "%XX" at index 3*j, folding six bits of each into acc. */
  function Continue(s: string, j: nat, n: nat, acc: int): (r: Option<int>)
    requires 1 <= j <= n <= 4
    ensures r.Some? && j < n ==> 3 * n <= |s|
    decreases n - j
  {
    if j == n then Some(acc)
    else
      match EscapedByte(s, 3 * j)
      case None => None
      case Some(b) =>
        if IsContinuation(b) then Continue(s, j + 1, n, acc * 64 + (b - 0x80)) else None
  }

  /** One decoded escape: the character and how many characters of input it used. */
  datatype Escape = Escape(c: char, width: nat)

  /** Decodes the escape sequence at the start of s (which begins with '%'):
      one %XX for an ASCII byte, or the two to four %XX escapes of one UTF-8
      sequence. None is the URIError case: a malformed escape, a byte that
      cannot start a sequence, a missing or wrong continuation byte, an
      overlong form, a surrogate or a code point past U+10FFFF. */
  function DecodeEscape(s: string): (r: Option<Escape>)
    requires |s| > 0 && s[0] == '%'
    ensures r.Some? ==> 3 <= r.value.width <= 12 && r.value.width <= |s|
    ensures r.Some? ==> EscapedByte(s, 0).Some? && r.value.width == 3 * SequenceLength(EscapedByte(s, 0).value)
  {
    match EscapedByte(s, 0)
    case None => None
    case Some(b0) =>
      var n := SequenceLength(b0);
      if n == 0 then None
      else if n == 1 then Some(Escape(b0 as char, 3))
      else
        match Continue(s, 1, n, LeadBits(b0, n))
        case None => None
        case Some(cp) =>
          if cp < MinCodePoint(n) || !IsScalar(cp) then None
          else Some(Escape(cp as char, 3 * n))
  }

  predicate NoPercent(s: string) {
    forall i :: 0 <= i < |s| ==> s[i] != '%'
  }

  /** decodeURIComponent(s). Every escape is decoded (the reserved set is
      empty); any malformed escape makes the whole call throw URIError. */
  function PercentDecode(s: string): (r: Result<string, JsError>)
    ensures r.Failure? ==> r.error == URIError
    ensures NoPercent(s) ==> r == Success(s)
    decreases |s|
  {
    if s == [] then Success([])
    else if s[0] != '%' then
      match PercentDecode(s[1..])
      case Failure(e) => Failure(e)
      case Success(t) => assert [s[0]] + s[1..] == s; Success([s[0]] + t)
    else
      match DecodeEscape(s)
      case None => Failure(URIError)
      case Some(esc) =>
        match PercentDecode(s[esc.width..])
        case Failure(e) => Failure(e)
        case Success(t) => Success([esc.c] + t)
  }

  /** decodeURIComponent(key.replace(/\+/g, " ")): the source key of a record. */
  function DecodeKey(key: string): Result<string, JsError> {
    PercentDecode(PlusToSpace(key))
  }

  /** A key without escapes decodes to itself with every '+' turned into a space. */
  lemma DecodeKeyWithoutEscapes(key: string)
    requires NoPercent(key)
    ensures DecodeKey(key) == Success(PlusToSpace(key))
    ensures DecodeKey(key).value == key <==> (forall i :: 0 <= i < |key| ==> key[i] != '+')
  {
    var p := PlusToSpace(key);
    assert NoPercent(p);
    if DecodeKey(key).value == key {
      forall i | 0 <= i < |key| ensures key[i] != '+' {
        assert p[i] == key[i];
      }
    }
  }

  /** The result of decoding c followed by input that decodes to r. */
  function Prepend(c: char, r: Result<string, JsError>): Result<string, JsError> {
    match r
    case Success(d) => Success([c] + d)
    case Failure(e) => Failure(e)
  }

  lemma PlusToSpaceWithoutPlus(s: string)
    requires forall i :: 0 <= i < |s| ==> s[i] != '+'
    ensures PlusToSpace(s) == s
  {
  }

  lemma DecodeLiteralChar(c: char, rest: string)
    requires c != '%'
    ensures PercentDecode([c] + rest) == Prepend(c, PercentDecode(rest))
  {
    assert ([c] + rest)[1..] == rest;
  }

  lemma DecodeAsciiEscape(b: nat, rest: string)
    requires b < 0x80
    ensures PercentDecode(PercentByte(b) + rest) == Prepend(b as char, PercentDecode(rest))
  {
    var t := PercentByte(b) + rest;
    assert t[0] == '%' && t[1] == HexChar(b / 16) && t[2] == HexChar(b % 16);
    assert EscapedByte(t, 0) == Some(b);
    assert t[3..] == rest;
  }

  /** The result of decoding the literal text a followed by input that decodes to r. */
  function PrependAll(a: string, r: Result<string, JsError>): Result<string, JsError> {
    match r
    case Success(d) => Success(a + d)
    case Failure(e) => Failure(e)
  }

  lemma PrependThenAll(c: char, a: string, r: Result<string, JsError>)
    ensures Prepend(c, PrependAll(a, r)) == PrependAll([c] + a, r)
  {
    if r.Success? {
      assert [c] + (a + r.value) == ([c] + a) + r.value;
    }
  }

  /** Text without '%' passes through decoding unchanged, whatever follows it. */
  lemma {:induction false} DecodeAfterLiteralText(a: string, rest: string)
    requires NoPercent(a)
    ensures PercentDecode(a + rest) == PrependAll(a, PercentDecode(rest))
    decreases |a|
  {
    if a != [] {
      var c, t := a[0], a[1..];
      assert a == [c] + t;
      assert a + rest == [c] + (t + rest);
      DecodeLiteralChar(c, t + rest);
      DecodeAfterLiteralText(t, rest);
      PrependThenAll(c, t, PercentDecode(rest));
      calc {
        PercentDecode(a + rest);
        PercentDecode([c] + (t + rest));
        Prepend(c, PercentDecode(t + rest));
        Prepend(c, PrependAll(t, PercentDecode(rest)));
        PrependAll([c] + t, PercentDecode(rest));
      }
    } else {
      assert a + rest == rest;
      if PercentDecode(rest).Success? {
        assert a + PercentDecode(rest).value == PercentDecode(rest).value;
      }
    }
  }

  /** The '+' rewrite runs first, so a literal '+' in a name survives only as
      the escape %2B; the '+' characters around it are spaces. */
  lemma EscapedPlusIsPlus(a: string, b: string)
    requires NoPercent(a) && NoPercent(b)
    ensures DecodeKey(a + "%2B" + b) == Success(PlusToSpace(a) + "+" + PlusToSpace(b))
  {
    RewriteAroundPlusEscape(a, b);
    DecodeAroundPlusEscape(PlusToSpace(a), PlusToSpace(b));
  }

  lemma RewriteAroundPlusEscape(a: string, b: string)
    ensures PlusToSpace(a + "%2B" + b) == PlusToSpace(a) + ("%2B" + PlusToSpace(b))
  {
    var e := "%2B";
    assert a + e + b == a + (e + b);
    PlusToSpaceAppend(a, e + b);
    PlusToSpaceAppend(e, b);
    PlusToSpaceWithoutPlus(e);
  }

  lemma DecodeAroundPlusEscape(pa: string, pb: string)
    requires NoPercent(pa) && NoPercent(pb)
    ensures PercentDecode(pa + ("%2B" + pb)) == Success(pa + "+" + pb)
  {
    PlusEscapeText();
    DecodeAfterLiteralText(pa, "%2B" + pb);
    DecodeAsciiEscape(0x2B, pb);
    assert pa + ([0x2B as char] + pb) == pa + "+" + pb;
  }

  lemma PlusEscapeText()
    ensures PercentByte(0x2B) == "%2B"
  {
  }

  /** A '%' that does not start two hex digits is a URIError, not literal text. */
  lemma TruncatedEscapeFails(a: string, rest: string)
    requires NoPercent(a)
    requires |rest| < 2 || !IsHexDigit(rest[0]) || !IsHexDigit(rest[1])
    ensures PercentDecode(a + "%" + rest) == Failure(URIError)
  {
    var t := "%" + rest;
    assert a + "%" + rest == a + t;
    DecodeAfterLiteralText(a, t);
    assert EscapedByte(t, 0) == None;
  }

  /** An escape that DecodeEscape rejects, after any text without escapes, makes the whole decoding throw. */
  lemma MalformedEscapeFails(a: string, t: string)
    requires NoPercent(a)
    requires |t| > 0 && t[0] == '%' && DecodeEscape(t).None?
    ensures PercentDecode(a + t) == Failure(URIError)
  {
    DecodeAfterLiteralText(a, t);
  }

  lemma EscapedByteOfPercentByte(b: nat, rest: string)
    requires b < 256
    ensures EscapedByte(PercentByte(b) + rest, 0) == Some(b)
  {
    var t := PercentByte(b) + rest;
    assert t[0] == '%' && t[1] == HexChar(b / 16) && t[2] == HexChar(b % 16);
  }

  /** A byte that cannot start a UTF-8 sequence (a continuation byte, or
      0xF8 and above) is a URIError. */
  lemma InvalidLeadByteFails(a: string, b: nat, rest: string)
    requires NoPercent(a)
    requires b < 256 && SequenceLength(b) == 0
    ensures PercentDecode(a + PercentByte(b) + rest) == Failure(URIError)
  {
    EscapedByteOfPercentByte(b, rest);
    assert a + PercentByte(b) + rest == a + (PercentByte(b) + rest);
    MalformedEscapeFails(a, PercentByte(b) + rest);
  }

  /** A lead byte not followed by an escaped byte is a URIError. */
  lemma LoneLeadByteFails(a: string, b: nat, rest: string)
    requires NoPercent(a)
    requires b < 256 && SequenceLength(b) >= 2
    requires EscapedByte(rest, 0).None?
    ensures PercentDecode(a + PercentByte(b) + rest) == Failure(URIError)
  {
    var t := PercentByte(b) + rest;
    EscapedByteOfPercentByte(b, rest);
    EscapedByteShift(PercentByte(b), rest, 0);
    assert Continue(t, 1, SequenceLength(b), LeadBits(b, SequenceLength(b))) == None;
    assert a + PercentByte(b) + rest == a + t;
    MalformedEscapeFails(a, t);
  }

  /** A lead byte followed by an escaped byte that is not a continuation byte is a URIError. */
  lemma BadContinuationFails(a: string, b: nat, c: nat, rest: string)
    requires NoPercent(a)
    requires b < 256 && SequenceLength(b) >= 2
    requires c < 256 && !IsContinuation(c)
    ensures PercentDecode(a + PercentByte(b) + PercentByte(c) + rest) == Failure(URIError)
  {
    var t := PercentByte(b) + (PercentByte(c) + rest);
    EscapedByteOfPercentByte(b, PercentByte(c) + rest);
    EscapedByteOfPercentByte(c, rest);
    EscapedByteShift(PercentByte(b), PercentByte(c) + rest, 0);
    assert Continue(t, 1, SequenceLength(b), LeadBits(b, SequenceLength(b))) == None;
    assert a + PercentByte(b) + PercentByte(c) + rest == a + t;
    MalformedEscapeFails(a, t);
  }

  /** A two-byte encoding of a code point below 0x80 (such as %C0%AF for '/') is overlong: a URIError. */
  lemma OverlongFails(a: string, cp: nat, rest: string)
    requires NoPercent(a)
    requires cp < 0x80
    ensures PercentDecode(a + PercentBytes([0xC0 + cp / 64, 0x80 + cp % 64]) + rest) == Failure(URIError)
  {
    var bs := [0xC0 + cp / 64, 0x80 + cp % 64];
    var t := PercentBytes(bs) + rest;
    EscapedByteOfPercentBytes(bs, rest, 0);
    EscapedByteOfPercentBytes(bs, rest, 1);
    assert SequenceLength(bs[0]) == 2;
    assert Continue(t, 1, 2, LeadBits(bs[0], 2)) == Some(cp);
    assert a + PercentBytes(bs) + rest == a + t;
    MalformedEscapeFails(a, t);
  }

  /** A three-byte encoding of a code point below 0x800 is overlong: a URIError. */
  lemma OverlongThreeByteFails(a: string, cp: nat, rest: string)
    requires NoPercent(a)
    requires cp < 0x800
    ensures PercentDecode(a + PercentBytes([0xE0, 0x80 + cp / 64, 0x80 + cp % 64]) + rest) == Failure(URIError)
  {
    var bs := [0xE0, 0x80 + cp / 64, 0x80 + cp % 64];
    var t := PercentBytes(bs) + rest;
    EscapedByteOfPercentBytes(bs, rest, 0);
    EscapedByteOfPercentBytes(bs, rest, 1);
    EscapedByteOfPercentBytes(bs, rest, 2);
    assert SequenceLength(bs[0]) == 3;
    assert Continue(t, 1, 3, LeadBits(bs[0], 3)) == Some(cp);
    assert a + PercentBytes(bs) + rest == a + t;
    MalformedEscapeFails(a, t);
  }

  /** A four-byte encoding of a code point below 0x10000 is overlong: a URIError. */
  lemma OverlongFourByteFails(a: string, cp: nat, rest: string)
    requires NoPercent(a)
    requires cp < 0x10000
    ensures PercentDecode(a + PercentBytes([0xF0, 0x80 + cp / 4096, 0x80 + (cp / 64) % 64, 0x80 + cp % 64]) + rest)
         == Failure(URIError)
  {
    var bs := [0xF0, 0x80 + cp / 4096, 0x80 + (cp / 64) % 64, 0x80 + cp % 64];
    var t := PercentBytes(bs) + rest;
    EscapedByteOfPercentBytes(bs, rest, 0);
    EscapedByteOfPercentBytes(bs, rest, 1);
    EscapedByteOfPercentBytes(bs, rest, 2);
    EscapedByteOfPercentBytes(bs, rest, 3);
    DivStep(cp);
    assert SequenceLength(bs[0]) == 4;
    assert Continue(t, 3, 4, cp / 64) == Some(cp);
    assert Continue(t, 1, 4, LeadBits(bs[0], 4)) == Some(cp);
    assert a + PercentBytes(bs) + rest == a + t;
    MalformedEscapeFails(a, t);
  }

  /** The three-byte form of a surrogate code point (such as %ED%A0%80) is a URIError. */
  lemma SurrogateEscapeFails(a: string, cp: nat, rest: string)
    requires NoPercent(a)
    requires 0xD800 <= cp < 0xE000
    ensures PercentDecode(a + PercentBytes([0xE0 + cp / 4096, 0x80 + (cp / 64) % 64, 0x80 + cp % 64]) + rest)
         == Failure(URIError)
  {
    var bs := [0xE0 + cp / 4096, 0x80 + (cp / 64) % 64, 0x80 + cp % 64];
    var t := PercentBytes(bs) + rest;
    EscapedByteOfPercentBytes(bs, rest, 0);
    EscapedByteOfPercentBytes(bs, rest, 1);
    EscapedByteOfPercentBytes(bs, rest, 2);
    DivStep(cp);
    assert SequenceLength(bs[0]) == 3;
    assert Continue(t, 2, 3, cp / 64) == Some(cp);
    assert Continue(t, 1, 3, LeadBits(bs[0], 3)) == Some(cp);
    assert a + PercentBytes(bs) + rest == a + t;
    MalformedEscapeFails(a, t);
  }

  /** The four-byte form of a number past U+10FFFF is a URIError. */
  lemma PastMaxCodePointFails(a: string, cp: nat, rest: string)
    requires NoPercent(a)
    requires 0x110000 <= cp < 0x200000
    ensures PercentDecode(a + PercentBytes([0xF0 + cp / 262144, 0x80 + (cp / 4096) % 64, 0x80 + (cp / 64) % 64,
                                            0x80 + cp % 64]) + rest) == Failure(URIError)
  {
    var bs := [0xF0 + cp / 262144, 0x80 + (cp / 4096) % 64, 0x80 + (cp / 64) % 64, 0x80 + cp % 64];
    var t := PercentBytes(bs) + rest;
    EscapedByteOfPercentBytes(bs, rest, 0);
    EscapedByteOfPercentBytes(bs, rest, 1);
    EscapedByteOfPercentBytes(bs, rest, 2);
    EscapedByteOfPercentBytes(bs, rest, 3);
    DivStep(cp);
    assert SequenceLength(bs[0]) == 4;
    assert Continue(t, 3, 4, cp / 64) == Some(cp);
    assert Continue(t, 2, 4, cp / 4096) == Some(cp);
    assert Continue(t, 1, 4, LeadBits(bs[0], 4)) == Some(cp);
    assert a + PercentBytes(bs) + rest == a + t;
    MalformedEscapeFails(a, t);
  }

  // ---------------------------------------------------------------------------
  // split("/").pop()

  /** Prepends character c to the first piece of a split, or starts a new piece when c is the separator. */
  function Cons(c: char, parts: seq<string>): (r: seq<string>)
    requires |parts| >= 1
    ensures |r| >= 1
  {
    if c == '/' then [""] + parts else [[c] + parts[0]] + parts[1..]
  }

  /** key.split("/"): the maximal '/'-free pieces between separators, possibly empty. */
  function Split(s: string): (parts: seq<string>)
    ensures |parts| >= 1
    ensures forall k :: 0 <= k < |parts| ==> '/' !in parts[k]
    ensures '/' !in s ==> parts == [s]
    ensures '/' in s ==> |parts| >= 2
    decreases |s|
  {
    if s == [] then [""]
    else
      assert s == [s[0]] + s[1..];
      Cons(s[0], Split(s[1..]))
  }

  /** parts.join("/"), the inverse of Split. */
  function JoinSegments(parts: seq<string>): string
    requires |parts| >= 1
  {
    if |parts| == 1 then parts[0] else parts[0] + "/" + JoinSegments(parts[1..])
  }

  lemma {:induction false} SplitJoin(s: string)
    ensures JoinSegments(Split(s)) == s
    decreases |s|
  {
    if s != [] {
      var rest := Split(s[1..]);
      SplitJoin(s[1..]);
      if s[0] != '/' && |rest| > 1 {
        assert JoinSegments(rest) == rest[0] + "/" + JoinSegments(rest[1..]);
        assert Split(s)[1..] == rest[1..];
      }
    }
  }

  /** originalFileName = srcKey.split("/").pop(). */
  function FileName(srcKey: string): string {
    var parts := Split(srcKey);
    parts[|parts| - 1]
  }

  /** The file name is the suffix of the key after its last '/' (all of the
      key when it has none): a '/'-free suffix that is either the whole key or
      preceded by a '/'. */
  lemma {:induction false} FileNameIsLastSegment(s: string)
    ensures var r := FileName(s);
      '/' !in r && |r| <= |s| && s[|s| - |r|..] == r &&
      (|r| < |s| ==> s[|s| - |r| - 1] == '/')
    decreases |s|
  {
    if s != [] {
      var t := s[1..];
      FileNameIsLastSegment(t);
      var rest := Split(t);
      var rt := FileName(t);
      assert s[|s| - |rt|..] == t[|t| - |rt|..];
      if |rt| < |t| {
        assert s[|s| - |rt| - 1] == t[|t| - |rt| - 1];
      }
      if s[0] == '/' {
        assert FileName(s) == rt;
      } else if |rest| > 1 {
        assert FileName(s) == rt;
        assert '/' in t;
      } else {
        assert rest == [t];
        assert FileName(s) == [s[0]] + t == s;
      }
    }
  }

  lemma ConsAppend(c: char, p: seq<string>, q: seq<string>)
    requires |p| >= 1
    ensures Cons(c, p + q) == Cons(c, p) + q
  {
    if c != '/' {
      assert (p + q)[0] == p[0];
      assert (p + q)[1..] == p[1..] + q;
    }
  }

  /** Splitting around one separator splits each side on its own. */
  lemma {:induction false} SplitAround(a: string, b: string)
    ensures Split(a + "/" + b) == Split(a) + Split(b)
    decreases |a|
  {
    var s := a + "/" + b;
    if a == [] {
      assert s == "/" + b && s[1..] == b;
    } else {
      SplitAround(a[1..], b);
      assert s[0] == a[0] && s[1..] == a[1..] + "/" + b;
      ConsAppend(a[0], Split(a[1..]), Split(b));
    }
  }

  lemma FileNameCorners(s: string)
    ensures '/' !in s ==> FileName(s) == s
    ensures |s| > 0 && s[|s| - 1] == '/' ==> FileName(s) == ""
  {
    if |s| > 0 && s[|s| - 1] == '/' {
      var d := s[..|s| - 1];
      SplitAround(d, "");
      assert s == d + "/" + "";
    }
  }

  /** The file name of key `dir + "/" + name` is `name` for a '/'-free name. */
  lemma FileNameOfPath(dir: string, name: string)
    requires '/' !in name
    ensures FileName(dir + "/" + name) == name
  {
    SplitAround(dir, name);
  }

  /** srcKey.split("/").pop() after decoding: the catalog's file name for a record key. */
  function FileNameOfKey(key: string): (r: Result<string, JsError>)
    ensures r.Failure? <==> DecodeKey(key).Failure?
    ensures r.Failure? ==> r.error == URIError
    ensures r.Success? ==> r.value == FileName(DecodeKey(key).value)
  {
    match DecodeKey(key)
    case Failure(e) => Failure(e)
    case Success(srcKey) => Success(FileName(srcKey))
  }

  // ---------------------------------------------------------------------------
  // The encoding S3 applies to keys in event notifications, as a reference
  // that DecodeKey must invert.

  /** Characters S3 leaves as they are in a notification's key. */
  predicate IsUnescaped(c: char) {
    'a' <= c <= 'z' || 'A' <= c <= 'Z' || '0' <= c <= '9' ||
    c == '-' || c == '_' || c == '.' || c == '*' || c == '/'
  }

  /** The UTF-8 encoding of one character. */
  function Utf8Bytes(c: char): (bs: seq<nat>)
    ensures 1 <= |bs| <= 4
    ensures forall j :: 0 <= j < |bs| ==> bs[j] < 256
  {
    var cp := c as int;
    if cp < 0x80 then [cp]
    else if cp < 0x800 then [0xC0 + cp / 64, 0x80 + cp % 64]
    else if cp < 0x10000 then [0xE0 + cp / 4096, 0x80 + (cp / 64) % 64, 0x80 + cp % 64]
    else [0xF0 + cp / 262144, 0x80 + (cp / 4096) % 64, 0x80 + (cp / 64) % 64, 0x80 + cp % 64]
  }

  /** One byte as "%XX" with upper-case hex digits. */
  function PercentByte(b: nat): (r: string)
    requires b < 256
    ensures |r| == 3 && r[0] == '%' && r[1] != '+' && r[2] != '+'
  {
    ['%', HexChar(b / 16), HexChar(b % 16)]
  }

  function PercentBytes(bs: seq<nat>): (r: string)
    requires forall j :: 0 <= j < |bs| ==> bs[j] < 256
    ensures |r| == 3 * |bs|
    ensures forall i :: 0 <= i < |r| ==> r[i] != '+'
  {
    if bs == [] then [] else PercentByte(bs[0]) + PercentBytes(bs[1..])
  }

  function EncodeChar(c: char): string {
    if IsUnescaped(c) then [c] else if c == ' ' then "+" else PercentBytes(Utf8Bytes(c))
  }

  /** The key as an S3 event notification carries it. */
  function FormEncode(s: string): string {
    if s == [] then [] else EncodeChar(s[0]) + FormEncode(s[1..])
  }

  lemma EscapedByteShift(x: string, y: string, k: nat)
    requires |x| == 3
    ensures EscapedByte(x + y, 3 + k) == EscapedByte(y, k)
  {
    if k + 3 <= |y| {
      assert (x + y)[3 + k] == y[k] && (x + y)[4 + k] == y[k + 1] && (x + y)[5 + k] == y[k + 2];
    }
  }

  lemma {:induction false} EscapedByteOfPercentBytes(bs: seq<nat>, rest: string, j: nat)
    requires forall k :: 0 <= k < |bs| ==> bs[k] < 256
    requires j < |bs|
    ensures EscapedByte(PercentBytes(bs) + rest, 3 * j) == Some(bs[j])
    decreases j
  {
    var x, y := PercentByte(bs[0]), PercentBytes(bs[1..]) + rest;
    assert PercentBytes(bs) + rest == x + y;
    if j == 0 {
      var t := x + y;
      assert t[0] == '%' && t[1] == HexChar(bs[0] / 16) && t[2] == HexChar(bs[0] % 16);
    } else {
      EscapedByteShift(x, y, 3 * (j - 1));
      EscapedByteOfPercentBytes(bs[1..], rest, j - 1);
    }
  }

  lemma DivDiv64(x: nat)
    ensures (x / 64) / 64 == x / 4096
  {
    var q, r := x / 4096, x % 4096;
    assert x == 4096 * q + r;
    assert x / 64 == 64 * q + r / 64;
  }

  lemma DivStep(cp: nat)
    ensures cp / 64 == (cp / 4096) * 64 + (cp / 64) % 64
    ensures cp / 4096 == (cp / 262144) * 64 + (cp / 4096) % 64
  {
    DivDiv64(cp);
    DivDiv64(cp / 64);
    assert cp / 64 / 4096 == cp / 262144 by {
      var q, r := cp / 262144, cp % 262144;
      assert cp == 262144 * q + r;
      assert cp / 64 == 4096 * q + r / 64;
    }
  }

  /** decodeURIComponent reads back the %XX-escaped UTF-8 bytes of one character. */
  lemma DecodeEscapeOfChar(c: char, rest: string)
    ensures var t := PercentBytes(Utf8Bytes(c)) + rest;
      |t| > 0 && t[0] == '%' && DecodeEscape(t) == Some(Escape(c, 3 * |Utf8Bytes(c)|))
  {
    var bs := Utf8Bytes(c);
    EscapedByteOfPercentBytes(bs, rest, 0);
    var cp := c as int;
    if cp < 0x80 {
      assert SequenceLength(bs[0]) == 1;
    } else if cp < 0x800 {
      DecodeTwoByteEscape(c, rest);
    } else if cp < 0x10000 {
      DecodeThreeByteEscape(c, rest);
    } else {
      DecodeFourByteEscape(c, rest);
    }
  }

  lemma DecodeTwoByteEscape(c: char, rest: string)
    requires 0x80 <= c as int < 0x800
    ensures var t := PercentBytes(Utf8Bytes(c)) + rest;
      |t| > 0 && t[0] == '%' && DecodeEscape(t) == Some(Escape(c, 6))
  {
    var bs := Utf8Bytes(c);
    var t := PercentBytes(bs) + rest;
    var cp := c as int;
    EscapedByteOfPercentBytes(bs, rest, 0);
    EscapedByteOfPercentBytes(bs, rest, 1);
    assert SequenceLength(bs[0]) == 2;
    assert Continue(t, 2, 2, cp) == Some(cp);
    assert Continue(t, 1, 2, LeadBits(bs[0], 2)) == Some(cp);
  }

  lemma DecodeThreeByteEscape(c: char, rest: string)
    requires 0x800 <= c as int < 0x10000
    ensures var t := PercentBytes(Utf8Bytes(c)) + rest;
      |t| > 0 && t[0] == '%' && DecodeEscape(t) == Some(Escape(c, 9))
  {
    var bs := Utf8Bytes(c);
    var t := PercentBytes(bs) + rest;
    var cp := c as int;
    EscapedByteOfPercentBytes(bs, rest, 0);
    EscapedByteOfPercentBytes(bs, rest, 1);
    EscapedByteOfPercentBytes(bs, rest, 2);
    DivStep(cp);
    assert SequenceLength(bs[0]) == 3;
    assert Continue(t, 3, 3, cp) == Some(cp);
    assert Continue(t, 2, 3, cp / 64) == Some(cp);
    assert Continue(t, 1, 3, LeadBits(bs[0], 3)) == Some(cp);
  }

  lemma DecodeFourByteEscape(c: char, rest: string)
    requires 0x10000 <= c as int
    ensures var t := PercentBytes(Utf8Bytes(c)) + rest;
      |t| > 0 && t[0] == '%' && DecodeEscape(t) == Some(Escape(c, 12))
  {
    var bs := Utf8Bytes(c);
    var t := PercentBytes(bs) + rest;
    var cp := c as int;
    EscapedByteOfPercentBytes(bs, rest, 0);
    EscapedByteOfPercentBytes(bs, rest, 1);
    EscapedByteOfPercentBytes(bs, rest, 2);
    EscapedByteOfPercentBytes(bs, rest, 3);
    DivStep(cp);
    assert SequenceLength(bs[0]) == 4;
    assert Continue(t, 4, 4, cp) == Some(cp);
    assert Continue(t, 3, 4, cp / 64) == Some(cp);
    assert Continue(t, 2, 4, cp / 4096) == Some(cp);
    assert Continue(t, 1, 4, LeadBits(bs[0], 4)) == Some(cp);
  }

  /** Decoding the '+'-rewritten encoding of c followed by more input yields c, then the rest. */
  lemma DecodeEncodedChar(c: char, rest: string)
    ensures PercentDecode(PlusToSpace(EncodeChar(c)) + rest) == Prepend(c, PercentDecode(rest))
  {
    var x := PlusToSpace(EncodeChar(c));
    var t := x + rest;
    if IsUnescaped(c) || c == ' ' {
      assert x == [c];
      assert t[1..] == rest;
    } else {
      var bs := Utf8Bytes(c);
      assert x == PercentBytes(bs);
      DecodeEscapeOfChar(c, rest);
      assert t[3 * |bs|..] == rest;
    }
  }

  /** Decoding inverts S3's encoding: every key, spaces, '+', '%' and
      non-ASCII characters included, is recovered exactly. */
  lemma {:induction false} DecodeKeyInvertsFormEncode(s: string)
    ensures DecodeKey(FormEncode(s)) == Success(s)
    decreases |s|
  {
    if s != [] {
      DecodeKeyInvertsFormEncode(s[1..]);
      PlusToSpaceAppend(EncodeChar(s[0]), FormEncode(s[1..]));
      DecodeEncodedChar(s[0], PlusToSpace(FormEncode(s[1..])));
      assert [s[0]] + s[1..] == s;
    }
  }

  /** End to end: the file name recorded for an uploaded object `dir/name` is `name`. */
  lemma FileNameOfEncodedKey(dir: string, name: string)
    requires '/' !in name
    ensures FileNameOfKey(FormEncode(dir + "/" + name)) == Success(name)
  {
    DecodeKeyInvertsFormEncode(dir + "/" + name);
    FileNameOfPath(dir, name);
  }
}
