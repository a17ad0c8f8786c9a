/** The opaque page cursor: an id, an optional distance, and the token that carries them. */
module Cursor {
  import opened Prelude

  datatype Position = Position(id: int, distance: Option<real>)

  const MIN_INT64: int := -0x8000_0000_0000_0000
  const MAX_INT64: int := 0x7FFF_FFFF_FFFF_FFFF

  predicate IsInt64(n: int) {
    MIN_INT64 <= n <= MAX_INT64
  }

  // ---------------------------------------------------------------------------
  // Unpadded base64url, section 5 of RFC 4648
  // ---------------------------------------------------------------------------

  function Symbol(sextet: nat): (c: char)
    requires sextet < 64
    ensures Sextet(c) == Some(sextet) && c != '\r' && c != '\n'
  {
    if sextet < 26 then ('A' as int + sextet) as char
    else if sextet < 52 then ('a' as int + sextet - 26) as char
    else if sextet < 62 then ('0' as int + sextet - 52) as char
    else if sextet == 62 then '-'
    else '_'
  }

  function Sextet(c: char): (r: Option<nat>)
    ensures r.Some? ==> r.value < 64
  {
    if 'A' <= c <= 'Z' then Some(c as int - 'A' as int)
    else if 'a' <= c <= 'z' then Some(c as int - 'a' as int + 26)
    else if '0' <= c <= '9' then Some(c as int - '0' as int + 52)
    else if c == '-' then Some(62)
    else if c == '_' then Some(63)
    else None
  }

  /** Every character of the text is one byte. */
  predicate Bytes(text: string) {
    forall i :: 0 <= i < |text| ==> text[i] as int < 256
  }

  function EncodeText(text: string): string
    requires Bytes(text)
  {
    if |text| == 0 then ""
    else
      var a := text[0] as int;
      if |text| == 1 then [Symbol(a / 4), Symbol(a % 4 * 16)]
      else
        var b := text[1] as int;
        if |text| == 2 then [Symbol(a / 4), Symbol(a % 4 * 16 + b / 16), Symbol(b % 16 * 4)]
        else
          var c := text[2] as int;
          [Symbol(a / 4), Symbol(a % 4 * 16 + b / 16), Symbol(b % 16 * 4 + c / 64), Symbol(c % 64)]
          + EncodeText(text[3..])
  }

  predicate Small(xs: seq<nat>) {
    forall i :: 0 <= i < |xs| ==> xs[i] < 64
  }

  /** Line breaks are skipped; any other character outside the alphabet is an error. */
  function Sextets(token: string): Option<seq<nat>> {
    if token == "" then Some([])
    else if token[0] in {'\r', '\n'} then Sextets(token[1..])
    else if Sextet(token[0]).None? then None
    else
      var rest := Sextets(token[1..]);
      if rest.None? then None else Some([Sextet(token[0]).value] + rest.value)
  }

  /** Groups of four, the last one possibly of two or three; the bits left over at the end are ignored. */
  function Unpack(sextets: seq<nat>): Option<string>
    requires Small(sextets)
  {
    if |sextets| == 0 then Some("")
    else if |sextets| == 1 then None
    else
      var a := (sextets[0] * 4 + sextets[1] / 16) as char;
      if |sextets| == 2 then Some([a])
      else
        var b := (sextets[1] % 16 * 16 + sextets[2] / 4) as char;
        if |sextets| == 3 then Some([a, b])
        else
          var c := (sextets[2] % 4 * 64 + sextets[3]) as char;
          var rest := Unpack(sextets[4..]);
          if rest.None? then None else Some([a, b, c] + rest.value)
  }

  lemma {:induction false} SextetsBounded(token: string)
    ensures Sextets(token).Some? ==> Small(Sextets(token).value)
  {
    if token != "" {
      SextetsBounded(token[1..]);
    }
  }

  function DecodeText(token: string): Option<string> {
    SextetsBounded(token);
    var sextets := Sextets(token);
    if sextets.None? then None else Unpack(sextets.value)
  }

  /** What the sextets of an encoded text are. */
  function Packed(text: string): seq<nat>
    requires Bytes(text)
  {
    if |text| == 0 then []
    else
      var a := text[0] as int;
      if |text| == 1 then [a / 4, a % 4 * 16]
      else
        var b := text[1] as int;
        if |text| == 2 then [a / 4, a % 4 * 16 + b / 16, b % 16 * 4]
        else
          var c := text[2] as int;
          [a / 4, a % 4 * 16 + b / 16, b % 16 * 4 + c / 64, c % 64] + Packed(text[3..])
  }

  lemma {:induction false} SextetsOfSymbols(xs: seq<nat>)
    requires Small(xs)
    ensures Sextets(Symbols(xs)) == Some(xs)
  {
    if xs != [] {
      SextetsOfSymbols(xs[1..]);
      assert Symbols(xs)[1..] == Symbols(xs[1..]);
      assert Symbols(xs)[0] == Symbol(xs[0]);
      assert xs == [xs[0]] + xs[1..];
    }
  }

  function Symbols(xs: seq<nat>): string
    requires Small(xs)
  {
    seq(|xs|, i requires 0 <= i < |xs| => Symbol(xs[i]))
  }

  lemma {:induction false} EncodeIsPacked(text: string)
    requires Bytes(text)
    ensures Small(Packed(text))
    ensures EncodeText(text) == Symbols(Packed(text))
  {
    if |text| >= 3 {
      EncodeIsPacked(text[3..]);
    }
  }

  /** Three bytes survive being spread over four sextets. */
  lemma {:induction false} GroupRoundTrip(a: nat, b: nat, c: nat)
    requires a < 256 && b < 256 && c < 256
    ensures a / 4 * 4 + (a % 4 * 16 + b / 16) / 16 == a
    ensures (a % 4 * 16 + b / 16) % 16 * 16 + (b % 16 * 4 + c / 64) / 4 == b
    ensures (b % 16 * 4 + c / 64) % 4 * 64 + c % 64 == c
  {
  }

  lemma {:induction false} UnpackPacked(text: string)
    requires Bytes(text)
    ensures Small(Packed(text)) && Unpack(Packed(text)) == Some(text)
  {
    EncodeIsPacked(text);
    if |text| >= 3 {
      UnpackPacked(text[3..]);
      UnpackGroup(text);
    } else if |text| == 2 {
      GroupRoundTrip(text[0] as int, text[1] as int, 0);
      assert text == [text[0], text[1]];
    } else if |text| == 1 {
      GroupRoundTrip(text[0] as int, 0, 0);
      assert text == [text[0]];
    }
  }

  lemma {:induction false} UnpackGroup(text: string)
    requires Bytes(text) && |text| >= 3 && Small(Packed(text)) && Small(Packed(text[3..]))
    requires Unpack(Packed(text[3..])) == Some(text[3..])
    ensures Unpack(Packed(text)) == Some(text)
  {
    GroupRoundTrip(text[0] as int, text[1] as int, text[2] as int);
    assert Packed(text)[4..] == Packed(text[3..]);
    assert text == [text[0], text[1], text[2]] + text[3..];
  }

  lemma {:induction false} TextRoundTrip(text: string)
    requires Bytes(text)
    ensures DecodeText(EncodeText(text)) == Some(text)
    ensures text != "" ==> EncodeText(text) != ""
  {
    EncodeIsPacked(text);
    SextetsOfSymbols(Packed(text));
    UnpackPacked(text);
  }

  /** The alphabet of RFC 4648, table 2: where its three runs start and end, and its last two symbols. */
  lemma {:induction false} StandardAlphabet(i: nat)
    requires i < 63
    ensures Symbol(0) == 'A' && Symbol(25) == 'Z' && Symbol(26) == 'a' && Symbol(51) == 'z'
    ensures Symbol(52) == '0' && Symbol(61) == '9' && Symbol(62) == '-' && Symbol(63) == '_'
    ensures i !in {25, 51, 61, 62} ==> Symbol(i + 1) as int == Symbol(i) as int + 1
  {
  }

  /** The first three bytes, read as one number, are the first four symbols; one or two are padded with zero bits. */
  lemma {:induction false} BigEndian(text: string)
    requires text != "" && Bytes(text)
    ensures var e := EncodeText(text);
      && |e| >= 2 && forall i :: 0 <= i < |e| && i < 4 ==> Sextet(e[i]).Some?
    ensures var e, a := EncodeText(text), text[0] as int;
      && (|text| == 1 ==>
            |e| == 2 && 64 * Sextet(e[0]).value + Sextet(e[1]).value == 16 * a)
      && (|text| == 2 ==>
            && |e| == 3
            && 4096 * Sextet(e[0]).value + 64 * Sextet(e[1]).value + Sextet(e[2]).value
                 == 4 * (256 * a + text[1] as int))
      && (|text| >= 3 ==>
            && |e| >= 4 && e[4..] == EncodeText(text[3..])
            && 262144 * Sextet(e[0]).value + 4096 * Sextet(e[1]).value + 64 * Sextet(e[2]).value + Sextet(e[3]).value
                 == 65536 * a + 256 * text[1] as int + text[2] as int)
  {
  }

  // ---------------------------------------------------------------------------
  // Decimal integers
  // ---------------------------------------------------------------------------

  function Digits(n: nat): string {
    if n < 10 then [('0' as int + n) as char] else Digits(n / 10) + [('0' as int + n % 10) as char]
  }

  function FormatInt(n: int): string {
    if n < 0 then "-" + Digits(-n) else Digits(n)
  }

  predicate IsDigit(c: char) {
    '0' <= c <= '9'
  }

  predicate AllDigits(s: string) {
    forall i :: 0 <= i < |s| ==> IsDigit(s[i])
  }

  function Value(s: string): nat
    requires AllDigits(s)
  {
    if s == "" then 0 else 10 * Value(s[..|s| - 1]) + (s[|s| - 1] as int - '0' as int)
  }

  /** One optional sign, at least one digit, and nothing outside 64 bits. */
  function ParseInt(s: string): Option<int> {
    var signed := s != "" && s[0] in {'+', '-'};
    var digits := if signed then s[1..] else s;
    if digits == "" || !AllDigits(digits) then None
    else
      var n: int := if signed && s[0] == '-' then 0 - Value(digits) else Value(digits);
      if IsInt64(n) then Some(n) else None
  }

  lemma {:induction false} DigitsValue(n: nat)
    ensures Digits(n) != "" && AllDigits(Digits(n)) && Value(Digits(n)) == n
  {
    if n >= 10 {
      DigitsValue(n / 10);
      var s := Digits(n);
      assert s[..|s| - 1] == Digits(n / 10);
    } else {
      assert Digits(n)[..0] == "";
    }
  }

  lemma {:induction false} IntRoundTrip(n: int)
    requires IsInt64(n)
    ensures ParseInt(FormatInt(n)) == Some(n)
  {
    DigitsValue(if n < 0 then -n else n);
    var s := FormatInt(n);
    if n < 0 {
      assert s[1..] == Digits(-n);
    } else {
      assert IsDigit(s[0]);
    }
  }

  // ---------------------------------------------------------------------------
  // The cursor
  // ---------------------------------------------------------------------------

  /** Printing and parsing of a distance, taken together: what is printed parses back, and is plain text. */
  predicate Faithful(d: real, show: real -> string, parse: string -> Option<real>) {
    parse(show(d)) == Some(d) && Bytes(show(d))
  }

  function Plain(p: Position, show: real -> string): string {
    FormatInt(p.id) + (if p.distance.Some? then ":" + show(p.distance.value) else "")
  }

  function Encode(p: Position, show: real -> string): string
    requires Bytes(Plain(p, show))
  {
    EncodeText(Plain(p, show))
  }

  /** The part before the first colon and, if there is one, the part after it. */
  function Cut(s: string): (string, Option<string>) {
    if s == "" then ("", None)
    else if s[0] == ':' then ("", Some(s[1..]))
    else
      var rest := Cut(s[1..]);
      ([s[0]] + rest.0, rest.1)
  }

  /** None: an invalid cursor. */
  function Decode(token: string, parse: string -> Option<real>): Option<Position> {
    if token == "" then Some(Position(0, None))
    else
      var text := DecodeText(token);
      if text.None? then None
      else
        var parts := Cut(text.value);
        var id := ParseInt(parts.0);
        if id.None? then None
        else if parts.1.None? then Some(Position(id.value, None))
        else
          var d := parse(parts.1.value);
          if d.None? then None else Some(Position(id.value, d))
  }

  /** No cursor is the first page; a line break in a token is skipped; a plus sign is accepted; 2^63 is not. */
  lemma {:induction false} DecodeEdges(token: string, parse: string -> Option<real>)
    ensures Decode("", parse) == Some(Position(0, None))
    ensures Sextets("\n" + token) == Sextets("\r" + token) == Sextets(token)
    ensures ParseInt("+5") == Some(5) && ParseInt("") == ParseInt("-") == None
    ensures FormatInt(-12) == "-12" && FormatInt(10) == "10" && ParseInt("10") == Some(10)
    ensures forall s ::
      ParseInt(s).Some? ==> -9_223_372_036_854_775_808 <= ParseInt(s).value <= 9_223_372_036_854_775_807
    ensures IsInt64(-9_223_372_036_854_775_808) && IsInt64(9_223_372_036_854_775_807)
  {
    assert ("\n" + token)[1..] == token && ("\r" + token)[1..] == token;
    assert "+5"[1..] == "5" && "5"[..0] == "" && "-"[1..] == "";
    assert "10"[..1] == "1" && "1"[..0] == "";
  }

  /** A text with no colon is cut exactly where the colon after it stands. */
  lemma {:induction false} CutAfter(a: string, b: string)
    requires forall i :: 0 <= i < |a| ==> a[i] != ':'
    ensures Cut(a) == (a, None)
    ensures Cut(a + ":" + b) == (a, Some(b))
  {
    if a == "" {
      assert a + ":" + b == ":" + b;
      assert (":" + b)[1..] == b;
    } else {
      CutAfter(a[1..], b);
      assert (a + ":" + b)[1..] == a[1..] + ":" + b;
      assert a == [a[0]] + a[1..];
    }
  }

  lemma {:induction false} FormattedId(n: int)
    ensures FormatInt(n) != "" && Bytes(FormatInt(n)) && forall i :: 0 <= i < |FormatInt(n)| ==> FormatInt(n)[i] != ':'
  {
    DigitsValue(if n < 0 then -n else n);
    var digits := Digits(if n < 0 then -n else n);
    assert forall i :: 0 <= i < |digits| ==> IsDigit(digits[i]);
  }

  /**
   * Decoding an encoded cursor gives back the same id and the same distance, present or absent, and the token of a
   * cursor is never the empty one that stands for the first page.
   */
  lemma {:induction false} CursorRoundTrip(p: Position, show: real -> string, parse: string -> Option<real>)
    requires IsInt64(p.id) && (p.distance.Some? ==> Faithful(p.distance.value, show, parse))
    ensures Bytes(Plain(p, show))
    ensures Decode(Encode(p, show), parse) == Some(p)
    ensures Encode(p, show) != ""
  {
    var id := FormatInt(p.id);
    var d := if p.distance.Some? then show(p.distance.value) else "";
    FormattedId(p.id);
    IntRoundTrip(p.id);
    CutAfter(id, d);
    BytesJoined(id, d);
    PlainIs(p, show);
    hide FormatInt, ParseInt, Cut, Bytes, EncodeText, DecodeText, Plain;
    TextRoundTrip(Plain(p, show));
  }

  lemma {:induction false} PlainIs(p: Position, show: real -> string)
    ensures p.distance.Some? ==> Plain(p, show) == FormatInt(p.id) + ":" + show(p.distance.value)
    ensures p.distance.None? ==> Plain(p, show) == FormatInt(p.id)
  {
    if p.distance.Some? {
      assert FormatInt(p.id) + (":" + show(p.distance.value)) == FormatInt(p.id) + ":" + show(p.distance.value);
    } else {
      assert FormatInt(p.id) + "" == FormatInt(p.id);
    }
  }

  lemma {:induction false} BytesJoined(a: string, b: string)
    requires Bytes(a) && Bytes(b)
    ensures Bytes(a + ":" + b)
  {
  }
}
