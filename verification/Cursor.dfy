/** Standard base64 with padding, section 4 of RFC 4648, as Go's decoder reads it. */
module Base64 {
  import opened Wrappers

  type Byte = b: nat | b < 256

  type Sextet = x: nat | x < 64

  function ToChar(x: Sextet): (c: char)
    ensures c != '=' && c != '\r' && c != '\n'
  {
    if x < 26 then 'A' + x as char
    else if x < 52 then 'a' + (x - 26) as char
    else if x < 62 then '0' + (x - 52) as char
    else if x == 62 then '+'
    else '/'
  }

  function FromChar(c: char): Option<Sextet> {
    if 'A' <= c <= 'Z' then Some((c - 'A') as int)
    else if 'a' <= c <= 'z' then Some((c - 'a') as int + 26)
    else if '0' <= c <= '9' then Some((c - '0') as int + 52)
    else if c == '+' then Some(62)
    else if c == '/' then Some(63)
    else None
  }

  /** The sextets of one, two or three bytes, filled up with zero bits. */
  function Sextets(g: seq<Byte>): (x: seq<Sextet>)
    requires 1 <= |g| <= 3
    ensures |x| == |g| + 1
  {
    if |g| == 1 then [g[0] / 4, g[0] % 4 * 16]
    else if |g| == 2 then [g[0] / 4, g[0] % 4 * 16 + g[1] / 16, g[1] % 16 * 4]
    else [g[0] / 4, g[0] % 4 * 16 + g[1] / 16, g[1] % 16 * 4 + g[2] / 64, g[2] % 64]
  }

  function Encode(data: seq<Byte>): string {
    if data == [] then ""
    else if |data| == 1 then
      var x := Sextets(data);
      [ToChar(x[0]), ToChar(x[1]), '=', '=']
    else if |data| == 2 then
      var x := Sextets(data);
      [ToChar(x[0]), ToChar(x[1]), ToChar(x[2]), '=']
    else
      var x := Sextets(data[..3]);
      [ToChar(x[0]), ToChar(x[1]), ToChar(x[2]), ToChar(x[3])] + Encode(data[3..])
  }

  /** The bytes of a quantum whose last `4 - n` sextets are padding. Left-over bits are not checked. */
  function Quantum(x: seq<Sextet>): seq<Byte>
    requires 2 <= |x| <= 4
  {
    [x[0] as int * 4 + x[1] / 16]
    + (if |x| >= 3 then [x[1] as int % 16 * 16 + x[2] / 4] else [])
    + (if |x| == 4 then [x[2] as int % 4 * 64 + x[3]] else [])
  }

  /** Carriage returns and line feeds are skipped wherever they stand. */
  function SkipNewlines(s: string): string {
    if s == "" then ""
    else (if s[0] == '\r' || s[0] == '\n' then "" else [s[0]]) + SkipNewlines(s[1..])
  }

  /** Quanta of four characters; only the last may be padded, with one or two `=`. */
  function DecodeQuanta(s: string): Option<seq<Byte>> {
    if s == "" then Some([])
    else if |s| < 4 then None
    else
      var x0, x1, x2, x3 := FromChar(s[0]), FromChar(s[1]), FromChar(s[2]), FromChar(s[3]);
      if x0.None? || x1.None? then None
      else if s[2..] == "==" then Some(Quantum([x0.value, x1.value]))
      else if x2.None? then None
      else if s[3..] == "=" then Some(Quantum([x0.value, x1.value, x2.value]))
      else if x3.None? then None
      else
        var rest := DecodeQuanta(s[4..]);
        if rest.None? then None
        else Some(Quantum([x0.value, x1.value, x2.value, x3.value]) + rest.value)
  }

  function Decode(s: string): Option<seq<Byte>> {
    DecodeQuanta(SkipNewlines(s))
  }

  lemma CharRoundTrip(x: Sextet)
    ensures FromChar(ToChar(x)) == Some(x)
  {
  }

  lemma QuantumRoundTrip(g: seq<Byte>)
    requires 1 <= |g| <= 3
    ensures Quantum(Sextets(g)) == g
  {
    if |g| == 1 {
    } else if |g| == 2 {
      assert (g[0] % 4 * 16 + g[1] / 16) % 16 == g[1] / 16;
    } else {
      assert (g[0] % 4 * 16 + g[1] / 16) % 16 == g[1] / 16;
      assert (g[1] % 16 * 4 + g[2] / 64) % 4 == g[2] / 64;
    }
  }

  lemma QuantaStep(x: seq<Sextet>, rest: string)
    requires |x| == 4 && DecodeQuanta(rest).Some?
    ensures DecodeQuanta([ToChar(x[0]), ToChar(x[1]), ToChar(x[2]), ToChar(x[3])] + rest)
            == Some(Quantum(x) + DecodeQuanta(rest).value)
  {
    var s := [ToChar(x[0]), ToChar(x[1]), ToChar(x[2]), ToChar(x[3])] + rest;
    CharRoundTrip(x[0]);
    CharRoundTrip(x[1]);
    CharRoundTrip(x[2]);
    CharRoundTrip(x[3]);
    assert s[2..][0] != '=' && s[3..][0] != '=' && s[4..] == rest;
    assert x == [x[0], x[1], x[2], x[3]];
  }

  lemma {:induction false} QuantaRoundTrip(data: seq<Byte>)
    ensures DecodeQuanta(Encode(data)) == Some(data)
  {
    if data == [] {
    } else if |data| <= 2 {
      var x, s := Sextets(data), Encode(data);
      QuantumRoundTrip(data);
      CharRoundTrip(x[0]);
      CharRoundTrip(x[1]);
      if |data| == 1 {
        assert s[2..] == "==" && x == [x[0], x[1]];
      } else {
        CharRoundTrip(x[2]);
        assert s[3..] == "=" && x == [x[0], x[1], x[2]];
      }
    } else {
      QuantumRoundTrip(data[..3]);
      QuantaRoundTrip(data[3..]);
      QuantaStep(Sextets(data[..3]), Encode(data[3..]));
      assert data == data[..3] + data[3..];
    }
  }

  lemma {:induction false} NewlineFree(data: seq<Byte>)
    ensures '\r' !in Encode(data) && '\n' !in Encode(data)
  {
    if |data| >= 3 {
      var x := Sextets(data[..3]);
      NewlineFree(data[3..]);
      assert Encode(data) == [ToChar(x[0]), ToChar(x[1]), ToChar(x[2]), ToChar(x[3])] + Encode(data[3..]);
    }
  }

  lemma NothingSkipped(s: string)
    requires '\r' !in s && '\n' !in s
    ensures SkipNewlines(s) == s
  {
    if s != "" {
      NothingSkipped(s[1..]);
    }
  }

  lemma {:induction false} NoNewlines(data: seq<Byte>)
    ensures SkipNewlines(Encode(data)) == Encode(data)
  {
    NewlineFree(data);
    NothingSkipped(Encode(data));
  }

  /** What is encoded is decoded to the same bytes. */
  lemma RoundTrip(data: seq<Byte>)
    ensures Decode(Encode(data)) == Some(data)
  {
    NoNewlines(data);
    QuantaRoundTrip(data);
  }

  // ---------------------------------------------------------------------------------------------------------------
  // The standard

  /** The alphabet of table 1 of RFC 4648: its three runs of consecutive characters, and the last two. */
  lemma AlphabetIsStandard(x: Sextet)
    ensures ToChar(0) == 'A' && ToChar(25) == 'Z' && ToChar(26) == 'a' && ToChar(51) == 'z'
    ensures ToChar(52) == '0' && ToChar(61) == '9' && ToChar(62) == '+' && ToChar(63) == '/'
    ensures x < 61 && x != 25 && x != 51 ==> ToChar(x + 1) == ToChar(x) + 1 as char
  {
  }

  /** The sextets are the bits of the bytes from the highest to the lowest, filled up with zeros. */
  lemma SextetsAreBits(g: seq<Byte>)
    requires 1 <= |g| <= 3
    ensures var x := Sextets(g);
            && (|g| == 1 ==> x[0] as int * 64 + x[1] == g[0] as int * 16)
            && (|g| == 2 ==> (x[0] as int * 64 + x[1]) * 64 + x[2] == (g[0] as int * 256 + g[1]) * 4)
            && (|g| == 3 ==> ((x[0] as int * 64 + x[1]) * 64 + x[2]) * 64 + x[3]
                             == (g[0] as int * 256 + g[1]) * 256 + g[2])
  {
  }

  /** The first three bytes are encoded by themselves. */
  lemma FirstQuantum(g: seq<Byte>, rest: seq<Byte>)
    requires |g| == 3
    ensures Encode(g + rest) == Encode(g) + Encode(rest)
  {
    assert (g + rest)[..3] == g && (g + rest)[3..] == rest && g[..3] == g && g[3..] == [];
    if rest == [] {
      assert g + rest == g;
    }
  }

  lemma WholeQuantum(a: Byte, b: Byte, c: Byte)
    ensures var x := Sextets([a, b, c]); Encode([a, b, c]) == [ToChar(x[0]), ToChar(x[1]), ToChar(x[2]), ToChar(x[3])]
  {
    assert [a, b, c][..3] == [a, b, c] && [a, b, c][3..] == [];
  }

  /** The test vectors of section 10 of RFC 4648 are made of these quanta. */
  lemma StandardVectors()
    ensures Encode([102]) == "Zg==" && Encode([102, 111]) == "Zm8="
    ensures Encode([98]) == "Yg==" && Encode([98, 97]) == "YmE="
  {
  }

  lemma StandardWholeVectors()
    ensures Encode([102, 111, 111]) == "Zm9v" && Encode([98, 97, 114]) == "YmFy"
  {
    hide Encode;
    WholeQuantum(102, 111, 111);
    WholeQuantum(98, 97, 114);
  }

  /** Only characters of the alphabet stand for a sextet. */
  lemma OnlyAlphabetIsRead(c: char)
    ensures FromChar(c).Some? ==> ToChar(FromChar(c).value) == c
  {
  }

  lemma {:induction false} BreakIsSkipped(a: string, c: char, b: string)
    requires c == '\r' || c == '\n'
    ensures SkipNewlines(a + [c] + b) == SkipNewlines(a + b)
  {
    if a == "" {
      assert a + [c] + b == [c] + b && ([c] + b)[1..] == b && a + b == b;
    } else {
      BreakIsSkipped(a[1..], c, b);
      assert (a + [c] + b)[1..] == a[1..] + [c] + b && (a + b)[1..] == a[1..] + b;
    }
  }

  /** A line break changes nothing, wherever it stands. */
  lemma LineBreaksAreSkipped(a: string, c: char, b: string)
    requires c == '\r' || c == '\n'
    ensures Decode(a + [c] + b) == Decode(a + b)
  {
    BreakIsSkipped(a, c, b);
  }

  lemma FirstOfDecoded(s: string)
    requires DecodeQuanta(s).Some? && s != ""
    ensures |s| >= 4 && FromChar(s[0]).Some? && FromChar(s[1]).Some?
    ensures || (|s| == 4 && s[2] == '=' && s[3] == '=')
            || (|s| == 4 && FromChar(s[2]).Some? && s[3] == '=')
            || (FromChar(s[2]).Some? && FromChar(s[3]).Some? && DecodeQuanta(s[4..]).Some?)
  {
    assert s[2..][0] == s[2] && s[2..][1] == s[3] && s[3..][0] == s[3];
  }

  /** Whatever is decoded consists of whole quanta of the alphabet, with padding at the very end at most. */
  lemma {:induction false} OnlyQuantaAreDecoded(s: string)
    requires DecodeQuanta(s).Some?
    ensures |s| % 4 == 0
    ensures forall i :: 0 <= i < |s| ==> FromChar(s[i]).Some? || (s[i] == '=' && i >= |s| - 2)
  {
    hide DecodeQuanta, FromChar;
    if s != "" {
      FirstOfDecoded(s);
      if DecodeQuanta(s[4..]).Some? {
        OnlyQuantaAreDecoded(s[4..]);
        forall i | 4 <= i < |s| ensures FromChar(s[i]).Some? || (s[i] == '=' && i >= |s| - 2) {
          assert s[i] == s[4..][i - 4];
        }
      }
    }
  }
}

/** Decimal numbers of 64 bits: `%d` and `strconv.ParseInt(s, 10, 64)`. */
module Decimal {
  import opened Wrappers
  import opened Base64

  const PLUS: Byte := 43
  const MINUS: Byte := 45
  const ZERO: Byte := 48

  const LIMIT: int := 0x8000_0000_0000_0000

  type Int64 = n: int | -LIMIT <= n < LIMIT

  predicate IsDigit(b: Byte) {
    ZERO <= b < ZERO + 10
  }

  predicate IsNumeral(s: seq<Byte>) {
    s != [] && forall b :: b in s ==> IsDigit(b)
  }

  function Value(s: seq<Byte>): nat
    requires forall b :: b in s ==> IsDigit(b)
  {
    if s == [] then 0
    else
      assert s[|s| - 1] in s && IsDigit(s[|s| - 1]);
      Value(s[..|s| - 1]) * 10 + (s[|s| - 1] as int - ZERO)
  }

  function Digits(n: nat): (s: seq<Byte>)
    ensures IsNumeral(s) && Value(s) == n
  {
    if n < 10 then [ZERO + n]
    else
      var s := Digits(n / 10) + [ZERO + n % 10];
      assert s[..|s| - 1] == Digits(n / 10);
      s
  }

  function Print(n: int): seq<Byte> {
    if n < 0 then [MINUS] + Digits(-n) else Digits(n)
  }

  /** Fails on an empty number, on anything but digits after one optional sign, and out of range. */
  function ParseInt(s: seq<Byte>): Option<Int64> {
    if s == [] then None
    else
      var negative := s[0] == MINUS;
      var digits := if s[0] == PLUS || s[0] == MINUS then s[1..] else s;
      if !IsNumeral(digits) then None
      else if !negative && Value(digits) >= LIMIT then None
      else if negative && Value(digits) > LIMIT then None
      else Some(if negative then -(Value(digits) as int) else Value(digits))
  }

  /** Every 64-bit number is read back as it was printed, with or without a plus sign. */
  lemma RoundTrip(n: Int64)
    ensures ParseInt(Print(n)) == Some(n)
    ensures n >= 0 ==> ParseInt([PLUS] + Print(n)) == Some(n)
  {
    assert ([PLUS] + Print(n))[1..] == Print(n);
    if n < 0 {
      var magnitude: int := -(n as int);
      assert ([MINUS] + Digits(magnitude))[1..] == Digits(magnitude);
    } else {
      assert Digits(n)[0] in Digits(n);
    }
  }

  /** A number that does not fit into 64 bits is not read. */
  lemma OutOfRange(n: int)
    requires n < -LIMIT || n >= LIMIT
    ensures ParseInt(Print(n)) == None
  {
    if n < 0 {
      assert ([MINUS] + Digits(-n))[1..] == Digits(-n);
    } else {
      assert Digits(n)[0] in Digits(n);
    }
  }
}

/** The opaque cursors of the evaluation history. */
module Cursor {
  import opened Wrappers
  import opened Base64
  import opened Decimal

  datatype Direction = Next | Prev

  /** `time` is in microseconds since the epoch. */
  datatype ListEvaluationCursor = ListEvaluationCursor(time: Int64, direction: Direction)

  const DEFAULT := ListEvaluationCursor(999999999999999999, Next)

  datatype Malformed = MalformedCursor

  /** `+t` and a bare `t` ask for the page after t, `-t` for the page before; nothing at all for the first page. */
  function ParseListEvaluationCursor(payload: string): Result<ListEvaluationCursor, Malformed> {
    var decoded := Decode(payload);
    if decoded.None? then Err(MalformedCursor)
    else if decoded.value == [] then Ok(DEFAULT)
    else
      var direction := if decoded.value[0] == MINUS then Prev else Next;
      var number :=
        if decoded.value[0] == PLUS || decoded.value[0] == MINUS then decoded.value[1..] else decoded.value;
      var micros := ParseInt(number);
      if micros.None? then Err(MalformedCursor) else Ok(ListEvaluationCursor(micros.value, direction))
  }

  /** The text of a cursor, as the listing prints it for a page's oldest and newest row. */
  function CursorText(c: ListEvaluationCursor): seq<Byte> {
    [if c.direction.Next? then PLUS else MINUS] + Print(c.time)
  }

  function MakeCursor(text: seq<Byte>): string {
    Encode(text)
  }

  /** For every 64-bit time and both directions, parsing what was made gives the cursor back. */
  lemma CursorRoundTrip(c: ListEvaluationCursor)
    ensures ParseListEvaluationCursor(MakeCursor(CursorText(c))) == Ok(c)
  {
    Base64.RoundTrip(CursorText(c));
    Decimal.RoundTrip(c.time);
    assert CursorText(c)[1..] == Print(c.time);
  }

  lemma DigitsUnsigned(n: nat)
    ensures Digits(n) != [] && Digits(n)[0] != PLUS && Digits(n)[0] != MINUS
  {
    assert Digits(n)[0] in Digits(n);
  }

  lemma MagnitudeParses(time: Int64)
    requires time < 0
    ensures Print(time)[0] == MINUS
    ensures ParseInt(Print(time)[1..]) == if time == -LIMIT then None else Some(-time)
  {
    var magnitude: int := -(time as int);
    assert Print(time)[1..] == Digits(magnitude);
    DigitsUnsigned(magnitude);
  }

  /** The unsigned form reads as the next page exactly for times that are not negative: the sign of a negative time is
      taken for the direction, and the least time is then out of range. */
  lemma UnsignedMeansNext(time: Int64)
    ensures ParseListEvaluationCursor(MakeCursor(Print(time))) == Ok(ListEvaluationCursor(time, Next)) <==> time >= 0
    ensures time < 0 ==>
              ParseListEvaluationCursor(MakeCursor(Print(time))) ==
              if time == -LIMIT then Err(MalformedCursor) else Ok(ListEvaluationCursor(-time, Prev))
  {
    hide Encode, Decode, ParseInt, Digits;
    Base64.RoundTrip(Print(time));
    if time < 0 {
      MagnitudeParses(time);
    } else {
      Decimal.RoundTrip(time);
      DigitsUnsigned(time);
    }
  }

  /** The first request has no payload: it asks for the page before the year 33658, whose rows are the newest. */
  lemma EmptyPayloadAsksForTheNewest()
    ensures ParseListEvaluationCursor("") == Ok(ListEvaluationCursor(999_999_999_999_999_999, Next))
    ensures MakeCursor([]) == ""
  {
  }

  lemma TwoDigits(a: Byte, b: Byte)
    requires IsDigit(a) && IsDigit(b)
    ensures Value([a]) == a - ZERO && Value([a, b]) == 10 * (a - ZERO) + b - ZERO
  {
    assert [a, b][..1] == [a] && [a][..0] == [];
  }

  lemma WholeTexts()
    ensures Encode([43, 49, 48]) == "KzEw" && Encode([45, 49, 50]) == "LTEy"
  {
    WholeQuantum(43, 49, 48);
    WholeQuantum(45, 49, 50);
    hide Encode;
  }

  lemma ShortText()
    ensures Encode([52, 50]) == "NDI="
  {
  }

  /** The three forms of a cursor, as base64 text: "+10", "-12" and "42". */
  lemma ThreeForms()
    ensures ParseListEvaluationCursor("KzEw") == Ok(ListEvaluationCursor(10, Next))
    ensures ParseListEvaluationCursor("LTEy") == Ok(ListEvaluationCursor(12, Prev))
    ensures ParseListEvaluationCursor("NDI=") == Ok(ListEvaluationCursor(42, Next))
  {
    hide Encode, Decode;
    var plus: seq<Byte>, minus: seq<Byte>, bare: seq<Byte> := [43, 49, 48], [45, 49, 50], [52, 50];
    WholeTexts();
    ShortText();
    Base64.RoundTrip(plus);
    Base64.RoundTrip(minus);
    Base64.RoundTrip(bare);
    assert plus[1..] == [49, 48] && minus[1..] == [49, 50];
    TwoDigits(49, 48);
    TwoDigits(49, 50);
    TwoDigits(52, 50);
  }

  /** What is not base64, or has anything but digits after the signs, is malformed. */
  lemma GarbageIsMalformed(payload: string, i: nat)
    requires Decode(payload).None? || (2 <= i < |Decode(payload).value| && !IsDigit(Decode(payload).value[i]))
    ensures ParseListEvaluationCursor(payload) == Err(MalformedCursor)
  {
    if Decode(payload).Some? {
      var text := Decode(payload).value;
      var number := if text[0] == PLUS || text[0] == MINUS then text[1..] else text;
      var digits := if number[0] == PLUS || number[0] == MINUS then number[1..] else number;
      assert digits[i - (|text| - |digits|)] == text[i];
    }
  }
}
