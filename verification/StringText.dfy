/** Strings as text: the decoding in parse_string, the escaping in print_string_ptr,
    and RFC 8259 section 7. */
module StringText {
  import opened Json

  // ---- UTF-8 ----

  predicate Hex(c: char) { '0' <= c <= '9' || 'a' <= c <= 'f' || 'A' <= c <= 'F' }

  function HexValue(c: char): (n: nat)
    requires Hex(c)
    ensures n < 16
  {
    if c <= '9' then c as int - '0' as int else if c <= 'F' then c as int - 'A' as int + 10
        else c as int - 'a' as int + 10
  }

  /** Sixteen bits, as `%4x` reads them. */
  type Code = u: nat | u < 0x1_0000

  /** Up to four hexadecimal digits, read as a number. */
  function CodeUnit(h: string): (u: Code)
    requires 1 <= |h| <= 4 && Hex(h[0])
  {
    var u := HexValue(h[0]);
    if |h| < 2 || !Hex(h[1]) then u else
    var u := 0x10 * u + HexValue(h[1]);
    if |h| < 3 || !Hex(h[2]) then u else
    var u := 0x10 * u + HexValue(h[2]);
    if |h| < 4 || !Hex(h[3]) then u else 0x10 * u + HexValue(h[3])
  }

  /** Sixteen bits written as one, two or three bytes: the low six bits go behind 0x80,
      the rest behind the first-byte mark 0x00, 0xC0 or 0xE0. */
  function Utf8(u: Code): (bytes: string)
    ensures 1 <= |bytes| <= 3
  {
    if u < 0x80 then [u as char]
    else if u < 0x800 then [(0xC0 + u / 0x40) as char, (0x80 + u % 0x40) as char]
    else [(0xE0 + u / 0x1000) as char, (0x80 + u / 0x40 % 0x40) as char, (0x80 + u % 0x40) as char]
  }

  /** RFC 3629 section 3, one to three octets: the scalar value at the front of the bytes and how
      many octets it takes. Overlong forms and surrogates are not decoded. */
  function DecodeUtf8(b: string): (r: Decoded) {
    if b == "" then Invalid else
    var b0 := b[0] as int;
    if b0 < 0x80 then Scalar(b0, 1)
    else if 0xC2 <= b0 <= 0xDF && |b| >= 2 && Trailing(b[1]) then
      Scalar((b0 - 0xC0) * 0x40 + (b[1] as int - 0x80), 2)
    else if 0xE0 <= b0 <= 0xEF && |b| >= 3 && Trailing(b[1]) && Trailing(b[2]) then
      var u := (b0 - 0xE0) * 0x1000 + (b[1] as int - 0x80) * 0x40 + (b[2] as int - 0x80);
      if u < 0x800 || Surrogate(u) then Invalid else Scalar(u, 3)
    else Invalid
  }

  datatype Decoded = Scalar(u: nat, octets: nat) | Invalid

  predicate Trailing(c: char) { 0x80 <= c as int <= 0xBF }

  predicate Surrogate(u: int) { 0xD800 <= u <= 0xDFFF }

  /** Every emitted byte fits eight bits, and RFC 3629 reads the code unit back, unless the unit is a
      surrogate: the code writes those three bytes all the same, and no UTF-8 decoder accepts them. */
  lemma Utf8Decodes(u: Code, rest: string)
    ensures forall i | 0 <= i < |Utf8(u)| :: Utf8(u)[i] as int < 0x100
    ensures DecodeUtf8(Utf8(u) + rest) == if Surrogate(u) then Invalid else Scalar(u, |Utf8(u)|)
  {
    if u < 0x80 {
    } else if u < 0x800 {
      TwoBytes(u, rest);
    } else {
      ThreeBytes(u, rest);
    }
  }

  lemma TwoBytes(u: Code, rest: string)
    requires 0x80 <= u < 0x800
    ensures DecodeUtf8(Utf8(u) + rest) == Scalar(u, 2)
  {
    var b := Utf8(u) + rest;
    assert b[0] == (0xC0 + u / 0x40) as char && b[1] == (0x80 + u % 0x40) as char;
  }

  lemma ThreeBytes(u: Code, rest: string)
    requires 0x800 <= u
    ensures DecodeUtf8(Utf8(u) + rest) == if Surrogate(u) then Invalid else Scalar(u, 3)
  {
    var b := Utf8(u) + rest;
    assert b[0] == (0xE0 + u / 0x1000) as char && b[1] == (0x80 + u / 0x40 % 0x40) as char;
    assert b[2] == (0x80 + u % 0x40) as char;
  }

  lemma Utf8HasNoNul(u: Code)
    requires 0 < u
    ensures forall i | 0 <= i < |Utf8(u)| :: Utf8(u)[i] != '\0'
  {
  }

  // ---- sscanf(p, "%4x", &uc), C11 section 7.21.6.2 ----

  /** What the variable `uc` holds: nothing the code determines, or a code unit or what is left of one. */
  datatype Register = Open | Loaded(u: Code)

  predicate Space(c: char) { c == ' ' || '\t' <= c <= '\r' }

  function SkipSpace(s: string): string { if s != "" && Space(s[0]) then SkipSpace(s[1..]) else s }

  function Front(s: string, n: nat): string { if |s| <= n then s else s[..n] }

  /** `%4x` skips white space and reads at most four bytes of a sign, a prefix `0x` and digits. Without a digit
      it leaves `uc` as it is. Two cases are open: `0x` without a digit, which C libraries read in two ways, and a
      negative number, whose unsigned value depends on the width of `long`. */
  function ScanHex(s: string, uc: Register): Register {
    var t := SkipSpace(s);
    if t != "" && (t[0] == '+' || t[0] == '-') then AfterSign(t[0] == '-', t[1..], 3, uc)
    else AfterSign(false, t, 4, uc)
  }

  function AfterSign(minus: bool, t: string, width: nat, uc: Register): Register
    requires 3 <= width <= 4
  {
    if |t| >= 2 && t[0] == '0' && (t[1] == 'x' || t[1] == 'X') then AfterPrefix(minus, t[2..], width - 2, Open)
    else AfterPrefix(minus, t, width, uc)
  }

  function AfterPrefix(minus: bool, t: string, width: nat, uc: Register): Register
    requires 1 <= width <= 4
  {
    if t == "" || !Hex(t[0]) then uc else
    var u := CodeUnit(Front(t, width));
    if minus && u != 0 then Open else Loaded(u)
  }

  /** Four hexadecimal digits are read as the unit they are, whatever stands behind them. */
  lemma ScanUnit(h: string, rest: string, uc: Register)
    requires |h| == 4 && forall i | 0 <= i < 4 :: Hex(h[i])
    ensures ScanHex(h + rest, uc) == Loaded(CodeUnit(h))
  {
    var t := h + rest;
    assert t[0] == h[0] && t[1] == h[1];
    assert Front(t, 4) == h;
  }

  // ---- parse_string as a function of the text ----

  /** What a backslash escape other than `u` stands for. */
  function Unescaped(c: char): char {
    match c
    case 'b' => '\U{8}'
    case 'f' => '\U{C}'
    case 'n' => '\n'
    case 'r' => '\r'
    case 't' => '\t'
    case _ => c
  }

  /** The byte that ends both loops: the quote, the NUL, or any other control byte. */
  predicate AtEnd(s: string) { s == "" || s[0] == '"' || s[0] < ' ' }

  /** A byte that neither loop treats in a special way. */
  predicate PlainByte(c: char) { c >= ' ' && c != '"' && c != '\\' }

  function Prepend(out: string, r: Parsed<string>): Parsed<string> {
    match r
    case Done(more, rest) => Done(out + more, rest)
    case _ => r
  }

  /** What the writing of a unit leaves in `uc`, which it shifts six bits for every byte but the first. */
  function Shifted(u: Code): Register {
    Loaded(if u < 0x80 then u else if u < 0x800 then u / 0x40 else u / 0x1000)
  }

  /** The second pass, from behind the opening quote, with what `uc` holds: the bytes written, and the text left.
      Behind `\u` it steps over four bytes, whatever they are and wherever `%4x` has found its digits. */
  function Decode(s: string, uc: Register): (r: Parsed<string>)
    ensures r.Done? ==> |r.rest| <= |s|
  {
    if AtEnd(s) then Done("", if s != "" && s[0] == '"' then s[1..] else s)
    else if s[0] != '\\' then Prepend([s[0]], Decode(s[1..], uc))
    else if |s| < 2 then Malformed
    else if s[1] != 'u' then Prepend([Unescaped(s[1])], Decode(s[2..], uc))
    else if |s| < 6 || ScanHex(s[2..], uc).Open? then Malformed
    else var u := ScanHex(s[2..], uc).u; Prepend(Utf8(u), Decode(s[6..], Shifted(u)))
  }

  lemma {:induction false} DecodeNeverFails(s: string, uc: Register)
    ensures !Decode(s, uc).Fail?
  {
    if AtEnd(s) {
    } else if s[0] != '\\' {
      DecodeNeverFails(s[1..], uc);
    } else if |s| < 2 {
    } else if s[1] != 'u' {
      DecodeNeverFails(s[2..], uc);
    } else if |s| >= 6 && ScanHex(s[2..], uc).Loaded? {
      DecodeNeverFails(s[6..], Shifted(ScanHex(s[2..], uc).u));
    }
  }

  function Add(n: nat, r: Parsed<nat>): Parsed<nat> { if r.Done? then Done(n + r.value, r.rest) else r }

  /** The first pass: how many bytes it counts, and the text it stops at. */
  function Count(s: string): Parsed<nat> {
    if AtEnd(s) then Done(0, s)
    else if s[0] != '\\' then Add(1, Count(s[1..]))
    else if |s| < 2 then Malformed
    else Add(1, Count(s[2..]))
  }

  /** A C string ends at its first NUL. */
  function CString(s: string): string {
    if s == "" || s[0] == '\0' then "" else [s[0]] + CString(s[1..])
  }

  /** More bytes than there is room for leave the buffer. */
  function Fit(r: Parsed<string>, room: nat): Parsed<string> { if r.Done? && |r.value| > room then Malformed else r }

  function ParseString(s: string): (r: Parsed<string>)
    ensures r.Done? ==> |r.rest| < |s|
  {
    if s == "" || s[0] != '"' then Fail else
    var (room, _) :- Count(s[1..]);
    var (out, rest) :- Fit(Decode(s[1..], Open), room);
    Done(CString(out), rest)
  }

  /** Behind an opening quote a string never fails to parse. */
  lemma ParseStringNeverFails(s: string)
    requires s != "" && s[0] == '"'
    ensures !ParseString(s).Fail?
  {
    DecodeNeverFails(s[1..], Open);
    CountNeverFails(s[1..]);
  }

  lemma {:induction false} CountNeverFails(s: string)
    ensures !Count(s).Fail?
    decreases s
  {
    if AtEnd(s) {
    } else if s[0] != '\\' {
      CountNeverFails(s[1..]);
    } else if |s| >= 2 {
      CountNeverFails(s[2..]);
    }
  }

  // ---- the two passes agree ----

  /** Behind every `\u` that the second pass meets, four plain bytes. */
  ghost predicate Even(s: string) {
    if AtEnd(s) then true
    else if s[0] != '\\' then Even(s[1..])
    else if |s| < 2 then false
    else if s[1] != 'u' then Even(s[2..])
    else |s| >= 6 && (forall i | 2 <= i < 6 :: PlainByte(s[i])) && Even(s[6..])
  }

  /** The first pass counts a `\u` escape as five bytes. */
  lemma CountUnit(s: string)
    requires |s| >= 6 && s[0] == '\\' && forall i | 2 <= i < 6 :: PlainByte(s[i])
    ensures Count(s) == Add(5, Count(s[6..]))
  {
    for i := 2 to 6
      invariant Count(s[2..]) == Add(i - 2, Count(s[i..]))
    {
      assert s[i..][0] == s[i] && s[i..][1..] == s[i + 1..];
    }
  }

  /** Whenever four plain bytes follow every `\u`, both passes stop at the same byte and the buffer that the first
      pass measures holds what the second pass writes. */
  lemma {:induction false} PassesAgree(s: string, uc: Register)
    requires Even(s)
    ensures Count(s).Done? && Fit(Decode(s, uc), Count(s).value) == Decode(s, uc)
    ensures var stop := Count(s).rest;
            Decode(s, uc).Done? ==> Decode(s, uc).rest == if stop != "" && stop[0] == '"' then stop[1..] else stop
    decreases s
  {
    if AtEnd(s) {
    } else if s[0] != '\\' {
      PassesAgree(s[1..], uc);
    } else if s[1] != 'u' {
      PassesAgree(s[2..], uc);
    } else {
      CountUnit(s);
      if ScanHex(s[2..], uc).Loaded? {
        PassesAgree(s[6..], Shifted(ScanHex(s[2..], uc).u));
      } else {
        PassesAgree(s[6..], Open);
      }
    }
  }

  // ---- print_string_ptr as a function of the string ----

  /** The letter behind the backslash for a byte that is escaped, if there is one. */
  function EscapeLetter(c: char): Escape {
    match c
    case '\\' => Letter('\\')
    case '"' => Letter('"')
    case '\U{8}' => Letter('b')
    case '\U{C}' => Letter('f')
    case '\n' => Letter('n')
    case '\r' => Letter('r')
    case '\t' => Letter('t')
    case _ => if c < ' ' then Drop else Plain
  }

  /** Bytes are copied, escaped with a letter, or dropped ("eviscerated"). */
  datatype Escape = Plain | Letter(c: char) | Drop

  function EscapeChar(c: char): string {
    match EscapeLetter(c)
    case Plain => [c]
    case Letter(l) => ['\\', l]
    case Drop => ""
  }

  function EscapeAll(s: string): string {
    if s == "" then "" else EscapeChar(s[0]) + EscapeAll(s[1..])
  }

  function PrintString(s: string): string { "\"" + (EscapeAll(s) + "\"") }

  /** The string with the bytes that print_string_ptr drops taken out. */
  function Clean(s: string): string {
    if s == "" then "" else if EscapeLetter(s[0]).Drop? then Clean(s[1..]) else [s[0]] + Clean(s[1..])
  }

  // ---- RFC 8259 section 7 ----

  /** char = unescaped / escape followed by a letter / escape `u` 4HEXDIG */
  datatype StringChar = Raw(c: char) | Esc(letter: char) | Unit(hex: string)

  /** Raw bytes cover the UTF-8 of every unescaped code point. */
  ghost predicate WellFormedChar(x: StringChar) {
    match x
    case Raw(c) => c >= ' ' && c != '"' && c != '\\'
    case Esc(c) => EscapeOf(c)
    case Unit(h) => |h| == 4 && forall i | 0 <= i < 4 :: Hex(h[i])
  }

  predicate EscapeOf(c: char) {
    c == '"' || c == '\\' || c == '/' || c == 'b' || c == 'f' || c == 'n' || c == 'r' || c == 't'
  }

  ghost predicate WellFormedChars(xs: seq<StringChar>) { forall i | 0 <= i < |xs| :: WellFormedChar(xs[i]) }

  function CharText(x: StringChar): string {
    match x
    case Raw(c) => [c]
    case Esc(c) => ['\\', c]
    case Unit(h) => ['\\', 'u'] + h
  }

  function CharsText(xs: seq<StringChar>): string {
    if xs == [] then "" else CharText(xs[0]) + CharsText(xs[1..])
  }

  /** string = quotation-mark *char quotation-mark */
  function StringLiteralText(xs: seq<StringChar>): string { "\"" + (CharsText(xs) + "\"") }

  /** What one char denotes, as bytes: an escape letter is read by the table of section 7, a unit is the
      UTF-8 of its code point, surrogates being written out like any other unit. */
  function CharBytes(x: StringChar): string
    requires WellFormedChar(x)
  {
    match x
    case Raw(c) => [c]
    case Esc(c) =>
      [if c == 'b' then '\U{8}' else if c == 'f' then '\U{C}' else if c == 'n' then '\U{A}'
       else if c == 'r' then '\U{D}' else if c == 't' then '\U{9}' else c]
    case Unit(h) => Utf8(CodeUnit(h))
  }

  function CharsBytes(xs: seq<StringChar>): string
    requires WellFormedChars(xs)
  {
    if xs == [] then "" else CharBytes(xs[0]) + CharsBytes(xs[1..])
  }

  /** What `uc` holds behind a char of the grammar. */
  function Behind(x: StringChar, uc: Register): Register
    requires WellFormedChar(x)
  {
    if x.Unit? then Shifted(CodeUnit(x.hex)) else uc
  }

  /** One char of the grammar is read by one turn of the second loop. */
  lemma DecodeChar(x: StringChar, rest: string, uc: Register)
    requires WellFormedChar(x) && Decode(rest, Behind(x, uc)).Done? && Even(rest)
    ensures Decode(CharText(x) + rest, uc).Done? && Even(CharText(x) + rest)
    ensures Decode(CharText(x) + rest, uc).value == CharBytes(x) + Decode(rest, Behind(x, uc)).value
    ensures Decode(CharText(x) + rest, uc).rest == Decode(rest, Behind(x, uc)).rest
  {
    var s := CharText(x) + rest;
    match x
    case Raw(c) => assert s[0] == c && s[1..] == rest;
    case Esc(c) => assert s[0] == '\\' && s[1] == c && s[2..] == rest;
    case Unit(h) => DecodeUnit(h, rest, uc);
  }

  lemma DecodeUnit(h: string, rest: string, uc: Register)
    requires WellFormedChar(Unit(h)) && Even(rest)
    ensures var s := CharText(Unit(h)) + rest;
            Even(s) && Decode(s, uc) == Prepend(Utf8(CodeUnit(h)), Decode(rest, Shifted(CodeUnit(h))))
  {
    var s := CharText(Unit(h)) + rest;
    assert s[0] == '\\' && s[1] == 'u' && s[2..] == h + rest && s[6..] == rest;
    assert s[2] == h[0] && s[3] == h[1] && s[4] == h[2] && s[5] == h[3];
    ScanUnit(h, rest, uc);
  }

  lemma DecodeEnd(tail: string, rest: string, uc: Register)
    requires tail == "\"" + rest
    ensures Reads(Decode(tail, uc), "", rest)
  {
    assert tail[1..] == rest;
  }

  lemma CharsTextHead(xs: seq<StringChar>, tail: string)
    requires xs != []
    ensures CharsText(xs) + tail == CharText(xs[0]) + (CharsText(xs[1..]) + tail)
  {
  }

  lemma {:induction false} DecodeChars(xs: seq<StringChar>, tail: string, rest: string, uc: Register)
    requires WellFormedChars(xs) && tail == "\"" + rest
    ensures Reads(Decode(CharsText(xs) + tail, uc), CharsBytes(xs), rest) && Even(CharsText(xs) + tail)
    decreases xs
  {
    if xs == [] {
      assert CharsText(xs) + tail == tail;
      DecodeEnd(tail, rest, uc);
    } else {
      DecodeChars(xs[1..], tail, rest, Behind(xs[0], uc));
      CharsTextHead(xs, tail);
      DecodeChar(xs[0], CharsText(xs[1..]) + tail, uc);
    }
  }

  lemma {:induction false} CStringWithoutNul(s: string)
    requires forall i | 0 <= i < |s| :: s[i] != '\0'
    ensures CString(s) == s
  {
    if s == "" {
    } else {
      CStringWithoutNul(s[1..]);
    }
  }

  /** What is stored for a string of the grammar: a C string, which ends at the first NUL. */
  function Stored(xs: seq<StringChar>): string
    requires WellFormedChars(xs)
  {
    CString(CharsBytes(xs))
  }

  ghost predicate NulUnit(x: StringChar)
    requires WellFormedChar(x)
  {
    x.Unit? && CodeUnit(x.hex) == 0
  }

  lemma CharHasNul(x: StringChar)
    requires WellFormedChar(x)
    ensures '\0' in CharBytes(x) <==> NulUnit(x)
  {
    if x.Unit? {
      if CodeUnit(x.hex) == 0 {
        assert CharBytes(x)[0] == '\0';
      } else {
        Utf8HasNoNul(CodeUnit(x.hex));
      }
    }
  }

  lemma {:induction false} CharsHaveNul(xs: seq<StringChar>)
    requires WellFormedChars(xs)
    ensures '\0' in CharsBytes(xs) <==> exists i :: 0 <= i < |xs| && NulUnit(xs[i])
  {
    if xs == [] {
    } else {
      CharHasNul(xs[0]);
      CharsHaveNul(xs[1..]);
      forall i | 0 <= i < |xs| ensures NulUnit(xs[i]) <==> NulUnit(if i == 0 then xs[0] else xs[1..][i - 1]) {
      }
      if i :| 0 <= i < |xs| - 1 && NulUnit(xs[1..][i]) {
        assert NulUnit(xs[i + 1]);
      }
    }
  }

  lemma {:induction false} CStringEndsAtNul(s: string)
    requires '\0' in s
    ensures |CString(s)| < |s|
  {
    if s[0] != '\0' {
      CStringEndsAtNul(s[1..]);
    }
  }

  /** A string of the grammar is stored as the bytes it denotes exactly if no unit is `\u0000`. */
  lemma StoredExactIff(xs: seq<StringChar>)
    requires WellFormedChars(xs)
    ensures Stored(xs) == CharsBytes(xs) <==> forall i | 0 <= i < |xs| :: !NulUnit(xs[i])
  {
    CharsHaveNul(xs);
    if '\0' in CharsBytes(xs) {
      CStringEndsAtNul(CharsBytes(xs));
    } else {
      CStringWithoutNul(CharsBytes(xs));
    }
  }

  lemma SplitStringText(xs: seq<StringChar>, rest: string)
    ensures (StringLiteralText(xs) + rest)[0] == '"'
    ensures (StringLiteralText(xs) + rest)[1..] == CharsText(xs) + ("\"" + rest)
  {
  }

  /** Every string of the RFC grammar is read in full, and stored as the bytes it denotes up to the first NUL. */
  lemma ParseStringComplete(xs: seq<StringChar>, rest: string)
    requires WellFormedChars(xs)
    ensures Reads(ParseString(StringLiteralText(xs) + rest), Stored(xs), rest)
  {
    SplitStringText(xs, rest);
    DecodeChars(xs, "\"" + rest, rest, Open);
    PassesAgree(CharsText(xs) + ("\"" + rest), Open);
  }

  // ---- printed strings are grammatical ----

  /** The chars of the grammar that print_string_ptr writes for a string. */
  function PrintedChars(s: string): seq<StringChar> {
    if s == "" then [] else
    var rest := PrintedChars(s[1..]);
    match EscapeLetter(s[0])
    case Plain => [Raw(s[0])] + rest
    case Letter(l) => [Esc(l)] + rest
    case Drop => rest
  }

  lemma PrintedStringLiteral(s: string)
    ensures var xs := PrintedChars(s);
            && WellFormedChars(xs) && StringLiteralText(xs) == PrintString(s)
            && CharsBytes(xs) == Clean(s) && Stored(xs) == Clean(s)
  {
    PrintedCharsText(s);
    CleanHasNoNul(s);
    CStringWithoutNul(Clean(s));
  }

  lemma {:induction false} CleanHasNoNul(s: string)
    ensures forall i | 0 <= i < |Clean(s)| :: Clean(s)[i] != '\0'
  {
    if s == "" {
    } else {
      CleanHasNoNul(s[1..]);
    }
  }

  lemma {:induction false} PrintedCharsText(s: string)
    ensures var xs := PrintedChars(s);
            WellFormedChars(xs) && CharsText(xs) == EscapeAll(s) && CharsBytes(xs) == Clean(s)
  {
    if s == "" {
    } else {
      PrintedCharsText(s[1..]);
      var xs := PrintedChars(s);
      if !EscapeLetter(s[0]).Drop? {
        assert xs[1..] == PrintedChars(s[1..]);
      }
    }
  }
}
