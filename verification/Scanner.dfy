/** The pointer loops of the parser: white space, numbers, and the two passes over a string. */
module Scanner {
  import opened Json
  import opened NumberText
  import opened StringText
  import opened Parser

  /** What a parsing function of cJSON returns: where to read on, a null pointer, or nothing the C code
      determines (it has left the text or the buffer, or its code unit is open). */
  datatype Outcome = Next(pos: nat) | Failed | Undefined

  /** The pointer result and the value agree with the parse of the text from i on. */
  ghost predicate Agrees<T>(r: Outcome, value: T, s: string, spec: Parsed<T>) {
    match r
    case Next(pos) => pos <= |s| && Reads(spec, value, s[pos..])
    case Failed => spec == Fail
    case Undefined => spec == Malformed
  }

  /** `*p`, with the NUL at the end of the text. */
  function Peek(s: string, i: nat): char { if i < |s| then s[i] else '\0' }

  /** The byte at a position, and the text behind it, seen from the text at that position. */
  lemma Ahead(s: string, i: nat)
    requires i < |s|
    ensures s[i..] != "" && s[i..][0] == s[i] && s[i..][1..] == s[i + 1..]
  {
  }

  /** skip */
  method SkipBlanks(s: string, start: nat) returns (i: nat)
    requires start <= |s|
    ensures start <= i <= |s| && s[i..] == Skip(s[start..])
  {
    i := start;
    while i < |s| && s[i] <= ' '
      invariant start <= i <= |s| && Skip(s[i..]) == Skip(s[start..])
    {
      Ahead(s, i);
      i := i + 1;
    }
    if i < |s| {
      Ahead(s, i);
    }
  }

  /** `while digit: n = n * 10 + digit` */
  method ScanDigits(s: string, start: nat, n0: int) returns (n: int, i: nat)
    requires start <= |s|
    ensures start <= i <= |s| && Accumulate(n0, s[start..]).0 == n && Accumulate(n0, s[start..]).1 == s[i..]
  {
    n, i := n0, start;
    while i < |s| && Digit(s[i])
      invariant start <= i <= |s|
      invariant Accumulate(n, s[i..]).0 == Accumulate(n0, s[start..]).0
      invariant Accumulate(n, s[i..]).1 == Accumulate(n0, s[start..]).1
    {
      Ahead(s, i);
      n, i := n * 10 + DigitValue(s[i]), i + 1;
    }
    if i < |s| {
      Ahead(s, i);
    }
  }

  /** The sign, the optional leading zero and the digits of the whole part. */
  method ScanWhole(s: string, start: nat) returns (negative: bool, n: int, i: nat)
    requires start <= |s|
    ensures start <= i <= |s| && negative == AtChar(s[start..], '-')
    ensures var (m, rest) := ParseWhole(if negative then s[start..][1..] else s[start..]); n == m && s[i..] == rest
  {
    i := start;
    negative := Peek(s, i) == '-';
    if negative {
      Ahead(s, i);
      i := i + 1;
    }
    ghost var whole := i;
    if Peek(s, i) == '0' {
      Ahead(s, i);
      i := i + 1;
    }
    n := 0;
    if i < |s| && '1' <= s[i] <= '9' {
      n, i := ScanDigits(s, i, 0);
    }
  }

  /** The fraction: `do n = n * 10 + (*num++ - '0'), scale-- while digit`. */
  method ScanFraction(s: string, start: nat, n0: int) returns (ok: bool, n: int, scale: int, i: nat)
    requires start <= |s|
    ensures start <= i <= |s| && (ok <==> (AtChar(s[start..], '.') ==> AtFractionByte(s[start..][1..])))
    ensures ok ==> var (m, k, rest) := ParseFraction(n0, s[start..]); n == m && scale == k && s[i..] == rest
  {
    ok, n, scale, i := true, n0, 0, start;
    if Peek(s, i) == '.' {
      Ahead(s, i);
      i := i + 1;
      ok := '\0' < Peek(s, i) < '\U{80}';
      if ok {
        Ahead(s, i);
        n, i := ScanDigits(s, i + 1, n * 10 + (s[i] as int - '0' as int));
        scale := start + 1 - i;
      }
    }
  }

  /** parse_number, up to the arithmetic on doubles. */
  method ScanNumber(s: string, start: nat) returns (r: Outcome, parts: Parts)
    requires start <= |s|
    ensures Agrees(r, parts, s, ReadNumber(s[start..]))
  {
    var negative, whole, i := ScanWhole(s, start);
    var ok, n, scale, j := ScanFraction(s, i, whole);
    var e, k := ScanExponent(s, j);
    parts := Parts(negative, n, scale + e);
    r := if ok then Next(k) else Undefined;
    NumberRead(s[start..], s[i..], ok, whole, parts.negative, n, scale, s[j..], e, s[k..]);
  }

  /** The parts read one after the other are those of the number. */
  lemma NumberRead(s: string, t: string, ok: bool, whole: int, negative: bool, n: int, scale: int, u: string, e: int,
                   rest: string)
    requires negative == AtChar(s, '-') && ParseWhole(if negative then s[1..] else s) == (whole, t)
    requires ok <==> (AtChar(t, '.') ==> AtFractionByte(t[1..]))
    requires ok ==> ParseFraction(whole, t) == (n, scale, u) && ParseExponent(u) == (e, rest)
    ensures if ok then Reads(ReadNumber(s), Parts(negative, n, scale + e), rest) else ReadNumber(s).Malformed?
  {
  }

  method ScanExponent(s: string, start: nat) returns (e: int, i: nat)
    requires start <= |s|
    ensures start <= i <= |s| && ParseExponent(s[start..]).0 == e && ParseExponent(s[start..]).1 == s[i..]
  {
    i, e := start, 0;
    if Peek(s, i) == 'e' || Peek(s, i) == 'E' {
      Ahead(s, i);
      i := i + 1;
      var sign: int := 1;
      ghost var subscale := s[i..];
      if Peek(s, i) == '+' {
        Ahead(s, i);
        i := i + 1;
      } else if Peek(s, i) == '-' {
        Ahead(s, i);
        sign, i := -1, i + 1;
      }
      var n;
      n, i := ScanDigits(s, i, 0);
      e := n * sign;
    }
  }

  // ---- strings ----

  /** The whole parse is the part that is done, followed by the parse of the text that is left. */
  ghost predicate Continues(whole: Parsed<string>, out: string, later: Parsed<string>) {
    && whole.Done? == later.Done? && whole.Fail? == later.Fail?
    && (whole.Done? ==> whole.value == out + later.value && whole.rest == later.rest)
  }

  ghost predicate Counts(whole: Parsed<nat>, n: nat, later: Parsed<nat>) {
    whole.Done? == later.Done? && (whole.Done? ==> whole.value == n + later.value)
  }

  /** The first pass of parse_string: the number of bytes to allocate. */
  method MeasureString(s: string, start: nat) returns (ok: bool, len: nat)
    requires start <= |s|
    ensures ok == Count(s[start..]).Done? && (ok ==> Count(s[start..]).value == len)
  {
    var i := start;
    len := 0;
    while i < |s| && s[i] != '"' && s[i] >= ' '
      invariant start <= i <= |s| && Counts(Count(s[start..]), len, Count(s[i..]))
    {
      Ahead(s, i);
      len := len + 1;
      if s[i] == '\\' {
        i := i + 1;
        if i == |s| {
          return false, len;
        }
        assert s[i - 1..][2..] == s[i + 1..];
      }
      i := i + 1;
    }
    ok := true;
  }

  /** How far `ptr2` moves before the bytes of the unit are stored. */
  function Width(unit: Code): (len: nat)
    ensures len == |Utf8(unit)|
  {
    if unit < 0x80 then 1 else if unit < 0x800 then 2 else 3
  }

  /** The `\u` branch: the bytes of the code unit are written last byte first, behind each other's back. */
  method WriteUnit(out: array<char>, at: nat, unit: Code) returns (end: nat, left: Register)
    requires at + |Utf8(unit)| <= out.Length
    modifies out
    ensures end == at + |Utf8(unit)| && out[..at] == old(out[..at]) && out[at..end] == Utf8(unit)
    ensures left == Shifted(unit)
  {
    var len := Width(unit);
    var uc: Code, p := unit, at + len;
    if len == 3 {
      p := p - 1;
      out[p] := (0x80 + uc % 0x40) as char;
      uc := uc / 0x40;
    }
    if len >= 2 {
      p := p - 1;
      out[p] := (0x80 + uc % 0x40) as char;
      uc := uc / 0x40;
    }
    p := p - 1;
    var firstByteMark := if len == 1 then 0x00 else if len == 2 then 0xC0 else 0xE0;
    out[p] := (uc + firstByteMark) as char;
    end, left := p + len, Loaded(uc);
  }

  /** The second pass, up to the first write behind the bytes the first pass counted. */
  method DecodeInto(s: string, start: nat, out: array<char>) returns (r: Outcome, len: nat)
    requires start <= |s| && out.Length > 0
    modifies out
    ensures r.Next? ==> len < out.Length && out[len] == '\0'
    ensures len <= out.Length && Agrees(r, out[..len], s, Fit(Decode(s[start..], Open), out.Length - 1))
  {
    var i, uc := start, Open;
    len := 0;
    ghost var whole := Decode(s[start..], Open);
    while i < |s| && s[i] != '"' && s[i] >= ' '
      invariant start <= i <= |s| && len < out.Length
      invariant Continues(whole, out[..len], Decode(s[i..], uc))
    {
      ghost var out0, later := out[..len], Decode(s[i..], uc);
      var ok, end, next, uc' := DecodeOne(s, i, uc, out, len);
      if !ok {
        return Undefined, len;
      }
      ContinueWith(whole, out0, out[len..end], Decode(s[next..], uc'));
      assert out[..end] == out0 + out[len..end];
      i, len, uc := next, end, uc';
    }
    ghost var bytes := out[..len];
    out[len] := '\0';
    assert out[..len] == bytes && bytes + "" == bytes;
    if i < |s| {
      Ahead(s, i);
    }
    r := Next(if i < |s| && s[i] == '"' then i + 1 else i);
  }

  /** One turn of the second loop, a byte, an escape, or a code unit: it stops where the code unit is open, where
      the text ends too soon, and where a write would leave the buffer (whose last byte is for the NUL). */
  method DecodeOne(s: string, i: nat, uc: Register, out: array<char>, len: nat)
    returns (ok: bool, end: nat, next: nat, uc': Register)
    requires i < |s| && !AtEnd(s[i..]) && len < out.Length
    modifies out
    ensures !ok ==> Fit(Decode(s[i..], uc), out.Length - 1 - len) == Malformed
    ensures !ok ==> out[..len] == old(out[..len])
    ensures ok ==>
              && i < next <= |s| && len <= end < out.Length && out[..len] == old(out[..len])
              && Decode(s[i..], uc) == Prepend(out[len..end], Decode(s[next..], uc'))
  {
    Ahead(s, i);
    DecodeNeverFails(s[i..], uc);
    ok, end, next, uc' := false, len, i, uc;
    if s[i] != '\\' {
      if len + 1 < out.Length {
        out[len] := s[i];
        ok, end, next := true, len + 1, i + 1;
        assert out[len..end] == [s[i]];
      }
    } else if i + 1 < |s| {
      AheadTwo(s, i);
      if s[i + 1] != 'u' {
        if len + 1 < out.Length {
          out[len] := Unescaped(s[i + 1]);
          ok, end, next := true, len + 1, i + 2;
          assert out[len..end] == [Unescaped(s[i + 1])];
        }
      } else if i + 6 <= |s| {
        AheadUnit(s, i);
        var unit := ScanHex(s[i + 2..], uc);
        if unit.Loaded? && len + Width(unit.u) < out.Length {
          end, uc' := WriteUnit(out, len, unit.u);
          ok, next := true, i + 6;
        }
      }
    }
  }

  lemma ContinueWith(whole: Parsed<string>, out: string, more: string, later: Parsed<string>)
    requires Continues(whole, out, Prepend(more, later))
    ensures Continues(whole, out + more, later)
  {
    if later.Done? {
      assert out + (more + later.value) == out + more + later.value;
    }
  }

  lemma AheadTwo(s: string, i: nat)
    requires i + 1 < |s|
    ensures s[i..][1] == s[i + 1] && s[i..][2..] == s[i + 2..]
  {
  }

  lemma AheadUnit(s: string, i: nat)
    requires i + 6 <= |s|
    ensures s[i..][2..] == s[i + 2..] && s[i..][6..] == s[i + 6..]
  {
  }

  /** parse_string: measure, allocate, decode. The result is what a C string reader sees in the buffer. */
  method ScanString(s: string, start: nat) returns (r: Outcome, out: string)
    requires start <= |s|
    ensures Agrees(r, out, s, ParseString(s[start..]))
  {
    out := "";
    if Peek(s, start) != '"' {
      return Failed, out;
    }
    Ahead(s, start);
    CountNeverFails(s[start + 1..]);
    var ok, len := MeasureString(s, start + 1);
    if !ok {
      return Undefined, out;
    }
    var buffer := new char[len + 1];
    var n;
    r, n := DecodeInto(s, start + 1, buffer);
    out := CString(buffer[..n]);
  }
}
