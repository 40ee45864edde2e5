/** Base 64 as in section 4 of RFC 4648. */
module Base64 {
  import opened StringText

  newtype Byte = n: int | 0 <= n < 256

  datatype Option<T> = None | Some(value: T)

  /** Table 1: the digit for a value below 64. */
  function Digit(n: int): char
    requires 0 <= n < 64
  {
    if n < 26 then (n + 'A' as int) as char
    else if n < 52 then (n - 26 + 'a' as int) as char
    else if n < 62 then (n - 52 + '0' as int) as char
    else if n == 62 then '+' else '/'
  }

  /** The value of a digit; -1 for any other character. */
  function Value(c: char): (n: int)
    ensures -1 <= n < 64
  {
    if 'A' <= c <= 'Z' then c as int - 'A' as int
    else if 'a' <= c <= 'z' then c as int - 'a' as int + 26
    else if '0' <= c <= '9' then c as int - '0' as int + 52
    else if c == '+' then 62 else if c == '/' then 63 else -1
  }

  lemma DigitValue(n: int)
    requires 0 <= n < 64
    ensures Value(Digit(n)) == n && Digit(n) != '='
  {
  }

  /** The values of the four digits of three bytes; a missing byte counts as zero. */
  function Quantum(a: int, b: int, c: int): (q: seq<int>)
    requires 0 <= a < 256 && 0 <= b < 256 && 0 <= c < 256
    ensures |q| == 4 && forall i | 0 <= i < 4 :: 0 <= q[i] < 64
  {
    [a / 4, a % 4 * 16 + b / 16, b % 16 * 4 + c / 64, c % 64]
  }

  /** The digits for these values. */
  function Text(q: seq<int>): (s: string)
    requires forall i | 0 <= i < |q| :: 0 <= q[i] < 64
    ensures |s| == |q|
  {
    if q == [] then "" else [Digit(q[0])] + Text(q[1..])
  }

  /** Three bytes become four digits; one or two bytes at the end are padded. */
  function Encode(bytes: seq<Byte>): string {
    if |bytes| == 0 then ""
    else if |bytes| == 1 then Text(Quantum(bytes[0] as int, 0, 0)[..2]) + "=="
    else if |bytes| == 2 then Text(Quantum(bytes[0] as int, bytes[1] as int, 0)[..3]) + "="
    else Text(Quantum(bytes[0] as int, bytes[1] as int, bytes[2] as int)) + Encode(bytes[3..])
  }

  lemma {:induction false} TextAt(q: seq<int>, i: nat)
    requires i < |q| && forall i | 0 <= i < |q| :: 0 <= q[i] < 64
    ensures Text(q)[i] == Digit(q[i])
  {
    if i == 0 {
    } else {
      TextAt(q[1..], i - 1);
    }
  }

  function First(p: int, q: int): int { p * 4 + q / 16 }

  function Second(q: int, r: int): int { q % 16 * 16 + r / 4 }

  function Third(r: int, s: int): int { r % 4 * 64 + s }

  /** The bytes of a base 64 text; nothing for a text that is none. */
  function Decode(s: string): Option<seq<Byte>>
    decreases |s|
  {
    if s == "" then Some([]) else if |s| < 4 then None else
    var p, q, r, t := Value(s[0]), Value(s[1]), Value(s[2]), Value(s[3]);
    if p < 0 || q < 0 then None
    else if |s| == 4 && s[2] == '=' && s[3] == '=' then Some([First(p, q) as Byte])
    else if r < 0 then None
    else if |s| == 4 && s[3] == '=' then Some([First(p, q) as Byte, Second(q, r) as Byte])
    else if t < 0 then None
    else
      var rest := Decode(s[4..]);
      if rest.None? then None
      else Some([First(p, q) as Byte, Second(q, r) as Byte, Third(r, t) as Byte] + rest.value)
  }

  /** The values of a quantum give its bytes back. */
  lemma QuantumBytes(a: int, b: int, c: int)
    requires 0 <= a < 256 && 0 <= b < 256 && 0 <= c < 256
    ensures var q := Quantum(a, b, c); First(q[0], q[1]) == a && Second(q[1], q[2]) == b && Third(q[2], q[3]) == c
  {
  }

  /** The first digits of a text are those of these values. */
  ghost predicate StartsWith(s: string, q: seq<int>) {
    |q| <= |s| && forall i | 0 <= i < |q| :: Value(s[i]) == q[i] && s[i] != '='
  }

  lemma TextStarts(q: seq<int>, more: string)
    requires forall i | 0 <= i < |q| :: 0 <= q[i] < 64
    ensures StartsWith(Text(q) + more, q) && (Text(q) + more)[|q|..] == more
  {
    forall i | 0 <= i < |q| ensures Value((Text(q) + more)[i]) == q[i] && (Text(q) + more)[i] != '=' {
      TextAt(q, i);
      DigitValue(q[i]);
    }
  }

  lemma DecodeOne(s: string, q: seq<int>)
    requires |q| == 2 && StartsWith(s, q) && s[2..] == "==" && 0 <= q[0] && 0 <= q[1] && 0 <= First(q[0], q[1]) < 256
    ensures Decode(s) == Some([First(q[0], q[1]) as Byte])
  {
    assert s[2] == s[2..][0] && s[3] == s[2..][1];
  }

  lemma DecodeTwo(s: string, q: seq<int>)
    requires |q| == 3 && StartsWith(s, q) && s[3..] == "=" && 0 <= q[0] && 0 <= q[1] && 0 <= q[2]
    requires 0 <= First(q[0], q[1]) < 256 && 0 <= Second(q[1], q[2]) < 256
    ensures Decode(s) == Some([First(q[0], q[1]) as Byte, Second(q[1], q[2]) as Byte])
  {
    assert s[3] == s[3..][0];
  }

  lemma DecodeThree(s: string, q: seq<int>)
    requires |q| == 4 && StartsWith(s, q) && (forall i | 0 <= i < 4 :: 0 <= q[i]) && Decode(s[4..]).Some?
    requires 0 <= First(q[0], q[1]) < 256 && 0 <= Second(q[1], q[2]) < 256 && 0 <= Third(q[2], q[3]) < 256
    ensures Decode(s) ==
            Some([First(q[0], q[1]) as Byte, Second(q[1], q[2]) as Byte, Third(q[2], q[3]) as Byte]
                + Decode(s[4..]).value)
  {
  }

  lemma OneByte(q: seq<int>, a: Byte)
    requires |q| == 2 && (forall i | 0 <= i < 2 :: 0 <= q[i] < 64) && First(q[0], q[1]) == a as int
    ensures Decode(Text(q) + "==") == Some([a])
  {
    TextStarts(q, "==");
    DecodeOne(Text(q) + "==", q);
  }

  lemma TwoBytes(q: seq<int>, a: Byte, b: Byte)
    requires |q| == 3 && (forall i | 0 <= i < 3 :: 0 <= q[i] < 64)
    requires First(q[0], q[1]) == a as int && Second(q[1], q[2]) == b as int
    ensures Decode(Text(q) + "=") == Some([a, b])
  {
    TextStarts(q, "=");
    DecodeTwo(Text(q) + "=", q);
  }

  lemma ThreeBytes(q: seq<int>, a: Byte, b: Byte, c: Byte, more: string)
    requires |q| == 4 && (forall i | 0 <= i < 4 :: 0 <= q[i] < 64) && Decode(more).Some?
    requires First(q[0], q[1]) == a as int && Second(q[1], q[2]) == b as int && Third(q[2], q[3]) == c as int
    ensures Decode(Text(q) + more) == Some([a, b, c] + Decode(more).value)
  {
    TextStarts(q, more);
    DecodeThree(Text(q) + more, q);
  }

  /** Decoding inverts encoding, for one byte at the end ... */
  lemma DecodeLast(bytes: seq<Byte>)
    requires |bytes| == 1
    ensures Decode(Encode(bytes)) == Some([bytes[0]])
  {
    var a := bytes[0];
    var q := Quantum(a as int, 0, 0);
    QuantumBytes(a as int, 0, 0);
    assert q[..2][0] == q[0] && q[..2][1] == q[1];
    OneByte(q[..2], a);
    EncodeLast(bytes);
  }

  lemma EncodeLast(bytes: seq<Byte>)
    requires |bytes| == 1
    ensures Encode(bytes) == Text(Quantum(bytes[0] as int, 0, 0)[..2]) + "=="
  {
  }

  /** ... for two ... */
  lemma DecodeLastTwo(a: Byte, b: Byte)
    ensures Decode(Encode([a, b])) == Some([a, b])
  {
    var q := Quantum(a as int, b as int, 0);
    QuantumBytes(a as int, b as int, 0);
    assert q[..3][0] == q[0] && q[..3][1] == q[1] && q[..3][2] == q[2];
    TwoBytes(q[..3], a, b);
  }

  /** ... and for three bytes in front of more. */
  lemma DecodeAhead(a: Byte, b: Byte, c: Byte, more: string)
    requires Decode(more).Some?
    ensures Decode(Text(Quantum(a as int, b as int, c as int)) + more) == Some([a, b, c] + Decode(more).value)
  {
    QuantumBytes(a as int, b as int, c as int);
    ThreeBytes(Quantum(a as int, b as int, c as int), a, b, c, more);
  }

  /** Decoding inverts encoding. */
  lemma {:induction false} DecodeEncode(bytes: seq<Byte>)
    ensures Decode(Encode(bytes)) == Some(bytes)
    decreases |bytes|
  {
    if bytes == [] {
    } else if |bytes| == 1 {
      DecodeLast(bytes);
      assert bytes == [bytes[0]];
    } else if |bytes| == 2 {
      DecodeLastTwo(bytes[0], bytes[1]);
      assert bytes == [bytes[0], bytes[1]];
    } else {
      DecodeEncode(bytes[3..]);
      DecodeAhead(bytes[0], bytes[1], bytes[2], Encode(bytes[3..]));
      assert bytes == [bytes[0], bytes[1], bytes[2]] + bytes[3..];
    }
  }

  predicate Allowed(c: char) { Value(c) >= 0 || c == '=' }

  ghost predicate AllAllowed(s: string) { forall i | 0 <= i < |s| :: Allowed(s[i]) }

  lemma {:induction false} TextAllowed(q: seq<int>, more: string)
    requires (forall i | 0 <= i < |q| :: 0 <= q[i] < 64) && AllAllowed(more)
    ensures AllAllowed(Text(q) + more)
    decreases q
  {
    if q == [] {
      assert Text(q) + more == more;
    } else {
      TextAllowed(q[1..], more);
      DigitValue(q[0]);
      assert Text(q) + more == [Digit(q[0])] + (Text(q[1..]) + more);
    }
  }

  lemma {:induction false} EncodedLength(bytes: seq<Byte>)
    ensures |Encode(bytes)| == (|bytes| + 2) / 3 * 4
    decreases |bytes|
  {
    if |bytes| <= 2 {
    } else {
      EncodedLength(bytes[3..]);
    }
  }

  lemma {:induction false} EncodedAllowed(bytes: seq<Byte>)
    ensures AllAllowed(Encode(bytes))
    decreases |bytes|
  {
    if bytes == [] {
    } else if |bytes| == 1 {
      TextAllowed(Quantum(bytes[0] as int, 0, 0)[..2], "==");
    } else if |bytes| == 2 {
      TextAllowed(Quantum(bytes[0] as int, bytes[1] as int, 0)[..3], "=");
    } else {
      EncodedAllowed(bytes[3..]);
      TextAllowed(Quantum(bytes[0] as int, bytes[1] as int, bytes[2] as int), Encode(bytes[3..]));
    }
  }

  /** Four digits for every three bytes begun; all of them letters, digits, `+`, `/` or `=`. */
  lemma Encoded(bytes: seq<Byte>)
    ensures |Encode(bytes)| == (|bytes| + 2) / 3 * 4 && AllAllowed(Encode(bytes))
  {
    EncodedLength(bytes);
    EncodedAllowed(bytes);
  }

  /** No allowed character is escaped or dropped. */
  lemma AllowedIsPlain(c: char)
    requires Allowed(c)
    ensures EscapeLetter(c).Plain? && c != '\0'
  {
  }

  lemma {:induction false} PlainText(s: string)
    requires forall i | 0 <= i < |s| :: EscapeLetter(s[i]).Plain?
    ensures EscapeAll(s) == s && Clean(s) == s
  {
    if s == "" {
    } else {
      PlainText(s[1..]);
    }
  }

  /** Base 64 passes through the escaping of print_string_ptr unchanged. */
  lemma NotEscaped(bytes: seq<Byte>)
    ensures PrintString(Encode(bytes)) == "\"" + (Encode(bytes) + "\"") && Clean(Encode(bytes)) == Encode(bytes)
    ensures forall i | 0 <= i < |Encode(bytes)| :: Encode(bytes)[i] != '\0'
  {
    var s := Encode(bytes);
    Encoded(bytes);
    forall i | 0 <= i < |s| ensures EscapeLetter(s[i]).Plain? && s[i] != '\0' {
      AllowedIsPlain(s[i]);
    }
    PlainText(s);
  }
}
