/** Strings outside the grammar that parse_string reads all the same, and what it reads. */
module OddStrings {
  import opened Json
  import opened StringText
  import Cuts

  /** Fewer digits than four end at a byte that is no digit. */
  lemma ScanShort(digits: string, tail: string, uc: Register)
    requires 1 <= |digits| <= 4 && (forall i | 0 <= i < |digits| :: Hex(digits[i]))
    requires |digits| == 4 || tail == "" || !Hex(tail[0])
    requires digits == "0" && tail != "" ==> tail[0] != 'x' && tail[0] != 'X'
    ensures ScanHex(digits + tail, uc) == Loaded(CodeUnit(digits))
  {
    var t := digits + tail;
    assert |digits| > 1 ==> t[1] == digits[1];
    assert |digits| > 2 ==> t[2] == digits[2];
    assert |digits| > 3 ==> t[3] == digits[3];
    assert |digits| < 4 && tail != "" ==> t[|digits|] == tail[0];
  }

  /** A prefix leaves two digits of the four bytes. */
  lemma ScanPrefixed(digits: string, tail: string, uc: Register)
    requires |digits| == 2 && Hex(digits[0]) && Hex(digits[1])
    ensures ScanHex("0x" + (digits + tail), uc) == Loaded(CodeUnit(digits))
  {
    var t := "0x" + (digits + tail);
    assert t[2..] == digits + tail && Front(t[2..], 2) == digits;
  }

  /** A plus sign leaves three. */
  lemma ScanSigned(digits: string, tail: string, uc: Register)
    requires |digits| == 3 && Hex(digits[0]) && Hex(digits[1]) && Hex(digits[2])
    ensures ScanHex("+" + (digits + tail), uc) == Loaded(CodeUnit(digits))
  {
    var t := "+" + (digits + tail);
    assert t[1..] == digits + tail && Front(t[1..], 3) == digits;
    assert t[1..][0] == digits[0] && t[1..][1] == digits[1];
  }

  /** Blanks do not count: behind them come up to four digits, the last ones read again as bytes of the string. */
  lemma ScanBlank(tail: string, uc: Register)
    ensures ScanHex(" " + tail, uc) == ScanHex(tail, uc)
  {
    assert (" " + tail)[1..] == tail;
  }

  lemma {:induction false} PlainCount(bytes: string, tail: string)
    requires forall i | 0 <= i < |bytes| :: PlainByte(bytes[i])
    ensures Count(bytes + tail) == Add(|bytes|, Count(tail))
    decreases bytes
  {
    if bytes == "" {
      assert bytes + tail == tail;
    } else {
      PlainCount(bytes[1..], tail);
      assert (bytes + tail)[1..] == bytes[1..] + tail;
    }
  }

  /** Plain bytes and a closing quote. */
  lemma {:induction false} PlainDecode(bytes: string, uc: Register)
    requires forall i | 0 <= i < |bytes| :: PlainByte(bytes[i])
    ensures Reads(Decode(bytes + "\"", uc), bytes, "")
    decreases bytes
  {
    if bytes == "" {
      assert bytes + "\"" == "\"" && "\""[1..] == "";
    } else {
      PlainDecode(bytes[1..], uc);
      assert (bytes + "\"")[0] == bytes[0] && (bytes + "\"")[1..] == bytes[1..] + "\"";
      assert [bytes[0]] + bytes[1..] == bytes;
    }
  }

  /** One turn of the second loop reads a code unit. */
  lemma UnitDecode(h: string, tail: string, uc: Register)
    requires |h| == 4 && ScanHex(h + tail, uc).Loaded?
    ensures var u := ScanHex(h + tail, uc).u;
            Decode("\\u" + (h + tail), uc) == Prepend(Utf8(u), Decode(tail, Shifted(u)))
  {
    var s := "\\u" + (h + tail);
    assert s[0] == '\\' && s[1] == 'u' && s[2..] == h + tail && s[6..] == tail;
  }

  /** The first pass takes the `u` for any other byte. */
  lemma PairCount(c: char, tail: string)
    ensures Count(['\\', c] + tail) == Add(1, Count(tail))
  {
    var s := ['\\', c] + tail;
    assert s[2..] == tail;
  }

  /** A quote among the four bytes ends the first pass but not the second: the string has a definite value exactly
      if the unit and what stands up to the next quote fit into the bytes counted in front of the first. */
  lemma QuoteAmongFour(a: string, b: string, bytes: string)
    requires |a| + |b| == 3 && forall i | 0 <= i < |a| :: PlainByte(a[i])
    requires forall i | 0 <= i < |bytes| :: PlainByte(bytes[i])
    requires ScanHex(a + ("\"" + b) + (bytes + "\""), Open).Loaded?
    ensures var u := ScanHex(a + ("\"" + b) + (bytes + "\""), Open).u;
            var r := ParseString("\"" + ("\\u" + (a + ("\"" + b) + (bytes + "\""))));
            if |Utf8(u)| + |bytes| <= 1 + |a| then Reads(r, CString(Utf8(u) + bytes), "") else r.Malformed?
  {
    var h, tail := a + ("\"" + b), bytes + "\"";
    var u := ScanHex(h + tail, Open).u;
    UnitDecode(h, tail, Open);
    PlainDecode(bytes, Shifted(u));
    QuoteCount(a, b, tail);
    FromPasses("\\u" + (h + tail), Utf8(u) + bytes);
  }

  lemma QuoteCount(a: string, b: string, tail: string)
    requires forall i | 0 <= i < |a| :: PlainByte(a[i])
    ensures var r := Count("\\u" + (a + ("\"" + b) + tail)); r.Done? && r.value == 1 + |a|
  {
    PairCount('u', a + ("\"" + b) + tail);
    Cuts.Glue(a, "\"" + b, tail);
    PlainCount(a, "\"" + b + tail);
    assert AtEnd("\"" + b + tail);
  }

  /** Nor does a backslash among them bother the second pass. */
  lemma BackslashAmongFour(a: string, c: char, bytes: string)
    requires |a| == 2 && PlainByte(a[0]) && PlainByte(a[1])
    requires forall i | 0 <= i < |bytes| :: PlainByte(bytes[i])
    requires ScanHex(a + ['\\', c] + (bytes + "\""), Open).Loaded?
    ensures var u := ScanHex(a + ['\\', c] + (bytes + "\""), Open).u;
            Reads(ParseString("\"" + ("\\u" + (a + ['\\', c] + (bytes + "\"")))), CString(Utf8(u) + bytes), "")
  {
    var h, tail := a + ['\\', c], bytes + "\"";
    var u := ScanHex(h + tail, Open).u;
    UnitDecode(h, tail, Open);
    PlainDecode(bytes, Shifted(u));
    BackslashCount(a, c, bytes);
    FromPasses("\\u" + (h + tail), Utf8(u) + bytes);
  }

  lemma BackslashCount(a: string, c: char, bytes: string)
    requires |a| == 2 && PlainByte(a[0]) && PlainByte(a[1])
    requires forall i | 0 <= i < |bytes| :: PlainByte(bytes[i])
    ensures var r := Count("\\u" + (a + ['\\', c] + (bytes + "\""))); r.Done? && r.value == 4 + |bytes|
  {
    var tail := bytes + "\"";
    PairCount('u', a + ['\\', c] + tail);
    Cuts.Glue(a, ['\\', c], tail);
    PlainCount(a, ['\\', c] + tail);
    PairCount(c, tail);
    PlainCount(bytes, "\"");
  }

  /** parse_string from what its two passes make of the text behind the quote. */
  lemma FromPasses(s: string, value: string)
    requires Count(s).Done? && Reads(Decode(s, Open), value, "")
    ensures var r := ParseString("\"" + s);
            if |value| <= Count(s).value then Reads(r, CString(value), "") else r.Malformed?
  {
    assert ("\"" + s)[1..] == s;
  }

  /** Four plain bytes in which a unit is found. */
  lemma OneUnit(h: string)
    requires |h| == 4 && (forall i | 0 <= i < 4 :: PlainByte(h[i])) && ScanHex(h + "\"", Open).Loaded?
    ensures Reads(ParseString("\"" + ("\\u" + (h + "\""))), CString(Utf8(ScanHex(h + "\"", Open).u)), "")
  {
    var u := ScanHex(h + "\"", Open).u;
    UnitDecode(h, "\"", Open);
    CloseQuote(Shifted(u));
    assert Utf8(u) + "" == Utf8(u);
    PairCount('u', h + "\"");
    PlainCount(h, "\"");
    FromPasses("\\u" + (h + "\""), Utf8(u));
  }

  /** Four plain bytes without a digit behind a unit: what the first left in `uc` is written once more. */
  lemma StaleUnit(h: string, g: string)
    requires |h| == |g| == 4 && forall i | 0 <= i < 4 :: Hex(h[i])
    requires (forall i | 0 <= i < 4 :: PlainByte(g[i])) && forall uc :: ScanHex(g + "\"", uc) == uc
    ensures var u := CodeUnit(h);
            Reads(ParseString("\"" + ("\\u" + (h + ("\\u" + (g + "\""))))), CString(Utf8(u) + Utf8(Shifted(u).u)), "")
  {
    var tail := "\\u" + (g + "\"");
    var u := CodeUnit(h);
    var v := Shifted(u).u;
    ScanUnit(h, tail, Open);
    UnitDecode(h, tail, Open);
    UnitDecode(g, "\"", Shifted(u));
    CloseQuote(Shifted(v));
    assert Utf8(v) + "" == Utf8(v);
    TwoUnitsCount(h, g);
    FromPasses("\\u" + (h + tail), Utf8(u) + Utf8(v));
  }

  lemma CloseQuote(uc: Register)
    ensures Reads(Decode("\"", uc), "", "")
  {
    assert "\""[1..] == "";
  }

  lemma TwoUnitsCount(h: string, g: string)
    requires |h| == |g| == 4 && forall i | 0 <= i < 4 :: PlainByte(h[i]) && PlainByte(g[i])
    ensures var r := Count("\\u" + (h + ("\\u" + (g + "\"")))); r.Done? && r.value == 10
  {
    var tail := "\\u" + (g + "\"");
    PairCount('u', h + tail);
    PlainCount(h, tail);
    PairCount('u', g + "\"");
    PlainCount(g, "\"");
  }

  // ---- examples ----

  /** Cut: a backslash at the end, an escape that ends too soon, one without a digit, one with a prefix only. */
  lemma CutExamples()
    ensures CutHere("\\") && CutHere("\\u12\"") && CutHere("\\uzzzz\"") && CutHere("\\u0xzz\"")
  {
    CutAtOnce("\\");
    CutAtOnce("\\u12\"");
    NoDigits();
    NoDigitBehindPrefix();
  }

  ghost predicate CutHere(s: string) { ParseString("\"" + s).Malformed? }

  lemma CutAtOnce(tail: string)
    requires Cuts.CutEscape(tail, false)
    ensures CutHere(tail)
  {
    assert ("\"" + tail)[1..] == tail;
    CountNeverFails(tail);
  }

  lemma NoDigits()
    ensures CutHere("\\uzzzz\"")
  {
    var t := "\\uzzzz\"";
    assert t[2..][0] == 'z';
    CutAtOnce(t);
  }

  lemma NoDigitBehindPrefix()
    ensures CutHere("\\u0xzz\"")
  {
    var t := "\\u0xzz\"";
    assert t[2..][0] == '0' && t[2..][1] == 'x' && t[2..][2..][0] == 'z';
    CutAtOnce(t);
  }

  /** The unit of `\u800"` takes three bytes; four were counted, so one more byte fits, and two do not. */
  lemma OverrunExample(c: char, d: char)
    requires PlainByte(c) && PlainByte(d)
    ensures ParseString("\"" + ("\\u" + ("800" + ("\"" + "") + ([c] + "\"")))).Done?
    ensures ParseString("\"" + ("\\u" + ("800" + ("\"" + "") + ([c, d] + "\"")))).Malformed?
  {
    assert CodeUnit("800") == 0x800;
    Cuts.Glue("800", "\"" + "", [c] + "\"");
    Cuts.Glue("800", "\"" + "", [c, d] + "\"");
    ScanShort("800", ("\"" + "") + ([c] + "\""), Open);
    ScanShort("800", ("\"" + "") + ([c, d] + "\""), Open);
    QuoteAmongFour("800", "", [c]);
    QuoteAmongFour("800", "", [c, d]);
  }

  /** Not cut: a short code, a prefix, a sign and a blank among the four bytes are all an A ... */
  lemma UnitExamples()
    ensures ReadsAs("\\u" + ("41zz" + "\""), "A") && ReadsAs("\\u" + ("0x41" + "\""), "A")
    ensures ReadsAs("\\u" + ("+041" + "\""), "A") && ReadsAs("\\u" + (" 041" + "\""), "A")
  {
    ShortCode();
    Prefixed();
    Signed();
    Blank();
  }

  ghost predicate ReadsAs(s: string, value: string) { Reads(ParseString("\"" + s), value, "") }

  lemma LetterA()
    ensures CString(Utf8(0x41)) == "A" && CodeUnit("41") == CodeUnit("041") == 0x41
  {
    CStringWithoutNul("A");
  }

  lemma ShortCode()
    ensures ReadsAs("\\u" + ("41zz" + "\""), "A")
  {
    LetterA();
    assert "41" + "zz\"" == "41zz" + "\"";
    ScanShort("41", "zz\"", Open);
    OneUnit("41zz");
  }

  lemma Prefixed()
    ensures ReadsAs("\\u" + ("0x41" + "\""), "A")
  {
    LetterA();
    assert "0x" + ("41" + "\"") == "0x41" + "\"";
    ScanPrefixed("41", "\"", Open);
    OneUnit("0x41");
  }

  lemma Signed()
    ensures ReadsAs("\\u" + ("+041" + "\""), "A")
  {
    LetterA();
    assert "+" + ("041" + "\"") == "+041" + "\"";
    ScanSigned("041", "\"", Open);
    OneUnit("+041");
  }

  lemma Blank()
    ensures ReadsAs("\\u" + (" 041" + "\""), "A")
  {
    LetterA();
    assert " " + ("041" + "\"") == " 041" + "\"";
    ScanBlank("041" + "\"", Open);
    ScanShort("041", "\"", Open);
    OneUnit(" 041");
  }

  /** ... a quote behind two digits ends nothing, a backslash behind them escapes nothing, and an escape without a
      digit repeats the unit before it. */
  lemma PartingExamples()
    ensures ReadsAs("\\u" + ("12" + ("\"" + "x") + ("" + "\"")), "\U{12}")
    ensures ReadsAs("\\u" + ("41" + ['\\', '"'] + ("x" + "\"")), "Ax")
    ensures ReadsAs("\\u" + ("0041" + ("\\u" + ("zzzz" + "\""))), "AA")
  {
    Quoted();
    Escaped();
    Repeated();
  }

  lemma Quoted()
    ensures ReadsAs("\\u" + ("12" + ("\"" + "x") + ("" + "\"")), "\U{12}")
  {
    assert CodeUnit("12") == 0x12;
    Cuts.Glue("12", "\"" + "x", "" + "\"");
    ScanShort("12", ("\"" + "x") + ("" + "\""), Open);
    QuoteAmongFour("12", "x", "");
    assert Utf8(0x12) + "" == "\U{12}";
    CStringWithoutNul("\U{12}");
  }

  lemma Escaped()
    ensures ReadsAs("\\u" + ("41" + ['\\', '"'] + ("x" + "\"")), "Ax")
  {
    LetterA();
    Cuts.Glue("41", ['\\', '"'], "x" + "\"");
    ScanShort("41", ['\\', '"'] + ("x" + "\""), Open);
    BackslashAmongFour("41", '"', "x");
    assert Utf8(0x41) + "x" == "Ax";
    CStringWithoutNul("Ax");
  }

  lemma Repeated()
    ensures ReadsAs("\\u" + ("0041" + ("\\u" + ("zzzz" + "\""))), "AA")
  {
    assert CodeUnit("0041") == 0x41;
    forall uc ensures ScanHex("zzzz" + "\"", uc) == uc {
      assert ("zzzz" + "\"")[0] == 'z';
    }
    StaleUnit("0041", "zzzz");
    assert Utf8(0x41) + Utf8(0x41) == "AA";
    CStringWithoutNul("AA");
  }
}
