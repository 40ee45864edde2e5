/** Where the C code has no definite result: texts that are cut inside an escape or a fraction, and strings whose
    second pass outruns the first. The cuts are read off the text, and off a scan that knows nothing but a stack
    of open brackets. */
module Cuts {
  import opened Json
  import opened NumberText
  import opened StringText
  import opened Parser

  // ---- strings ----

  /** What a pass over a string steps over at once: a byte, a backslash and one byte, or `\u` and four bytes. */
  datatype Piece = Byte(c: char) | Pair(c: char) | CodeBytes(h: string)

  function PieceText(x: Piece): string {
    match x
    case Byte(c) => [c]
    case Pair(c) => ['\\', c]
    case CodeBytes(h) => ['\\', 'u'] + h
  }

  function PiecesText(xs: seq<Piece>): string { if xs == [] then "" else PieceText(xs[0]) + PiecesText(xs[1..]) }

  /** The first pass knows no `\u`. */
  ghost predicate Counted(xs: seq<Piece>) {
    forall i | 0 <= i < |xs| :: !xs[i].CodeBytes? && (xs[i].Byte? ==> PlainByte(xs[i].c))
  }

  ghost predicate WholePiece(x: Piece) {
    match x
    case Byte(c) => PlainByte(c)
    case Pair(c) => c != 'u'
    case CodeBytes(h) => |h| == 4
  }

  ghost predicate Whole(xs: seq<Piece>) { forall i | 0 <= i < |xs| :: WholePiece(xs[i]) }

  ghost predicate HasCode(xs: seq<Piece>) { xs != [] && (xs[0].CodeBytes? || HasCode(xs[1..])) }

  /** A backslash that ends the text; `\u` with less than four bytes behind it; or `\u` from which no code unit is
      determined: `0x` without a digit, a negative number, or no digit at all with no code unit read before. */
  predicate CutEscape(s: string, coded: bool) {
    && s != "" && s[0] == '\\'
    && (|s| == 1 || (s[1] == 'u' && (|s| < 6 || ScanHex(s[2..], if coded then Loaded(0) else Open).Open?)))
  }

  /** The first pass leaves the text. */
  ghost predicate CutInFirst(s: string) { exists xs :: Counted(xs) && s == PiecesText(xs) + "\\" }

  /** Behind whole pieces the second pass meets a cut. */
  ghost predicate CutBehind(s: string, xs: seq<Piece>, tail: string, coded: bool) {
    Whole(xs) && s == PiecesText(xs) + tail && CutEscape(tail, coded || HasCode(xs))
  }

  ghost predicate CutInSecond(s: string) { exists xs, tail :: CutBehind(s, xs, tail, false) }

  /** Both passes end, and the second writes more bytes than the first has counted. */
  predicate Overruns(s: string) {
    Count(s).Done? && Decode(s, Open).Done? && |Decode(s, Open).value| > Count(s).value
  }

  /** The text behind an opening quote is cut before the string ends, or its value does not fit the buffer. */
  ghost predicate CutString(s: string) { CutInFirst(s) || CutInSecond(s) || Overruns(s) }

  /** What `uc` holds does not matter to a cut, only whether it holds anything. */
  lemma ScanOpen(s: string, uc: Register)
    ensures ScanHex(s, uc).Open? <==> ScanHex(s, if uc.Loaded? then Loaded(0) else Open).Open?
  {
  }

  lemma Glue(a: string, b: string, c: string)
    ensures a + (b + c) == a + b + c
  {
  }

  lemma {:induction false} CountCutFound(s: string) returns (xs: seq<Piece>)
    requires Count(s).Malformed?
    ensures Counted(xs) && s == PiecesText(xs) + "\\"
    decreases |s|
  {
    if s == "\\" {
      xs := [];
    } else {
      var x, rest := CountedPiece(s);
      xs := CountCutFound(rest);
      MorePieces(x, xs, "\\");
      xs := [x] + xs;
    }
  }

  /** The first piece the first pass steps over. */
  lemma CountedPiece(s: string) returns (x: Piece, rest: string)
    requires !AtEnd(s) && s != "\\"
    ensures !x.CodeBytes? && (x.Byte? ==> PlainByte(x.c)) && s == PieceText(x) + rest && |rest| < |s|
    ensures Count(s).Malformed? <==> Count(rest).Malformed?
  {
    if s[0] != '\\' {
      x, rest := Byte(s[0]), s[1..];
    } else {
      x, rest := Pair(s[1]), s[2..];
    }
  }

  lemma MorePieces(x: Piece, xs: seq<Piece>, tail: string)
    ensures PiecesText([x] + xs) + tail == PieceText(x) + (PiecesText(xs) + tail)
  {
    assert ([x] + xs)[1..] == xs;
    Glue(PieceText(x), PiecesText(xs), tail);
  }

  lemma {:induction false} CountCutMeans(xs: seq<Piece>)
    requires Counted(xs)
    ensures Count(PiecesText(xs) + "\\").Malformed?
    decreases xs
  {
    if xs != [] {
      CountCutMeans(xs[1..]);
      var s, rest := PiecesText(xs) + "\\", PiecesText(xs[1..]) + "\\";
      Glue(PieceText(xs[0]), PiecesText(xs[1..]), "\\");
      assert s[|PieceText(xs[0])|..] == rest;
    }
  }

  /** The first piece of a text that is neither cut at once nor at its end. */
  lemma FirstPiece(s: string, coded: bool) returns (x: Piece, rest: string)
    requires !AtEnd(s) && !CutEscape(s, coded)
    ensures WholePiece(x) && s == PieceText(x) + rest && rest == s[|PieceText(x)|..]
  {
    x := if s[0] != '\\' then Byte(s[0]) else if s[1] != 'u' then Pair(s[1]) else CodeBytes(s[2..6]);
    rest := s[|PieceText(x)|..];
  }

  /** The second pass steps over a piece: behind it the register holds something if it did before, or the piece
      is a code unit. */
  lemma PieceAhead(x: Piece, rest: string, uc: Register) returns (next: Register)
    requires WholePiece(x)
    ensures next.Loaded? <==> uc.Loaded? || x.CodeBytes?
    ensures Decode(rest, next).Malformed? ==> Decode(PieceText(x) + rest, uc).Malformed?
    ensures Decode(PieceText(x) + rest, uc).Malformed? ==>
              Decode(rest, next).Malformed? || CutEscape(PieceText(x) + rest, uc.Loaded?)
  {
    var s := PieceText(x) + rest;
    assert s[|PieceText(x)|..] == rest;
    next := uc;
    if x.CodeBytes? {
      assert s[0] == '\\' && s[1] == 'u';
      ScanOpen(s[2..], uc);
      var u := ScanHex(s[2..], uc);
      next := if u.Loaded? then Shifted(u.u) else Loaded(0);
    }
  }

  lemma {:induction false} CutFound(s: string, uc: Register) returns (xs: seq<Piece>, tail: string)
    requires Decode(s, uc).Malformed?
    ensures CutBehind(s, xs, tail, uc.Loaded?)
    decreases |s|
  {
    if CutEscape(s, uc.Loaded?) {
      xs, tail := [], s;
    } else {
      var x, rest := FirstPiece(s, uc.Loaded?);
      var next := PieceAhead(x, rest, uc);
      xs, tail := CutFound(rest, next);
      MorePieces(x, xs, tail);
      xs := [x] + xs;
    }
  }

  lemma {:induction false} CutMeans(xs: seq<Piece>, tail: string, uc: Register)
    requires Whole(xs) && CutEscape(tail, uc.Loaded? || HasCode(xs))
    ensures Decode(PiecesText(xs) + tail, uc).Malformed?
    decreases xs
  {
    if xs == [] {
      assert PiecesText(xs) + tail == tail;
      if |tail| >= 6 {
        ScanOpen(tail[2..], uc);
      }
    } else {
      var next := PieceAhead(xs[0], PiecesText(xs[1..]) + tail, uc);
      CutMeans(xs[1..], tail, next);
      Glue(PieceText(xs[0]), PiecesText(xs[1..]), tail);
    }
  }

  lemma FirstCutIff(s: string)
    ensures Count(s).Malformed? <==> CutInFirst(s)
  {
    if Count(s).Malformed? {
      var xs := CountCutFound(s);
    } else if xs :| Counted(xs) && s == PiecesText(xs) + "\\" {
      CountCutMeans(xs);
    }
  }

  lemma SecondCutIff(s: string)
    ensures Decode(s, Open).Malformed? <==> CutInSecond(s)
  {
    if Decode(s, Open).Malformed? {
      var xs, tail := CutFound(s, Open);
    } else if xs, tail :| CutBehind(s, xs, tail, false) {
      CutMeans(xs, tail, Open);
    }
  }

  /** parse_string has no definite result exactly on a text that is cut. */
  lemma StringCutIff(s: string)
    ensures ParseString(s).Malformed? <==> s != "" && s[0] == '"' && CutString(s[1..])
  {
    if s != "" && s[0] == '"' {
      FirstCutIff(s[1..]);
      SecondCutIff(s[1..]);
      CountNeverFails(s[1..]);
      DecodeNeverFails(s[1..], Open);
    }
  }

  /** The buffer can be too small only if one of the four bytes behind some `\u` is a quote, a backslash or a
      control byte. */
  lemma OverrunIsUneven(s: string)
    requires Overruns(s)
    ensures !Even(s)
  {
    if Even(s) {
      PassesAgree(s, Open);
    }
  }

  // ---- numbers ----

  /** What the code reads in front of the `.`: digits, with one more zero in front allowed, or nothing at all. */
  ghost predicate LenientWhole(whole: string) { Digits(whole) && (|whole| >= 2 && whole[0] == '0' ==> whole[1] != '0') }

  /** Sign and digits of the text, and behind them a `.` that ends the text or stands before a byte outside ASCII. */
  ghost predicate CutAtPoint(s: string, minus: bool, whole: string, tail: string) {
    s == (if minus then "-" else "") + (whole + ("." + tail)) && LenientWhole(whole) && !AtFractionByte(tail)
  }

  ghost predicate CutFraction(s: string) { exists minus, whole, tail :: CutAtPoint(s, minus, whole, tail) }

  lemma {:induction false} AccumulateSplits(n: int, s: string) returns (ds: string)
    ensures Digits(ds) && s == ds + Accumulate(n, s).1
    decreases s
  {
    if AtDigit(s) {
      ds := AccumulateSplits(n * 10 + DigitValue(s[0]), s[1..]);
      ds := [s[0]] + ds;
    } else {
      ds := "";
    }
  }

  lemma WholeSplits(s: string) returns (whole: string)
    ensures LenientWhole(whole) && s == whole + ParseWhole(s).1
  {
    var zero := if AtChar(s, '0') then "0" else "";
    var t := if AtChar(s, '0') then s[1..] else s;
    if AtDigit(t) && t[0] != '0' {
      whole := AccumulateSplits(0, t);
      assert whole[0] == t[0];
      whole := zero + whole;
    } else {
      whole := zero;
    }
  }

  lemma {:induction false} AccumulateStops(n: int, ds: string, rest: string)
    requires Digits(ds) && !AtDigit(rest)
    ensures Accumulate(n, ds + rest).1 == rest
    decreases ds
  {
    if ds == "" {
      assert ds + rest == rest;
    } else {
      assert (ds + rest)[1..] == ds[1..] + rest;
      AccumulateStops(n * 10 + DigitValue(ds[0]), ds[1..], rest);
    }
  }

  lemma WholeStops(whole: string, rest: string)
    requires LenientWhole(whole) && !AtDigit(rest)
    ensures ParseWhole(whole + rest).1 == rest
  {
    var s := whole + rest;
    if whole == "" {
      assert s == rest;
    } else if whole[0] == '0' {
      assert s[1..] == whole[1..] + rest;
      AccumulateStops(0, whole[1..], rest);
      if |whole| == 1 {
        assert s[1..] == rest;
      }
    } else {
      AccumulateStops(0, whole, rest);
    }
  }

  /** parse_number has no definite result exactly on a text that is cut behind its `.`. */
  lemma NumberCutIff(s: string)
    ensures ReadNumber(s).Malformed? <==> CutFraction(s)
  {
    if ReadNumber(s).Malformed? {
      var minus, whole, tail := PointSeen(s);
    } else if minus, whole, tail :| CutAtPoint(s, minus, whole, tail) {
      PointReached(s, minus, whole, tail);
    }
  }

  lemma PointSeen(s: string) returns (minus: bool, whole: string, tail: string)
    requires ReadNumber(s).Malformed?
    ensures CutAtPoint(s, minus, whole, tail)
  {
    minus := AtChar(s, '-');
    var body := if minus then s[1..] else s;
    whole := WholeSplits(body);
    tail := ParseWhole(body).1[1..];
    SignAhead(s, minus, body);
    assert ParseWhole(body).1 == "." + tail;
  }

  lemma SignAhead(s: string, minus: bool, body: string)
    requires minus == AtChar(s, '-') && body == if minus then s[1..] else s
    ensures s == (if minus then "-" else "") + body
  {
  }

  lemma PointReached(s: string, minus: bool, whole: string, tail: string)
    requires CutAtPoint(s, minus, whole, tail)
    ensures ReadNumber(s).Malformed?
  {
    var body := whole + ("." + tail);
    assert body[0] == if whole == "" then '.' else whole[0];
    assert "" + body == body;
    WholeStops(whole, "." + tail);
    assert ("." + tail)[1..] == tail;
  }

  // ---- whole texts ----

  datatype Frame = InArray | InObject

  function Opening(s: string): char { if s == "" then '\0' else s[0] }

  /** A value is due: does the scan meet a cut from here on? The scan goes from token to token, and the stack
      holds the brackets that are open, the innermost first. */
  ghost predicate ValueDue(stack: seq<Frame>, s: string)
    decreases |s|, 0
  {
    var t := Skip(s);
    if "null" <= t then CommaDue(stack, t[4..])
    else if "false" <= t then CommaDue(stack, t[5..])
    else if "true" <= t then CommaDue(stack, t[4..])
    else if Opening(t) == '"' then CutString(t[1..]) || (ParseString(t).Done? && CommaDue(stack, ParseString(t).rest))
    else if Opening(t) == '-' || AtDigit(t) then
      CutFraction(t) || (ReadNumber(t).Done? && CommaDue(stack, ReadNumber(t).rest))
    else if Opening(t) == '[' then
      var u := Skip(t[1..]);
      if Opening(u) == ']' then CommaDue(stack, u[1..]) else ValueDue([InArray] + stack, u)
    else if Opening(t) == '{' then
      var u := Skip(t[1..]);
      if Opening(u) == '}' then CommaDue(stack, u[1..]) else KeyDue([InObject] + stack, u)
    else false
  }

  /** A comma or the closing bracket is due; behind the outermost value the scan is over. */
  ghost predicate CommaDue(stack: seq<Frame>, s: string)
    decreases |s|, 0
  {
    if stack == [] then false else
    var t := Skip(s);
    if Opening(t) == ',' then (if stack[0].InArray? then ValueDue(stack, t[1..]) else KeyDue(stack, t[1..]))
    else if Opening(t) == (if stack[0].InArray? then ']' else '}') then CommaDue(stack[1..], t[1..])
    else false
  }

  /** A key and its colon are due. */
  ghost predicate KeyDue(stack: seq<Frame>, s: string)
    decreases |s|, 0
  {
    var t := Skip(s);
    if Opening(t) != '"' then false
    else if CutString(t[1..]) then true
    else
      ParseString(t).Done? &&
      var u := Skip(ParseString(t).rest);
      Opening(u) == ':' && ValueDue(stack, u[1..])
  }

  /** What the scan makes of the parse of one piece of the text. */
  ghost predicate MeetsCut<T>(p: Parsed<T>, stack: seq<Frame>) { p.Malformed? || (p.Done? && CommaDue(stack, p.rest)) }

  /** The recursive parser and the scan with its stack meet the same cuts. */
  lemma {:induction false} ValueCut(stack: seq<Frame>, s: string)
    ensures ValueDue(stack, s) <==> MeetsCut(ParseValue(Skip(s)), stack)
    decreases |s|, 1
  {
    var t := Skip(s);
    if "null" <= t || "false" <= t || "true" <= t || t == "" {
    } else if t[0] == '"' {
      StringCutIff(t);
    } else if t[0] == '-' || Digit(t[0]) {
      NumberCutIff(t);
    } else if t[0] == '[' {
      var u := Skip(t[1..]);
      if Opening(u) != ']' {
        ElementsCut(stack, u);
      }
    } else if t[0] == '{' {
      var u := Skip(t[1..]);
      if Opening(u) != '}' {
        MembersCut(stack, u);
      }
    }
  }

  lemma {:induction false} ElementsCut(stack: seq<Frame>, s: string)
    ensures ValueDue([InArray] + stack, s) <==> MeetsCut(ParseElements(s), stack)
    decreases |s|, 2
  {
    var all := [InArray] + stack;
    ValueCut(all, s);
    var value := ParseValue(Skip(s));
    if value.Done? {
      assert all[1..] == stack;
      var t := Skip(value.rest);
      if Opening(t) == ',' {
        ElementsCut(stack, t[1..]);
      }
    }
  }

  lemma {:induction false} MembersCut(stack: seq<Frame>, s: string)
    ensures KeyDue([InObject] + stack, s) <==> MeetsCut(ParseMembers(s), stack)
    decreases |s|, 3
  {
    var all := [InObject] + stack;
    MemberCut(all, s);
    var member := ParseMember(s);
    if member.Done? {
      assert all[1..] == stack;
      var t := Skip(member.rest);
      if Opening(t) == ',' {
        MembersCut(stack, t[1..]);
      }
    }
  }

  lemma {:induction false} MemberCut(stack: seq<Frame>, s: string)
    ensures KeyDue(stack, s) <==> MeetsCut(ParseMember(s), stack)
    decreases |s|, 2
  {
    var t := Skip(s);
    StringCutIff(t);
    var name := ParseString(t);
    if name.Done? {
      var u := Skip(name.rest);
      if Opening(u) == ':' {
        ValueCut(stack, u[1..]);
      }
    }
  }

  /** cJSON_Parse has no definite result exactly on a text on which the scan meets a cut. */
  lemma ParseCutIff(s: string)
    ensures Parse(s).Malformed? <==> ValueDue([], s)
  {
    ValueCut([], s);
  }

  /** Numbers that end in a point are cut; a fraction that is no number is not: `1.x` has the digits 1 and 'x' - '0'. */
  lemma NumberExamples()
    ensures ReadNumber("1.").Malformed? && ReadNumber("-.").Malformed?
    ensures Reads(ReadNumber("1.x"), Parts(false, 82, -1), "")
  {
    PointReached("1.", false, "1", "");
    PointReached("-.", true, "", "");
    OddFraction();
  }

  lemma OddFraction()
    ensures Reads(ReadNumber("1.x"), Parts(false, 82, -1), "")
  {
    var t := ".x";
    assert t[2..] == "" && "1.x"[1..] == t;
    assert ParseWhole("1.x") == (1, t);
    assert ParseFraction(1, t) == (82, -1, "");
  }
}
