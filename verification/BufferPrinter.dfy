/** print_string_ptr, print_value, print_array and print_object: the buffers they allocate and fill. */
module BufferPrinter {
  import opened Sequences
  import opened Json
  import opened NumberText
  import opened StringText
  import opened Memory
  import opened Heaps
  import opened Trees
  import opened HeapTrees
  import P = Printer

  /** A char buffer that holds a C string. */
  ghost predicate HoldsText(out: array<char>, text: string)
    reads out
  {
    |text| < out.Length && out[..|text|] == text && out[|text|] == '\0' && NulFree(text)
  }

  ghost predicate NulFree(s: string) { forall i | 0 <= i < |s| :: s[i] != '\0' }

  // ---- writing ----

  /** `*ptr++ = c` */
  method Put(out: array<char>, p: nat, c: char) returns (q: nat)
    requires p < out.Length
    modifies out
    ensures q == p + 1 && out[..q] == old(out[..p]) + [c]
  {
    out[p] := c;
    q := p + 1;
  }

  /** `strcpy(ptr, src); ptr += strlen(src)` */
  method Copy(out: array<char>, p: nat, src: array<char>, ghost text: string) returns (q: nat)
    requires out != src && HoldsText(src, text) && p + |text| < out.Length
    modifies out
    ensures q == p + |text| && out[..q] == old(out[..p]) + text
  {
    var i := 0;
    assert forall k | 0 <= k < |text| :: src[k] == src[..|text|][k] == text[k];
    while src[i] != '\0'
      invariant i <= |text| && out[..p + i] == old(out[..p]) + text[..i]
      decreases |text| - i
    {
      out[p + i] := src[i];
      assert out[..p + i + 1] == out[..p + i] + [text[i]] && text[..i + 1] == text[..i] + [text[i]];
      i := i + 1;
    }
    assert text[..i] == text;
    q := p + i;
    out[q] := '\0';
  }

  // ---- strings ----

  /** The length that the first loop of print_string_ptr adds up. */
  function Measured(s: string): nat {
    if s == "" then 0 else (if EscapeLetter(s[0]).Plain? then 1 else 2) + Measured(s[1..])
  }

  /** The bytes that are measured but not printed. */
  function Dropped(s: string): nat {
    if s == "" then 0 else (if EscapeLetter(s[0]).Drop? then 1 else 0) + Dropped(s[1..])
  }

  /** The buffer is large enough; every dropped byte leaves two bytes of it unused. */
  lemma {:induction false} MeasureFits(s: string)
    ensures Measured(s) == |EscapeAll(s)| + 2 * Dropped(s)
  {
    if s == "" {
    } else {
      MeasureFits(s[1..]);
    }
  }

  lemma {:induction false} EscapedNulFree(s: string)
    ensures NulFree(EscapeAll(s))
  {
    if s == "" {
    } else {
      EscapedNulFree(s[1..]);
    }
  }

  /** The text so far, followed by what is still to be written, is the whole text. */
  ghost predicate Writing(out: array<char>, p: nat, remaining: string, whole: string)
    reads out
  {
    p <= out.Length && out[..p] + remaining == whole
  }

  lemma WriteOn(before: string, piece: string, remaining: string, whole: string)
    requires before + (piece + remaining) == whole
    ensures before + piece + remaining == whole
  {
    assert before + piece + remaining == before + (piece + remaining);
  }

  /** One byte of a string: copied, escaped, or dropped (the backslash is taken back). */
  method WriteEscaped(out: array<char>, p: nat, c: char) returns (q: nat)
    requires p + (if EscapeLetter(c).Plain? then 1 else 2) <= out.Length
    modifies out
    ensures q == p + |EscapeChar(c)| && out[..q] == old(out[..p]) + EscapeChar(c)
  {
    var e := EscapeLetter(c);
    if e.Plain? {
      q := Put(out, p, c);
    } else {
      q := Put(out, p, '\\');
      match e {
        case Letter(l) =>
          q := Put(out, q, l);
          assert old(out[..p]) + ['\\'] + [l] == old(out[..p]) + ['\\', l];
        case Drop =>
          q := q - 1;
          assert out[..q] == out[..q + 1][..q] == old(out[..p]) + "";
      }
    }
  }

  method MeasureString(s: string) returns (len: nat)
    ensures len == Measured(s)
  {
    var i := 0;
    len := 0;
    while i < |s|
      invariant i <= |s| && len + Measured(s[i..]) == Measured(s)
    {
      assert s[i..][0] == s[i] && s[i..][1..] == s[i + 1..];
      len := len + 1;
      if s[i] < ' ' || s[i] == '"' || s[i] == '\\' {
        len := len + 1;
      }
      i := i + 1;
    }
  }

  /** print_string_ptr: `len + 3` bytes, of which two are left unused for every byte dropped. */
  method PrintStringPtr(s: string) returns (out: array<char>)
    requires NulFree(s)
    ensures fresh(out) && HoldsText(out, PrintString(s)) && out.Length == |PrintString(s)| + 1 + 2 * Dropped(s)
  {
    MeasureFits(s);
    EscapedNulFree(s);
    var len := MeasureString(s);
    out := new char[len + 3];
    var p: nat := Put(out, 0, '"');
    var i := 0;
    assert s[0..] == s && out[..1] == "\"";
    while i < |s|
      invariant i <= |s| && Writing(out, p, EscapeAll(s[i..]) + "\"", PrintString(s))
      invariant p + Measured(s[i..]) + 2 <= out.Length
    {
      ghost var before := out[..p];
      assert s[i..][0] == s[i] && s[i..][1..] == s[i + 1..];
      p := WriteEscaped(out, p, s[i]);
      assert EscapeAll(s[i..]) + "\"" == EscapeChar(s[i]) + (EscapeAll(s[i + 1..]) + "\"");
      WriteOn(before, EscapeChar(s[i]), EscapeAll(s[i + 1..]) + "\"", PrintString(s));
      i := i + 1;
    }
    assert EscapeAll(s[i..]) + "\"" == "\"";
    p := Put(out, p, '"');
    ghost var text := out[..p];
    out[p] := '\0';
    assert out[..p] == text;
  }

  // ---- print_array, given the printed entries ----

  ghost predicate Entries(entries: seq<array<char>>, texts: seq<string>)
    reads entries
  {
    |entries| == |texts| && forall i | 0 <= i < |entries| :: HoldsText(entries[i], texts[i])
  }

  function ArrayText(texts: seq<string>, fmt: bool): string { "[" + (Join(texts, P.Comma(fmt)) + "]") }

  /** `strlen(ret) + 2 + (fmt ? 1 : 0)`, summed up over the entries. */
  function EntriesLength(texts: seq<string>, fmt: bool): nat {
    if texts == [] then 0 else |texts[0]| + 2 + (if fmt then 1 else 0) + EntriesLength(texts[1..], fmt)
  }

  /** What is left unused of the buffer of an array: two bytes, or three and one or two per entry. */
  function ArraySlack(n: nat, fmt: bool): nat { if n == 0 then 2 else n + 3 + (if fmt then 1 else 0) }

  lemma {:induction false} ArrayFits(texts: seq<string>, fmt: bool)
    ensures 5 + EntriesLength(texts, fmt) == |ArrayText(texts, fmt)| + 1 + ArraySlack(|texts|, fmt)
  {
    if |texts| > 1 {
      ArrayFits(texts[1..], fmt);
    }
  }

  /** The piece of the text that one turn of the loop writes. */
  function Piece(texts: seq<string>, i: nat, fmt: bool): string
    requires i < |texts|
  {
    texts[i] + if i == |texts| - 1 then "" else P.Comma(fmt)
  }

  lemma JoinStep(texts: seq<string>, i: nat, fmt: bool)
    requires i < |texts|
    ensures Join(texts[i..], P.Comma(fmt)) + "]" == Piece(texts, i, fmt) + (Join(texts[i + 1..], P.Comma(fmt)) + "]")
  {
    assert texts[i..][0] == texts[i] && texts[i..][1..] == texts[i + 1..];
    if i == |texts| - 1 {
      assert texts[i] + "" == texts[i];
    } else {
      Regroup(texts[i], P.Comma(fmt), Join(texts[i + 1..], P.Comma(fmt)), "]");
    }
  }

  lemma Regroup(a: string, b: string, c: string, d: string)
    ensures a + (b + c) + d == a + b + (c + d)
  {
  }

  /** The composition of the output: every write lies inside the buffer. */
  method ComposeArray(entries: seq<array<char>>, len: nat, fmt: bool, ghost texts: seq<string>)
    returns (out: array<char>)
    requires Entries(entries, texts) && len == 5 + EntriesLength(texts, fmt) && forall t <- texts :: NulFree(t)
    ensures fresh(out) && out.Length == len && HoldsText(out, ArrayText(texts, fmt))
  {
    ghost var whole := ArrayText(texts, fmt);
    ArrayFits(texts, fmt);
    JoinNulFree(texts, fmt);
    out := new char[len];
    var p: nat := Put(out, 0, '[');
    out[p] := '\0';
    assert out[..1] == "[" && texts[0..] == texts;
    for i := 0 to |entries|
      invariant Entries(entries, texts) && out !in entries
      invariant Writing(out, p, Join(texts[i..], P.Comma(fmt)) + "]", whole)
    {
      JoinStep(texts, i, fmt);
      p := WriteEntry(out, p, entries[i], i == |entries| - 1, fmt, texts, i, whole);
    }
    assert texts[|entries|..] == [];
    assert "" + "]" == "]";
    p := Put(out, p, ']');
    ghost var text := out[..p];
    out[p] := '\0';
    assert out[..p] == text == whole;
  }

  /** One entry and, unless it is the last, a comma. */
  method WriteEntry(out: array<char>, p: nat, entry: array<char>, last: bool, fmt: bool,
                    ghost texts: seq<string>, ghost i: nat, ghost whole: string) returns (q: nat)
    requires out != entry && i < |texts| && HoldsText(entry, texts[i]) && last == (i == |texts| - 1)
    requires |whole| < out.Length
    requires Writing(out, p, Piece(texts, i, fmt) + (Join(texts[i + 1..], P.Comma(fmt)) + "]"), whole)
    modifies out
    ensures Writing(out, q, Join(texts[i + 1..], P.Comma(fmt)) + "]", whole)
  {
    ghost var before := out[..p];
    q := Copy(out, p, entry, texts[i]);
    if !last {
      q := Put(out, q, ',');
      if fmt {
        q := Put(out, q, ' ');
      }
      out[q] := '\0';
    }
    assert out[..q] == before + Piece(texts, i, fmt);
    WriteOn(before, Piece(texts, i, fmt), Join(texts[i + 1..], P.Comma(fmt)) + "]", whole);
  }

  lemma {:induction false} JoinNulFree(texts: seq<string>, fmt: bool)
    requires forall t <- texts :: NulFree(t)
    ensures NulFree(Join(texts, P.Comma(fmt))) && NulFree(ArrayText(texts, fmt))
  {
    if |texts| > 1 {
      assert texts[0] in texts && forall t <- texts[1..] :: t in texts;
      JoinNulFree(texts[1..], fmt);
    }
  }

  // ---- print_object, given the printed names and entries; `depth` counts from the members ----

  function ColonGap(fmt: bool): string { if fmt then "\t" else "" }

  function LinePiece(names: seq<string>, texts: seq<string>, i: nat, depth: nat, fmt: bool): string
    requires i < |names| == |texts|
  {
    P.Indent(depth, fmt) + (names[i] + (":" + (ColonGap(fmt) + texts[i])))
    + ((if i == |names| - 1 then "" else ",") + P.Newline(fmt))
  }

  /** The lines from the i-th on. */
  function Lines(names: seq<string>, texts: seq<string>, i: nat, depth: nat, fmt: bool): string
    requires i <= |names| == |texts|
    decreases |names| - i
  {
    if i == |names| then "" else LinePiece(names, texts, i, depth, fmt) + Lines(names, texts, i + 1, depth, fmt)
  }

  function Closing(depth: nat, fmt: bool): string
    requires depth > 0
  {
    P.Indent(depth - 1, fmt) + "}"
  }

  function ObjectText(names: seq<string>, texts: seq<string>, depth: nat, fmt: bool): string
    requires |names| == |texts| && depth > 0
  {
    "{" + (P.Newline(fmt) + (Lines(names, texts, 0, depth, fmt) + Closing(depth, fmt)))
  }

  /** `strlen(ret) + strlen(str) + 2 + (fmt ? 2 + depth : 0)`, summed up from the i-th member on. */
  function MembersLength(names: seq<string>, texts: seq<string>, i: nat, depth: nat, fmt: bool): nat
    requires i <= |names| == |texts|
    decreases |names| - i
  {
    if i == |names| then 0
    else |texts[i]| + |names[i]| + 2 + (if fmt then 2 + depth else 0) + MembersLength(names, texts, i + 1, depth, fmt)
  }

  /** What is left unused of the buffer of an object: five bytes, or four if it is empty. */
  function ObjectSlack(n: nat): nat { if n == 0 then 4 else 5 }

  lemma {:induction false} TabsLength(n: nat)
    ensures |P.Tabs(n)| == n && NulFree(P.Tabs(n))
  {
    if n == 0 {
    } else {
      TabsLength(n - 1);
    }
  }

  lemma {:induction false} LinesFit(names: seq<string>, texts: seq<string>, i: nat, depth: nat, fmt: bool)
    requires i <= |names| == |texts|
    ensures MembersLength(names, texts, i, depth, fmt)
         == |Lines(names, texts, i, depth, fmt)| + if i < |names| then 1 else 0
    decreases |names| - i
  {
    if i < |names| {
      TabsLength(depth);
      LinesFit(names, texts, i + 1, depth, fmt);
    }
  }

  lemma ObjectFits(names: seq<string>, texts: seq<string>, depth: nat, fmt: bool)
    requires |names| == |texts| && depth > 0
    ensures 7 + (if fmt then depth else 0) + MembersLength(names, texts, 0, depth, fmt)
         == |ObjectText(names, texts, depth, fmt)| + 1 + ObjectSlack(|names|)
  {
    LinesFit(names, texts, 0, depth, fmt);
    TabsLength(depth - 1);
  }

  /** The composition of the output. */
  method ComposeObject(keys: seq<array<char>>, entries: seq<array<char>>, len: nat, depth: nat, fmt: bool,
                       ghost names: seq<string>, ghost texts: seq<string>) returns (out: array<char>)
    requires Entries(keys, names) && Entries(entries, texts) && |names| == |texts| && depth > 0
    requires (forall t <- texts :: NulFree(t)) && (forall t <- names :: NulFree(t))
    requires len == 7 + (if fmt then depth else 0) + MembersLength(names, texts, 0, depth, fmt)
    ensures fresh(out) && out.Length == len && HoldsText(out, ObjectText(names, texts, depth, fmt))
  {
    ghost var whole := ObjectText(names, texts, depth, fmt);
    ObjectFits(names, texts, depth, fmt);
    ObjectNulFree(names, texts, depth, fmt);
    out := new char[len];
    var p: nat := OpenObject(out, fmt, Lines(names, texts, 0, depth, fmt) + Closing(depth, fmt), whole);
    for i := 0 to |entries|
      invariant Entries(keys, names) && Entries(entries, texts) && out !in entries && out !in keys
      invariant Writing(out, p, Lines(names, texts, i, depth, fmt) + Closing(depth, fmt), whole)
    {
      LineStep(names, texts, i, depth, fmt);
      p := WriteLine(out, p, keys[i], entries[i], i == |entries| - 1, depth, fmt, names, texts, i, whole);
    }
    p := CloseObject(out, p, depth, fmt, whole);
  }

  method OpenObject(out: array<char>, fmt: bool, ghost rest: string, ghost whole: string) returns (p: nat)
    requires whole == "{" + (P.Newline(fmt) + rest) && |whole| < out.Length
    modifies out
    ensures Writing(out, p, rest, whole)
  {
    p := Put(out, 0, '{');
    assert out[..1] == "{";
    if fmt {
      p := Put(out, p, '\n');
    }
    assert out[..p] == "{" + P.Newline(fmt);
    out[p] := '\0';
    WriteOn("{", P.Newline(fmt), rest, whole);
  }

  lemma LineStep(names: seq<string>, texts: seq<string>, i: nat, depth: nat, fmt: bool)
    requires i < |names| == |texts| && depth > 0
    ensures Lines(names, texts, i, depth, fmt) + Closing(depth, fmt)
         == LinePiece(names, texts, i, depth, fmt) + (Lines(names, texts, i + 1, depth, fmt) + Closing(depth, fmt))
  {
  }

  /** Tabs, name, colon, value, comma, newline. */
  method WriteLine(out: array<char>, p: nat, key: array<char>, entry: array<char>, last: bool, depth: nat, fmt: bool,
                   ghost names: seq<string>, ghost texts: seq<string>, ghost i: nat, ghost whole: string)
    returns (q: nat)
    requires out != entry && out != key && i < |names| == |texts| && HoldsText(key, names[i])
    requires HoldsText(entry, texts[i])
    requires last == (i == |names| - 1) && |whole| < out.Length && depth > 0
    requires var rest := Lines(names, texts, i + 1, depth, fmt) + Closing(depth, fmt);
             Writing(out, p, LinePiece(names, texts, i, depth, fmt) + rest, whole)
    modifies out
    ensures Writing(out, q, Lines(names, texts, i + 1, depth, fmt) + Closing(depth, fmt), whole)
  {
    ghost var before, rest := out[..p], Lines(names, texts, i + 1, depth, fmt) + Closing(depth, fmt);
    ghost var n1, t1 := names[i], texts[i];
    ghost var sep := if last then "" else ",";
    TabsLength(depth);
    q := WriteTabs(out, p, if fmt then depth else 0);
    ghost var s1 := out[..q];
    q := Copy(out, q, key, n1);
    q := Put(out, q, ':');
    ghost var s2 := out[..q];
    q := WriteIf(out, q, fmt, '\t');
    q := Copy(out, q, entry, t1);
    ghost var s3 := out[..q];
    q := WriteIf(out, q, !last, ',');
    q := WriteIf(out, q, fmt, '\n');
    out[q] := '\0';
    LineWritten(before, P.Indent(depth, fmt), n1, ColonGap(fmt), t1, sep, P.Newline(fmt), s1, s2, s3, out[..q]);
    WriteOn(before, LinePiece(names, texts, i, depth, fmt), rest, whole);
  }

  lemma LineWritten(before: string, indent: string, name: string, gap: string, text: string, sep: string,
                    newline: string,
                    s1: string, s2: string, s3: string, s4: string)
    requires s1 == before + indent && s2 == s1 + name + ":" && s3 == s2 + gap + text && s4 == s3 + sep + newline
    ensures s4 == before + (indent + (name + (":" + (gap + text))) + (sep + newline))
  {
  }

  method WriteIf(out: array<char>, p: nat, cond: bool, c: char) returns (q: nat)
    requires cond ==> p < out.Length
    requires p <= out.Length
    modifies out
    ensures q <= out.Length && out[..q] == old(out[..p]) + if cond then [c] else ""
  {
    q := p;
    if cond {
      q := Put(out, p, c);
    }
  }

  method WriteTabs(out: array<char>, p: nat, n: nat) returns (q: nat)
    requires p + n <= out.Length
    modifies out
    ensures q == p + n && out[..q] == old(out[..p]) + P.Tabs(n)
  {
    q := p;
    for j := 0 to n
      invariant q == p + j && out[..q] == old(out[..p]) + P.Tabs(j)
    {
      TabsSnoc(j);
      q := Put(out, q, '\t');
    }
  }

  lemma {:induction false} TabsSnoc(n: nat)
    ensures P.Tabs(n) + "\t" == P.Tabs(n + 1)
  {
    if n == 0 {
    } else {
      TabsSnoc(n - 1);
      assert P.Tabs(n) + "\t" == "\t" + (P.Tabs(n - 1) + "\t");
    }
  }

  method CloseObject(out: array<char>, p: nat, depth: nat, fmt: bool, ghost whole: string) returns (q: nat)
    requires depth > 0 && |whole| < out.Length && Writing(out, p, "" + Closing(depth, fmt), whole) && NulFree(whole)
    modifies out
    ensures HoldsText(out, whole)
  {
    TabsLength(depth - 1);
    ghost var before := out[..p];
    q := WriteTabs(out, p, if fmt then depth - 1 else 0);
    q := Put(out, q, '}');
    ClosingDone(before, out[..q], depth, fmt, whole);
    EndText(out, q, whole);
  }

  lemma ClosingDone(before: string, text: string, depth: nat, fmt: bool, whole: string)
    requires depth > 0 && whole == before + ("" + Closing(depth, fmt))
    requires text == before + P.Indent(depth - 1, fmt) + "}"
    ensures text == whole
  {
    assert "" + Closing(depth, fmt) == Closing(depth, fmt);
    assert before + P.Indent(depth - 1, fmt) + "}" == before + (P.Indent(depth - 1, fmt) + "}");
  }

  /** The terminating NUL. */
  method EndText(out: array<char>, q: nat, ghost whole: string)
    requires q < out.Length && out[..q] == whole && NulFree(whole)
    modifies out
    ensures HoldsText(out, whole)
  {
    out[q] := '\0';
  }

  lemma {:induction false} LinesNulFree(names: seq<string>, texts: seq<string>, i: nat, depth: nat, fmt: bool)
    requires i <= |names| == |texts| && (forall t <- texts :: NulFree(t)) && (forall t <- names :: NulFree(t))
    ensures NulFree(Lines(names, texts, i, depth, fmt))
    decreases |names| - i
  {
    if i < |names| {
      PieceNulFree(names, texts, i, depth, fmt);
      LinesNulFree(names, texts, i + 1, depth, fmt);
    }
  }

  lemma PieceNulFree(names: seq<string>, texts: seq<string>, i: nat, depth: nat, fmt: bool)
    requires i < |names| == |texts| && (forall t <- texts :: NulFree(t)) && (forall t <- names :: NulFree(t))
    ensures NulFree(LinePiece(names, texts, i, depth, fmt))
  {
    TabsLength(depth);
    assert NulFree(names[i]) && NulFree(texts[i]);
    var sep := if i == |names| - 1 then "" else ",";
    NulFreePieces(P.Indent(depth, fmt), names[i], ColonGap(fmt), texts[i], sep, P.Newline(fmt));
  }

  lemma NulFreePieces(indent: string, name: string, gap: string, text: string, sep: string, newline: string)
    requires NulFree(indent) && NulFree(name) && NulFree(gap) && NulFree(text) && NulFree(sep) && NulFree(newline)
    ensures NulFree(indent + (name + (":" + (gap + text))) + (sep + newline))
  {
  }

  lemma ObjectNulFree(names: seq<string>, texts: seq<string>, depth: nat, fmt: bool)
    requires |names| == |texts| && depth > 0 && (forall t <- texts :: NulFree(t)) && (forall t <- names :: NulFree(t))
    ensures NulFree(ObjectText(names, texts, depth, fmt))
  {
    LinesNulFree(names, texts, 0, depth, fmt);
    ClosingNulFree(depth, fmt);
    NulFreeAround(P.Newline(fmt), Lines(names, texts, 0, depth, fmt), Closing(depth, fmt));
  }

  lemma ClosingNulFree(depth: nat, fmt: bool)
    requires depth > 0
    ensures NulFree(Closing(depth, fmt))
  {
    TabsLength(depth - 1);
  }

  lemma NulFreeAround(nl: string, lines: string, closing: string)
    requires NulFree(nl) && NulFree(lines) && NulFree(closing)
    ensures NulFree("{" + (nl + (lines + closing)))
  {
    assert NulFree(lines + closing);
    assert NulFree(nl + (lines + closing));
  }

  // ---- the texts of a value ----

  function ItemTexts(items: seq<Value>, depth: nat, fmt: bool): (ts: seq<string>)
    requires P.PrintableItems(items)
    ensures |ts| == |items|
    ensures forall i | 0 <= i < |items| :: P.Printable(items[i]) && ts[i] == P.PrintValue(items[i], depth + 1, fmt)
  {
    if items == [] then [] else [P.PrintValue(items[0], depth + 1, fmt)] + ItemTexts(items[1..], depth, fmt)
  }

  function NameTexts(ms: seq<Member>): (ts: seq<string>)
    ensures |ts| == |ms| && forall i | 0 <= i < |ms| :: ts[i] == PrintString(ms[i].name)
  {
    if ms == [] then [] else [PrintString(ms[0].name)] + NameTexts(ms[1..])
  }

  function MemberTexts(ms: seq<Member>, depth: nat, fmt: bool): (ts: seq<string>)
    requires P.PrintableMembers(ms)
    ensures |ts| == |ms|
    ensures forall i | 0 <= i < |ms| :: P.Printable(ms[i].value) && ts[i] == P.PrintValue(ms[i].value, depth, fmt)
  {
    if ms == [] then [] else [P.PrintValue(ms[0].value, depth, fmt)] + MemberTexts(ms[1..], depth, fmt)
  }

  lemma {:induction false} PrintedItems(items: seq<Value>, depth: nat, fmt: bool)
    requires P.PrintableItems(items)
    ensures P.PrintItems(items, depth, fmt) == Join(ItemTexts(items, depth, fmt), P.Comma(fmt))
  {
    if items == [] {
    } else {
      PrintedItems(items[1..], depth, fmt);
      assert ItemTexts(items, depth, fmt)[1..] == ItemTexts(items[1..], depth, fmt);
    }
  }

  lemma {:induction false} PrintedMembers(names: seq<string>, texts: seq<string>, i: nat, ms: seq<Member>, depth: nat,
                                          fmt: bool)
    requires P.PrintableMembers(ms) && i <= |names| == |texts| && names[i..] == NameTexts(ms)
    requires texts[i..] == MemberTexts(ms, depth, fmt)
    ensures P.PrintMembers(ms, depth, fmt) == Lines(names, texts, i, depth, fmt)
    decreases |ms|
  {
    if ms == [] {
    } else {
      assert names[i] == names[i..][0] && texts[i] == texts[i..][0];
      assert names[i + 1..] == names[i..][1..] && texts[i + 1..] == texts[i..][1..];
      PrintedMembers(names, texts, i + 1, ms[1..], depth, fmt);
      Separated(P.MemberLine(ms[0].name, texts[i], depth, fmt), if i == |names| - 1 then "" else ",", P.Newline(fmt),
                Lines(names, texts, i + 1, depth, fmt));
    }
  }

  lemma Separated(line: string, sep: string, newline: string, rest: string)
    ensures line + (sep + newline) + rest == line + (sep + (newline + rest))
  {
  }

  lemma PrintedArray(items: seq<Value>, depth: nat, fmt: bool)
    requires P.PrintableItems(items)
    ensures P.PrintValue(Value.Array(items), depth, fmt) == ArrayText(ItemTexts(items, depth, fmt), fmt)
  {
    PrintedItems(items, depth, fmt);
  }

  lemma PrintedObject(ms: seq<Member>, depth: nat, fmt: bool)
    requires P.PrintableMembers(ms)
    ensures P.PrintValue(Value.Object(ms), depth, fmt)
         == ObjectText(NameTexts(ms), MemberTexts(ms, depth + 1, fmt), depth + 1, fmt)
  {
    var names, texts := NameTexts(ms), MemberTexts(ms, depth + 1, fmt);
    assert names[0..] == names && texts[0..] == texts;
    PrintedMembers(names, texts, 0, ms, depth + 1, fmt);
  }

  /** How many bytes of its buffer a printed value leaves unused, the terminator not counted. */
  function Slack(v: Value, fmt: bool): int {
    match v
    case Number(d) => if Int32Number(d) then 20 - |PrintNumber(d)| else 0
    case String(s) => 2 * Dropped(s)
    case Array(items) => ArraySlack(|items|, fmt)
    case Object(ms) => ObjectSlack(|ms|)
    case _ => 0
  }

  // ---- print_number, print_value ----

  lemma {:induction false} NatTextShort(n: nat, bound: nat, k: nat)
    requires k > 0 && n < bound && bound == Power(k)
    ensures |NatText(n)| <= k && NulFree(NatText(n))
    decreases k
  {
    if n >= 10 {
      NatTextShort(n / 10, Power(k - 1), k - 1);
    }
  }

  function Power(k: nat): nat { if k == 0 then 1 else 10 * Power(k - 1) }

  lemma IntTextShort(n: int)
    requires Int32(n)
    ensures |IntText(n)| <= 11 && NulFree(IntText(n))
  {
    assert Power(4) == 10000 && Power(8) == 100000000 && Power(10) == 10000000000;
    NatTextShort(if n < 0 then -n else n, Power(10), 10);
  }

  /** print_number: 21 bytes for `%d`. */
  method PrintNumberText(d: real) returns (out: array<char>)
    requires Int32Number(d)
    ensures fresh(out) && out.Length == 21 && HoldsText(out, PrintNumber(d))
  {
    var text := IntText(Truncate(d));
    assert Truncate(d) as real == d;
    IntTextShort(Truncate(d));
    out := NewText(text, 21);
  }

  /** cJSON_strdup, and sprintf into a buffer of the given size. */
  method NewText(text: string, size: nat) returns (out: array<char>)
    requires |text| < size && NulFree(text)
    ensures fresh(out) && out.Length == size && HoldsText(out, text)
  {
    out := new char[size](i requires 0 <= i => if i < |text| then text[i] else '\0');
    assert out[..|text|] == text;
  }

  /** The strings of a value are C strings. */
  ghost predicate CStrings(v: Value) {
    match v
    case String(s) => NulFree(s)
    case Array(items) => forall i | 0 <= i < |items| :: CStrings(items[i])
    case Object(ms) => forall i | 0 <= i < |ms| :: NulFree(ms[i].name) && CStrings(ms[i].value)
    case _ => true
  }

  /** What is printed: a node in memory that is the value. */
  ghost predicate Prints(h: Heap, item: Ptr, t: Tree, v: Value)
    reads h
  {
    && item == t.addr && Owns(h.nodes, t) && Is(h.nodes, h.strings, t, v)
    && P.Printable(v) && CStrings(v)
  }

  lemma {:induction false} PrintableItem(items: seq<Value>, i: nat)
    requires P.PrintableItems(items) && i < |items|
    ensures P.Printable(items[i])
  {
    if i == 0 {
    } else {
      PrintableItem(items[1..], i - 1);
    }
  }

  lemma {:induction false} PrintableMember(ms: seq<Member>, i: nat)
    requires P.PrintableMembers(ms) && i < |ms|
    ensures P.Printable(ms[i].value)
  {
    if i == 0 {
    } else {
      PrintableMember(ms[1..], i - 1);
    }
  }

  lemma PrintsKid(h: Heap, item: Ptr, t: Tree, v: Value, i: nat)
    requires Prints(h, item, t, v) && i < |t.kids|
    ensures LinkedAt(h.nodes, t.kids, i) && t.kids[i].addr != Nil && h.nodes[item].child == t.kids[0].addr
    ensures v.Array? ==> |v.items| == |t.kids| && Prints(h, t.kids[i].addr, t.kids[i], v.items[i])
    ensures v.Object? ==> |v.members| == |t.kids| && Prints(h, t.kids[i].addr, t.kids[i], v.members[i].value)
                          && Holds(h.strings, t.kids[i].name, v.members[i].name) && NulFree(v.members[i].name)
                          && h.nodes[t.kids[i].addr].name == t.kids[i].name
  {
    assert LinkedAt(h.nodes, t.kids, i);
    OwnedKid(h.nodes, t.kids, i);
    if v.Array? {
      PrintableItem(v.items, i);
    } else if v.Object? {
      PrintableMember(v.members, i);
    }
  }

  /** print_value: the text of the value, in a buffer with exactly this much to spare. */
  method PrintValue(h: Heap, item: Ptr, depth: nat, fmt: bool, ghost t: Tree, ghost v: Value) returns (out: array<char>)
    requires Prints(h, item, t, v)
    ensures fresh(out) && HoldsText(out, P.PrintValue(v, depth, fmt))
    ensures out.Length == |P.PrintValue(v, depth, fmt)| + 1 + Slack(v, fmt)
    decreases v, 2
  {
    match h.nodes[item].kind {
      case Null => out := NewText("null", 5);
      case False => out := NewText("false", 6);
      case True => out := NewText("true", 5);
      case Number => out := PrintNumberText(h.nodes[item].valuedouble);
      case String => out := PrintStringPtr(h.strings[h.nodes[item].valuestring.id]);
      case Array => out := PrintArray(h, item, depth, fmt, t, v);
      case Object => out := PrintObject(h, item, depth, fmt, t, v);
    }
  }

  /** print_array */
  method PrintArray(h: Heap, item: Ptr, depth: nat, fmt: bool, ghost t: Tree, ghost v: Value) returns (out: array<char>)
    requires Prints(h, item, t, v) && v.Array?
    ensures fresh(out) && HoldsText(out, P.PrintValue(v, depth, fmt))
    ensures out.Length == |P.PrintValue(v, depth, fmt)| + 1 + Slack(v, fmt)
    decreases v, 1
  {
    ghost var texts := ItemTexts(v.items, depth, fmt);
    var entries, len := PrintEntries(h, item, depth, fmt, t, v);
    EntriesNulFree(entries, texts);
    out := ComposeArray(entries, len, fmt, texts);
    PrintedArray(v.items, depth, fmt);
    ArrayFits(texts, fmt);
  }

  lemma EntriesNulFree(entries: seq<array<char>>, texts: seq<string>)
    requires Entries(entries, texts)
    ensures forall t <- texts :: NulFree(t)
  {
    forall t <- texts ensures NulFree(t) {
      var i :| 0 <= i < |texts| && texts[i] == t;
      assert HoldsText(entries[i], texts[i]);
    }
  }

  /** The printed children and the length of the buffer they need. */
  method PrintEntries(h: Heap, item: Ptr, depth: nat, fmt: bool, ghost t: Tree, ghost v: Value)
    returns (entries: seq<array<char>>, len: nat)
    requires Prints(h, item, t, v) && v.Array?
    ensures Entries(entries, ItemTexts(v.items, depth, fmt)) && fresh(entries)
    ensures len == 5 + EntriesLength(ItemTexts(v.items, depth, fmt), fmt)
    decreases v, 0
  {
    ghost var texts := ItemTexts(v.items, depth, fmt);
    var child := h.nodes[item].child;
    entries, len := [], 5;
    ghost var i := 0;
    assert texts[0..] == texts;
    while child != Nil
      invariant i == |entries| <= |t.kids| && child == Top(t.kids, i) && fresh(entries)
      invariant Entries(entries, texts[..i])
      invariant len + EntriesLength(texts[i..], fmt) == 5 + EntriesLength(texts, fmt)
      decreases |t.kids| - i
    {
      PrintsKid(h, item, t, v, i);
      var ret := PrintValue(h, child, depth + 1, fmt, t.kids[i], v.items[i]);
      var n := StrLen(ret, texts[i]);
      assert texts[i..][0] == texts[i] && texts[i..][1..] == texts[i + 1..];
      OneEntryMore(entries, ret, texts, i);
      entries, len := entries + [ret], len + n + 2 + (if fmt then 1 else 0);
      child, i := h.nodes[child].next, i + 1;
    }
    if i < |t.kids| {
      PrintsKid(h, item, t, v, i);
    }
    assert texts[..i] == texts && texts[i..] == [];
  }

  /** strlen */
  method StrLen(src: array<char>, ghost text: string) returns (n: nat)
    requires HoldsText(src, text)
    ensures n == |text|
  {
    n := 0;
    assert forall k | 0 <= k < |text| :: src[k] == src[..|text|][k] == text[k];
    while src[n] != '\0'
      invariant n <= |text|
      decreases |text| - n
    {
      n := n + 1;
    }
  }

  /** print_object */
  method PrintObject(h: Heap, item: Ptr, depth: nat, fmt: bool, ghost t: Tree, ghost v: Value)
    returns (out: array<char>)
    requires Prints(h, item, t, v) && v.Object?
    ensures fresh(out) && HoldsText(out, P.PrintValue(v, depth, fmt))
    ensures out.Length == |P.PrintValue(v, depth, fmt)| + 1 + Slack(v, fmt)
    decreases v, 1
  {
    ghost var names, texts := NameTexts(v.members), MemberTexts(v.members, depth + 1, fmt);
    var keys, entries, len := PrintPairs(h, item, depth + 1, fmt, t, v);
    EntriesNulFree(entries, texts);
    EntriesNulFree(keys, names);
    out := ComposeObject(keys, entries, len, depth + 1, fmt, names, texts);
    PrintedObject(v.members, depth, fmt);
    ObjectFits(names, texts, depth + 1, fmt);
  }

  /** The printed names and children; `depth` has been incremented already. */
  method PrintPairs(h: Heap, item: Ptr, depth: nat, fmt: bool, ghost t: Tree, ghost v: Value)
    returns (keys: seq<array<char>>, entries: seq<array<char>>, len: nat)
    requires Prints(h, item, t, v) && v.Object?
    ensures Entries(keys, NameTexts(v.members)) && Entries(entries, MemberTexts(v.members, depth, fmt))
    ensures len == 7 + (if fmt then depth else 0)
                 + MembersLength(NameTexts(v.members), MemberTexts(v.members, depth, fmt), 0, depth, fmt)
    decreases v, 0
  {
    ghost var names, texts := NameTexts(v.members), MemberTexts(v.members, depth, fmt);
    var child := h.nodes[item].child;
    keys, entries, len := [], [], 7 + if fmt then depth else 0;
    ghost var i := 0;
    while child != Nil
      invariant i == |entries| <= |t.kids| && child == Top(t.kids, i)
      invariant Entries(keys, names[..i]) && Entries(entries, texts[..i])
      invariant len + MembersLength(names, texts, i, depth, fmt)
             == 7 + (if fmt then depth else 0) + MembersLength(names, texts, 0, depth, fmt)
      decreases |t.kids| - i
    {
      PrintsKid(h, item, t, v, i);
      var str, ret, more := PrintPair(h, child, depth, fmt, t.kids[i], v.members[i]);
      OneEntryMore(keys, str, names, i);
      OneEntryMore(entries, ret, texts, i);
      keys, entries, len := keys + [str], entries + [ret], len + more;
      child, i := h.nodes[child].next, i + 1;
    }
    if i < |t.kids| {
      PrintsKid(h, item, t, v, i);
    }
    assert texts[..i] == texts && names[..i] == names;
  }

  /** One member: its printed name and value, and the bytes they need. */
  method PrintPair(h: Heap, child: Ptr, depth: nat, fmt: bool, ghost t: Tree, ghost m: Member)
    returns (str: array<char>, ret: array<char>, more: nat)
    requires Prints(h, child, t, m.value) && Holds(h.strings, h.nodes[child].name, m.name) && NulFree(m.name)
    ensures HoldsText(str, PrintString(m.name)) && HoldsText(ret, P.PrintValue(m.value, depth, fmt))
    ensures more == |P.PrintValue(m.value, depth, fmt)| + |PrintString(m.name)| + 2 + if fmt then 2 + depth else 0
    decreases m, 0
  {
    str := PrintStringPtr(h.strings[h.nodes[child].name.id]);
    ret := PrintValue(h, child, depth, fmt, t, m.value);
    var n := StrLen(ret, P.PrintValue(m.value, depth, fmt));
    var k := StrLen(str, PrintString(m.name));
    more := n + k + 2 + if fmt then 2 + depth else 0;
  }

  lemma OneEntryMore(entries: seq<array<char>>, e: array<char>, texts: seq<string>, i: nat)
    requires i < |texts| && Entries(entries, texts[..i]) && HoldsText(e, texts[i])
    ensures Entries(entries + [e], texts[..i + 1])
  {
    assert texts[..i + 1] == texts[..i] + [texts[i]];
  }

  /** cJSON_Print */
  method Print(h: Heap, item: Ptr, ghost t: Tree, ghost v: Value) returns (out: array<char>)
    requires Prints(h, item, t, v)
    ensures HoldsText(out, P.Print(v))
  {
    out := PrintValue(h, item, 0, true, t, v);
  }

  /** cJSON_PrintUnformatted */
  method PrintUnformatted(h: Heap, item: Ptr, ghost t: Tree, ghost v: Value) returns (out: array<char>)
    requires Prints(h, item, t, v)
    ensures HoldsText(out, P.PrintUnformatted(v))
  {
    out := PrintValue(h, item, 0, false, t, v);
  }
}
