/** Printed trees are RFC 8259 texts, so the parser reads them back. */
module RoundTrip {
  import opened Json
  import opened NumberText
  import opened StringText
  import opened Parser
  import opened Printer
  import opened Grammar

  /** The tree that survives printing: every string and key loses its dropped bytes. */
  function CleanValue(v: Value): Value {
    match v
    case String(s) => String(Clean(s))
    case Array(items) => Array(CleanItems(items))
    case Object(members) => Object(CleanMembers(members))
    case _ => v
  }

  function CleanItems(items: seq<Value>): seq<Value> {
    if items == [] then [] else [CleanValue(items[0])] + CleanItems(items[1..])
  }

  function CleanMembers(members: seq<Member>): seq<Member> {
    if members == [] then [] else
    [Member(Clean(members[0].name), CleanValue(members[0].value))] + CleanMembers(members[1..])
  }

  // ---- the derivation of a printed tree ----

  ghost function Derive(v: Value, depth: nat, fmt: bool): Derivation
    requires Printable(v)
  {
    match v
    case Null => NullText
    case False => FalseText
    case True => TrueText
    case Number(d) => NumberDerivation(PrintedNumber(d))
    case String(s) => StringDerivation(PrintedChars(s))
    case Array(items) => ArrayDerivation("", DeriveItems(items, "", depth, fmt))
    case Object(members) =>
      ObjectDerivation(Newline(fmt) + Indent(depth, fmt), DeriveMembers(members, depth + 1, fmt))
  }

  ghost function DeriveItems(items: seq<Value>, before: string, depth: nat, fmt: bool): seq<Element>
    requires PrintableItems(items)
  {
    if items == [] then [] else
    [Element(before, Derive(items[0], depth + 1, fmt), "")]
    + DeriveItems(items[1..], if fmt then " " else "", depth, fmt)
  }

  /** White space in front of each key and the colon; behind the last value, the line of the brace. */
  ghost function DeriveMembers(members: seq<Member>, depth: nat, fmt: bool): seq<Pair>
    requires PrintableMembers(members) && depth > 0
  {
    if members == [] then [] else
    var after := if |members| == 1 then Newline(fmt) + Indent(depth - 1, fmt) else "";
    [Pair(Newline(fmt) + Indent(depth, fmt), PrintedChars(members[0].name), "",
          Element(if fmt then "\t" else "", Derive(members[0].value, depth, fmt), after))]
    + DeriveMembers(members[1..], depth, fmt)
  }

  lemma {:induction false} TabsWhite(n: nat)
    ensures White(Tabs(n))
  {
    if n == 0 {
    } else {
      TabsWhite(n - 1);
    }
  }

  /** A line break and the indentation behind it are white space of the grammar. */
  lemma WhiteLines(depth: nat, fmt: bool)
    ensures White(Newline(fmt) + Indent(depth, fmt))
    ensures depth > 0 ==> White(Newline(fmt) + Indent(depth - 1, fmt))
  {
    TabsWhite(depth);
    if depth > 0 {
      TabsWhite(depth - 1);
    }
  }

  lemma {:induction false} DeriveValue(v: Value, depth: nat, fmt: bool)
    requires Printable(v)
    ensures var d := Derive(v, depth, fmt);
            && WellFormed(d) && Text(d) == PrintValue(v, depth, fmt) && Denotes(d) == CleanValue(v)
            && d.NumberDerivation? == v.Number?
    decreases v, 0
  {
    match v
    case Number(d) => PrintedNumberLiteral(d);
    case String(s) => PrintedStringLiteral(s);
    case Array(items) =>
      DeriveArray(items, "", depth, fmt);
      assert "" + PrintItems(items, depth, fmt) == PrintItems(items, depth, fmt);
    case Object(members) =>
      DeriveObject(members, depth + 1, fmt);
      WhiteLines(depth, fmt);
      ObjectText(Newline(fmt), PrintMembers(members, depth + 1, fmt), Indent(depth, fmt));
    case _ =>
  }

  lemma ObjectText(nl: string, body: string, indent: string)
    ensures "{" + (nl + (body + indent) + "}") == "{" + (nl + (body + (indent + "}")))
    ensures "{" + (nl + indent + "}") == "{" + (nl + ("" + (indent + "}")))
  {
  }

  lemma {:induction false} DeriveArray(items: seq<Value>, before: string, depth: nat, fmt: bool)
    requires PrintableItems(items) && White(before)
    ensures var es := DeriveItems(items, before, depth, fmt);
            && WellFormedElements(es) && |es| == |items| && ElementsDenote(es) == CleanItems(items)
            && (items != [] ==> ElementsText(es) == before + PrintItems(items, depth, fmt))
    decreases items, 1
  {
    if items == [] {
    } else {
      var es, space := DeriveItems(items, before, depth, fmt), if fmt then " " else "";
      DeriveValue(items[0], depth + 1, fmt);
      DeriveArray(items[1..], space, depth, fmt);
      assert es[1..] == DeriveItems(items[1..], space, depth, fmt);
      if |items| > 1 {
        assert "," + space == Comma(fmt);
        JoinItems(before, PrintValue(items[0], depth + 1, fmt), space, PrintItems(items[1..], depth, fmt));
      }
    }
  }

  lemma JoinItems(before: string, first: string, space: string, more: string)
    ensures before + (first + "") + ("," + (space + more)) == before + (first + (("," + space) + more))
  {
  }

  lemma {:induction false} DeriveObject(members: seq<Member>, depth: nat, fmt: bool)
    requires PrintableMembers(members) && depth > 0
    ensures var ps := DeriveMembers(members, depth, fmt);
            && WellFormedPairs(ps) && |ps| == |members| && PairsDenote(ps) == CleanMembers(members)
            && (members != [] ==>
                  PairsText(ps) == Newline(fmt) + (PrintMembers(members, depth, fmt) + Indent(depth - 1, fmt)))
    decreases members, 1
  {
    if members == [] {
    } else {
      var ps := DeriveMembers(members, depth, fmt);
      var value := PrintValue(members[0].value, depth, fmt);
      DeriveValue(members[0].value, depth, fmt);
      DeriveObject(members[1..], depth, fmt);
      PrintedStringLiteral(members[0].name);
      assert ps[1..] == DeriveMembers(members[1..], depth, fmt);
      WhiteLines(depth, fmt);
      MemberText(ps[0], members[0].name, value, depth, fmt);
      var line := MemberLine(members[0].name, value, depth, fmt);
      if |members| == 1 {
        LastMember(line, Newline(fmt), Indent(depth - 1, fmt));
      } else {
        NextMember(line, Newline(fmt), PrintMembers(members[1..], depth, fmt), Indent(depth - 1, fmt));
      }
    }
  }

  lemma Assoc(a: string, b: string, c: string)
    ensures a + (b + c) == a + b + c
  {
  }

  /** A member in the grammar's bracketing is the printed line and what comes behind the value. */
  lemma MemberText(p: Pair, name: string, value: string, depth: nat, fmt: bool)
    requires p.before == Newline(fmt) + Indent(depth, fmt) && StringLiteralText(p.key) == PrintString(name)
    requires p.after == ""
    requires p.element.before == if fmt then "\t" else ""
    ensures PairAround(p, value) == Newline(fmt) + (MemberLine(name, value, depth, fmt) + p.element.after)
  {
    var nl, ind, key, tab := Newline(fmt), Indent(depth, fmt), PrintString(name), if fmt then "\t" else "";
    var after := p.element.after;
    calc {
      PairAround(p, value);
      (nl + ind) + (key + ("" + (":" + (tab + (value + after)))));
      { Assoc(tab, value, after); Assoc(":", tab + value, after);
          assert "" + (":" + (tab + value) + after) == ":" + (tab + value) + after; }
      (nl + ind) + (key + (":" + (tab + value) + after));
      { Assoc(key, ":" + (tab + value), after); }
      (nl + ind) + (key + (":" + (tab + value)) + after);
      { Assoc(nl, ind, key + (":" + (tab + value)) + after); Assoc(ind, key + (":" + (tab + value)), after); }
      nl + (MemberLine(name, value, depth, fmt) + after);
    }
  }

  lemma LastMember(line: string, nl: string, indent: string)
    ensures nl + (line + (nl + indent)) == nl + (line + ("" + (nl + "")) + indent)
  {
  }

  lemma NextMember(line: string, nl: string, more: string, indent: string)
    ensures nl + (line + "") + ("," + (nl + (more + indent))) == nl + (line + ("," + (nl + more)) + indent)
  {
  }

  // ---- main results ----

  /** Everything print_value writes, compact or indented and at any depth, is an RFC 8259 value. */
  lemma PrintedTextConforms(v: Value, depth: nat, fmt: bool) returns (d: Derivation)
    requires Printable(v)
    ensures WellFormed(d) && Text(d) == PrintValue(v, depth, fmt)
  {
    d := Derive(v, depth, fmt);
    DeriveValue(v, depth, fmt);
  }

  /** Parsing printed text gives the tree back, up to dropped bytes, and stops where the printed
      text stops, whatever comes behind it. */
  lemma ParsePrinted(v: Value, depth: nat, fmt: bool, rest: string)
    requires Printable(v) && (v.Number? ==> EndsNumber(rest))
    ensures Reads(ParseValue(PrintValue(v, depth, fmt) + rest), CleanValue(v), rest)
  {
    DeriveValue(v, depth, fmt);
    ParseValueComplete(Derive(v, depth, fmt), rest);
  }

  /** Both formats of the public functions parse to the same tree. */
  lemma FormatsAgree(v: Value)
    requires Printable(v)
    ensures Reads(Parse(Print(v)), CleanValue(v), "")
    ensures Reads(Parse(PrintUnformatted(v)), CleanValue(v), "")
  {
    ParseWhole(v, true);
    ParseWhole(v, false);
  }

  lemma ParseWhole(v: Value, fmt: bool)
    requires Printable(v)
    ensures Reads(Parse(PrintValue(v, 0, fmt)), CleanValue(v), "")
  {
    ParsePrinted(v, 0, fmt, "");
    DeriveValue(v, 0, fmt);
    TextStart(Derive(v, 0, fmt));
    assert PrintValue(v, 0, fmt) + "" == PrintValue(v, 0, fmt);
  }

  /** Whether no string or key of the tree holds a byte that the printer drops. */
  predicate Kept(v: Value) {
    match v
    case String(s) => KeptString(s)
    case Array(items) => KeptItems(items)
    case Object(members) => KeptMembers(members)
    case _ => true
  }

  predicate KeptItems(items: seq<Value>) { items == [] || (Kept(items[0]) && KeptItems(items[1..])) }

  predicate KeptMembers(members: seq<Member>) {
    members == [] || (KeptString(members[0].name) && Kept(members[0].value) && KeptMembers(members[1..]))
  }

  predicate KeptString(s: string) { forall i | 0 <= i < |s| :: !EscapeLetter(s[i]).Drop? }

  lemma {:induction false} CleanString(s: string)
    ensures |Clean(s)| <= |s| && (Clean(s) == s <==> KeptString(s)) && KeptString(Clean(s))
    ensures EscapeAll(Clean(s)) == EscapeAll(s)
  {
    if s == "" {
    } else {
      CleanString(s[1..]);
      assert s == [s[0]] + s[1..];
      if !EscapeLetter(s[0]).Drop? {
        assert Clean(s)[1..] == Clean(s[1..]);
      }
    }
  }

  lemma {:induction false} CleanExact(v: Value)
    ensures CleanValue(v) == v <==> Kept(v)
    decreases v, 0
  {
    match v
    case String(s) => CleanString(s);
    case Array(items) => CleanItemsExact(items);
    case Object(members) => CleanMembersExact(members);
    case _ =>
  }

  lemma {:induction false} CleanItemsExact(items: seq<Value>)
    ensures |CleanItems(items)| == |items| && (CleanItems(items) == items <==> KeptItems(items))
    decreases items, 1
  {
    if items == [] {
    } else {
      CleanExact(items[0]);
      CleanItemsExact(items[1..]);
      assert items == [items[0]] + items[1..];
      assert CleanItems(items)[1..] == CleanItems(items[1..]);
    }
  }

  lemma {:induction false} CleanMembersExact(members: seq<Member>)
    ensures |CleanMembers(members)| == |members| && (CleanMembers(members) == members <==> KeptMembers(members))
    decreases members, 1
  {
    if members == [] {
    } else {
      CleanString(members[0].name);
      CleanExact(members[0].value);
      CleanMembersExact(members[1..]);
      assert members == [members[0]] + members[1..];
      assert CleanMembers(members)[0].name == Clean(members[0].name);
      assert CleanMembers(members)[1..] == CleanMembers(members[1..]);
    }
  }

  /** Exactly which trees come back unchanged from print and parse. */
  lemma RoundTripExact(v: Value, fmt: bool)
    requires Printable(v)
    ensures Reads(Parse(PrintValue(v, 0, fmt)), v, "") <==> Kept(v)
  {
    ParseWhole(v, fmt);
    CleanExact(v);
  }
}
