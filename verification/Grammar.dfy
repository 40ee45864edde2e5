/** RFC 8259 sections 2 to 7 as derivation trees, and the proof that the parser reads every one of them. */
module Grammar {
  import opened Json
  import opened NumberText
  import opened StringText
  import opened Parser

  /** A derivation of `value`. White space around a value belongs to the element or member that holds
      it; an empty array or object has white space of its own between the brackets. */
  datatype Derivation =
    | NullText
    | FalseText
    | TrueText
    | NumberDerivation(number: NumberLiteral)
    | StringDerivation(chars: seq<StringChar>)
    | ArrayDerivation(blank: string, elements: seq<Element>)
    | ObjectDerivation(blank: string, members: seq<Pair>)

  /** ws value ws */
  datatype Element = Element(before: string, value: Derivation, after: string)

  /** ws string ws : element */
  datatype Pair = Pair(before: string, key: seq<StringChar>, after: string, element: Element)

  /** ws = *( space / tab / LF / CR ) */
  ghost predicate White(s: string) {
    forall i | 0 <= i < |s| :: s[i] == ' ' || s[i] == '\t' || s[i] == '\n' || s[i] == '\r'
  }

  ghost predicate WellFormed(d: Derivation) {
    match d
    case NullText => true
    case FalseText => true
    case TrueText => true
    case NumberDerivation(number) => WellFormedNumber(number)
    case StringDerivation(chars) => WellFormedChars(chars)
    case ArrayDerivation(blank, elements) => White(blank) && WellFormedElements(elements)
    case ObjectDerivation(blank, members) => White(blank) && WellFormedPairs(members)
  }

  ghost predicate Blanks(e: Element) { White(e.before) && White(e.after) }

  ghost predicate KeyWellFormed(p: Pair) {
    White(p.before) && WellFormedChars(p.key) && White(p.after) && Blanks(p.element)
  }

  ghost predicate WellFormedElements(es: seq<Element>) {
    es == [] || (Blanks(es[0]) && WellFormed(es[0].value) && WellFormedElements(es[1..]))
  }

  ghost predicate WellFormedPairs(ps: seq<Pair>) {
    ps == [] || (KeyWellFormed(ps[0]) && WellFormed(ps[0].element.value) && WellFormedPairs(ps[1..]))
  }

  // ---- the text of a derivation ----

  function Text(d: Derivation): string {
    match d
    case NullText => "null"
    case FalseText => "false"
    case TrueText => "true"
    case NumberDerivation(number) => NumberLiteralText(number)
    case StringDerivation(chars) => StringLiteralText(chars)
    case ArrayDerivation(blank, elements) =>
      "[" + ((if elements == [] then blank else ElementsText(elements)) + "]")
    case ObjectDerivation(blank, members) =>
      "{" + ((if members == [] then blank else PairsText(members)) + "}")
  }

  /** An element, around the text of its value. */
  function Around(e: Element, text: string): string { e.before + (text + e.after) }

  /** A member, around the text of its value. */
  function PairAround(p: Pair, text: string): string {
    p.before + (StringLiteralText(p.key) + (p.after + (":" + Around(p.element, text))))
  }

  function ElementsText(es: seq<Element>): string
    requires es != []
  {
    var first := Around(es[0], Text(es[0].value));
    if |es| == 1 then first else first + ("," + ElementsText(es[1..]))
  }

  function PairsText(ps: seq<Pair>): string
    requires ps != []
  {
    var first := PairAround(ps[0], Text(ps[0].element.value));
    if |ps| == 1 then first else first + ("," + PairsText(ps[1..]))
  }

  /** JSON-text = ws value ws */
  function ElementText(e: Element): string { Around(e, Text(e.value)) }

  function PairText(p: Pair): string { PairAround(p, Text(p.element.value)) }

  // ---- the value a derivation denotes, strings being C strings ----

  function Denotes(d: Derivation): Value
    requires WellFormed(d)
  {
    match d
    case NullText => Null
    case FalseText => False
    case TrueText => True
    case NumberDerivation(number) => Number(NumberValue(number))
    case StringDerivation(chars) => String(Stored(chars))
    case ArrayDerivation(_, elements) => Array(ElementsDenote(elements))
    case ObjectDerivation(_, members) => Object(PairsDenote(members))
  }

  function ElementsDenote(es: seq<Element>): seq<Value>
    requires WellFormedElements(es)
  {
    if es == [] then [] else [Denotes(es[0].value)] + ElementsDenote(es[1..])
  }

  function PairsDenote(ps: seq<Pair>): seq<Member>
    requires WellFormedPairs(ps)
  {
    if ps == [] then [] else
    [Member(Stored(ps[0].key), Denotes(ps[0].element.value))] + PairsDenote(ps[1..])
  }

  // ---- every derivation is read in full ----

  lemma {:induction false} SkipWhite(w: string, rest: string)
    requires White(w)
    ensures Skip(w + rest) == Skip(rest)
  {
    if w == "" {
      assert w + rest == rest;
    } else {
      assert (w + rest)[1..] == w[1..] + rest;
      SkipWhite(w[1..], rest);
    }
  }

  /** A value starts with a byte that is not white space. */
  lemma TextStart(d: Derivation)
    requires WellFormed(d)
    ensures Text(d) != "" && Text(d)[0] > ' ' && Text(d)[0] != ']' && Text(d)[0] != '}'
  {
    if d.NumberDerivation? {
      var l := d.number;
      assert Digit(l.whole[0]);
      assert NumberLiteralText(l)[0] == if l.minus then '-' else l.whole[0];
    }
  }

  /** What may follow a derivation: only a number can be continued by the text behind it. */
  ghost predicate Follows(d: Derivation, rest: string) { d.NumberDerivation? ==> EndsNumber(rest) }

  lemma {:induction false} ParseValueComplete(d: Derivation, rest: string)
    requires WellFormed(d) && Follows(d, rest)
    ensures Reads(ParseValue(Text(d) + rest), Denotes(d), rest)
    decreases d, 0
  {
    match d
    case NullText => WordComplete("null", rest);
    case FalseText => WordComplete("false", rest);
    case TrueText => WordComplete("true", rest);
    case NumberDerivation(number) =>
      ParseNumberComplete(number, rest);
      NumberDispatch(number, rest);
    case StringDerivation(chars) =>
      SplitStringText(chars, rest);
      ParseStringComplete(chars, rest);
    case ArrayDerivation(blank, elements) =>
      if elements == [] {
        EmptyBrackets("[", blank, "]", rest);
      } else {
        ParseElementsComplete(elements, rest);
        ElementsStart(elements, "]" + rest);
        ParseArrayComplete(ElementsText(elements), rest);
      }
    case ObjectDerivation(blank, members) =>
      if members == [] {
        EmptyBrackets("{", blank, "}", rest);
      } else {
        ParsePairsComplete(members, rest);
        PairsStart(members, "}" + rest);
        ParseObjectComplete(PairsText(members), rest);
      }
  }

  /** What parse_array adds to the loop over the elements: the brackets around a non-empty list. */
  lemma ParseArrayComplete(body: string, rest: string)
    requires var t := Skip(body + ("]" + rest)); t != "" && t[0] != ']'
    requires ParseElements(body + ("]" + rest)).Done?
    ensures var r := ParseElements(body + ("]" + rest));
            Reads(ParseValue("[" + (body + "]") + rest), Array(r.value), r.rest)
  {
    SplitBrackets("[", body, "]", rest);
    SkipElements(body + ("]" + rest));
  }

  lemma ParseObjectComplete(body: string, rest: string)
    requires var t := Skip(body + ("}" + rest)); t != "" && t[0] != '}'
    requires ParseMembers(body + ("}" + rest)).Done?
    ensures var r := ParseMembers(body + ("}" + rest));
            Reads(ParseValue("{" + (body + "}") + rest), Object(r.value), r.rest)
  {
    SplitBrackets("{", body, "}", rest);
    SkipMembers(body + ("}" + rest));
  }

  lemma WordComplete(word: string, rest: string)
    requires word == "null" || word == "false" || word == "true"
    ensures word <= word + rest && (word + rest)[|word|..] == rest
    ensures (word + rest)[0] == word[0]
  {
  }

  /** A number literal is none of the words, and its first byte sends parse_value to parse_number. */
  lemma NumberDispatch(l: NumberLiteral, rest: string)
    requires WellFormedNumber(l)
    ensures var s := NumberLiteralText(l) + rest; s != "" && (s[0] == '-' || Digit(s[0]))
  {
    assert Digit(l.whole[0]);
    assert NumberLiteralText(l)[0] == if l.minus then '-' else l.whole[0];
  }

  lemma SplitBrackets(open: string, body: string, close: string, rest: string)
    requires |open| == 1
    ensures var s := open + (body + close) + rest;
            s[0] == open[0] && s[1..] == body + (close + rest)
  {
  }

  lemma EmptyBrackets(open: string, blank: string, close: string, rest: string)
    requires |open| == |close| == 1 && close[0] > ' ' && White(blank)
    ensures var s := open + (blank + close) + rest;
            && s[0] == open[0]
            && (var t := Skip(s[1..]); t != "" && t[0] == close[0] && t[1..] == rest)
  {
    SplitBrackets(open, blank, close, rest);
    SkipWhite(blank, close + rest);
    assert Skip(close + rest) == close + rest;
  }

  /** The white space between the bracket and the first element may be skipped twice. */
  lemma SkipElements(s: string)
    ensures ParseElements(Skip(s)) == ParseElements(s)
  {
  }

  lemma SkipMembers(s: string)
    ensures ParseMembers(Skip(s)) == ParseMembers(s)
  {
    assert ParseMember(Skip(s)) == ParseMember(s);
  }

  lemma ElementStart(e: Element, tail: string)
    requires Blanks(e) && WellFormed(e.value)
    ensures Skip(ElementText(e) + tail) == Text(e.value) + (e.after + tail)
  {
    TextStart(e.value);
    var t := Text(e.value) + (e.after + tail);
    assert ElementText(e) + tail == e.before + t;
    SkipWhite(e.before, t);
  }

  /** The text of a list of elements, up to the first comma or the end of the list. */
  function AfterFirst(es: seq<Element>, tail: string): string
    requires es != []
  {
    if |es| == 1 then tail else "," + (ElementsText(es[1..]) + tail)
  }

  lemma SplitElements(es: seq<Element>, tail: string)
    requires es != []
    ensures ElementsText(es) + tail == ElementText(es[0]) + AfterFirst(es, tail)
  {
  }

  lemma ElementsStart(es: seq<Element>, tail: string)
    requires es != [] && WellFormedElements(es)
    ensures var t := Skip(ElementsText(es) + tail); t != "" && t[0] != ']'
  {
    TextStart(es[0].value);
    SplitElements(es, tail);
    ElementStart(es[0], AfterFirst(es, tail));
  }

  lemma PairStart(p: Pair, tail: string)
    requires KeyWellFormed(p) && WellFormed(p.element.value)
    ensures Skip(PairText(p) + tail)
         == StringLiteralText(p.key) + (p.after + (":" + (ElementText(p.element) + tail)))
  {
    var t := StringLiteralText(p.key) + (p.after + (":" + (ElementText(p.element) + tail)));
    SplitPair(p.before, StringLiteralText(p.key), p.after, ElementText(p.element), tail);
    SkipWhite(p.before, t);
  }

  lemma SplitPair(before: string, key: string, after: string, element: string, tail: string)
    ensures before + (key + (after + (":" + element))) + tail == before + (key + (after + (":" + (element + tail))))
  {
    assert (":" + element) + tail == ":" + (element + tail);
    assert (after + (":" + element)) + tail == after + (":" + (element + tail));
    assert (key + (after + (":" + element))) + tail == key + (after + (":" + (element + tail)));
  }

  function AfterFirstPair(ps: seq<Pair>, tail: string): string
    requires ps != []
  {
    if |ps| == 1 then tail else "," + (PairsText(ps[1..]) + tail)
  }

  lemma SplitPairs(ps: seq<Pair>, tail: string)
    requires ps != []
    ensures PairsText(ps) + tail == PairText(ps[0]) + AfterFirstPair(ps, tail)
  {
  }

  lemma PairsStart(ps: seq<Pair>, tail: string)
    requires ps != [] && WellFormedPairs(ps)
    ensures var t := Skip(PairsText(ps) + tail); t != "" && t[0] != '}'
  {
    SplitPairs(ps, tail);
    PairStart(ps[0], AfterFirstPair(ps, tail));
  }

  /** An element behind which comes a comma or a closing bracket. */
  lemma {:induction false} ParseElementComplete(e: Element, tail: string)
    requires Blanks(e) && WellFormed(e.value) && tail != "" && tail[0] in [',', ']', '}']
    ensures var r := ParseValue(Skip(ElementText(e) + tail));
            r.Done? && r.value == Denotes(e.value) && Skip(r.rest) == tail
    decreases e, 1
  {
    ElementStart(e, tail);
    assert EndsNumber(e.after + tail);
    ParseValueComplete(e.value, e.after + tail);
    SkipWhite(e.after, tail);
  }

  lemma {:induction false} ParseElementsComplete(es: seq<Element>, rest: string)
    requires es != [] && WellFormedElements(es)
    ensures Reads(ParseElements(ElementsText(es) + ("]" + rest)), ElementsDenote(es), rest)
    decreases es, 2
  {
    var tail := "]" + rest;
    var after := AfterFirst(es, tail);
    SplitElements(es, tail);
    ParseElementComplete(es[0], after);
    if |es| == 1 {
      assert after[1..] == rest;
      assert ElementsDenote(es) == [Denotes(es[0].value)];
    } else {
      ParseElementsComplete(es[1..], rest);
      assert after[1..] == ElementsText(es[1..]) + tail;
    }
  }

  lemma {:induction false} ParsePairComplete(p: Pair, tail: string)
    requires KeyWellFormed(p) && WellFormed(p.element.value) && tail != "" && tail[0] in [',', '}']
    ensures var r := ParseMember(PairText(p) + tail);
            r.Done? && r.value == Member(Stored(p.key), Denotes(p.element.value)) && Skip(r.rest) == tail
    decreases p, 2
  {
    PairStart(p, tail);
    var value := ElementText(p.element) + tail;
    ParseStringComplete(p.key, p.after + (":" + value));
    SkipWhite(p.after, ":" + value);
    assert Skip(":" + value) == ":" + value;
    assert (":" + value)[1..] == value;
    ParseElementComplete(p.element, tail);
  }

  lemma {:induction false} ParsePairsComplete(ps: seq<Pair>, rest: string)
    requires ps != [] && WellFormedPairs(ps)
    ensures Reads(ParseMembers(PairsText(ps) + ("}" + rest)), PairsDenote(ps), rest)
    decreases ps, 3
  {
    var tail := "}" + rest;
    var after := AfterFirstPair(ps, tail);
    SplitPairs(ps, tail);
    ParsePairComplete(ps[0], after);
    if |ps| == 1 {
      assert after[1..] == rest;
      assert PairsDenote(ps) == [Member(Stored(ps[0].key), Denotes(ps[0].element.value))];
    } else {
      ParsePairsComplete(ps[1..], rest);
      assert after[1..] == PairsText(ps[1..]) + tail;
    }
  }

  /** cJSON_Parse reads every JSON text of RFC 8259: white space, a value, white space. Text behind
      the value is not an error. */
  lemma ParseComplete(e: Element, rest: string)
    requires Blanks(e) && WellFormed(e.value) && Follows(e.value, e.after + rest)
    ensures Reads(Parse(ElementText(e) + rest), Denotes(e.value), e.after + rest)
  {
    ElementStart(e, rest);
    ParseValueComplete(e.value, e.after + rest);
  }
}
