/** parse_value, parse_array, parse_object and cJSON_Parse: the nodes they build in memory. */
module HeapParser {
  import opened Json
  import opened NumberText
  import opened StringText
  import opened Memory
  import opened Heaps
  import opened Trees
  import opened HeapTrees
  import opened Scanner
  import Parser

  /** A node's own data: its type, its number, its string. */
  method SetData(h: Heap, item: Ptr, kind: Kind, d: real, text: Ref)
    requires h.Valid() && item in h.live && Blank(h.nodes[item])
    modifies h`nodes
    ensures h.Valid()
    ensures h.nodes == old(h.nodes)[item := old(h.nodes[item]).(kind := kind, valuedouble := d, valuestring := text)]
  {
    h.Store(item, h.nodes[item].(kind := kind, valuedouble := d, valuestring := text));
  }

  /** A leaf without a string of its own. */
  method SetLeaf(h: Heap, item: Ptr, kind: Kind, d: real, ghost v: Value) returns (ghost t: Tree)
    requires h.Valid() && item in h.live && Blank(h.nodes[item])
    requires (v == Value.Null && kind == Kind.Null) || (v == Value.False && kind == Kind.False)
          || (v == Value.True && kind == Kind.True) || (v == Value.Number(d) && kind == Kind.Number)
    modifies h`nodes
    ensures h.Valid() && Grown(old(h.View()), h.View(), item, t) && Is(h.nodes, h.strings, t, v)
  {
    PlacedInPool(h.View(), item);
    SetData(h, item, kind, d, NoRef);
    GrowNothing(old(h.View()), h.View(), item);
    t := WithKids(old(h.View()), item, []);
  }

  /** `item->valuestring = out; item->type = cJSON_String` */
  method SetText(h: Heap, item: Ptr, text: string) returns (ghost t: Tree)
    requires h.Valid() && item in h.live && Blank(h.nodes[item])
    modifies h`nodes, h`strings, h`top
    ensures h.Valid() && Grown(old(h.View()), h.View(), item, t) && Is(h.nodes, h.strings, t, Value.String(text))
    ensures t.kids == [] && t.text.Ref? && h.nodes[item].valuestring == t.text
  {
    PlacedInPool(h.View(), item);
    ghost var m := h.View();
    var p := StoreText(h, item, text);
    t := Tree(item, Ref(p), m.nodes[item].name, []);
    GrowText(m, h.View(), item, p, text);
  }

  method StoreText(h: Heap, item: Ptr, text: string) returns (p: int)
    requires h.Valid() && item in h.live && Blank(h.nodes[item])
    modifies h`nodes, h`strings, h`top
    ensures h.Valid() && p !in old(h.strings) && h.strings == old(h.strings)[p := text]
    ensures h.nodes
        == old(h.nodes)[item := old(h.nodes[item]).(kind := Kind.String, valuedouble := 0.0, valuestring := Ref(p))]
  {
    p := h.NewString(text);
    SetData(h, item, Kind.String, 0.0, Ref(p));
  }

  /** A new node, linked behind the given one. */
  method NewChild(h: Heap, item: Ptr, last: Ptr, ghost ts: seq<Tree>) returns (n: Ptr)
    requires h.Valid() && item in h.live && item != Nil && !h.nodes[item].reference
    requires last == Top(ts, |ts| - 1) && (ts == [] <==> last == Nil) && (ts != [] ==> last in h.live && last != item)
    modifies h`nodes, h`pools, h`top, h`live, h`used, h`free
    ensures h.Valid() && n in h.live && Blank(h.nodes[n]) && h.live == old(h.live) + {n}
    ensures LinkedBehind(old(h.View()), h.View(), item, ts, n)
  {
    n := h.NewItem(item);
    ghost var m1 := h.View();
    LinkChild(h, item, last, n);
    LinkNewItem(old(h.View()), m1, h.View(), item, ts, n);
  }

  /** A new node, linked as the last child of the item. */
  method AddChild(h: Heap, item: Ptr, last: Ptr, ghost m0: Mem, ghost ts: seq<Tree>) returns (n: Ptr)
    requires h.Valid() && item in m0.nodes && Grown(m0, h.View(), item, WithKids(m0, item, ts))
    requires last == Top(ts, |ts| - 1) && !h.nodes[item].reference
    modifies h`nodes, h`pools, h`top, h`live, h`used, h`free
    ensures h.Valid() && n in h.live && Blank(h.nodes[n])
    ensures Grown(m0, h.View(), item, WithKids(m0, item, ts + [Tree(n, NoRef, NoRef, [])]))
    ensures LinkedBehind(old(h.View()), h.View(), item, ts, n)
  {
    LastChild(m0, h.View(), item, ts);
    n := NewChild(h, item, last, ts);
    GrowChild(m0, old(h.View()), h.View(), item, ts, n);
  }

  /** parse_string on a node. */
  method ParseStringNode(h: Heap, item: Ptr, s: string, i: nat) returns (r: Outcome, out: string, ghost t: Tree)
    requires h.Valid() && item in h.live && Blank(h.nodes[item]) && i <= |s|
    modifies h`nodes, h`strings, h`top
    ensures h.Valid() && Grown(old(h.View()), h.View(), item, t)
    ensures Agrees(r, out, s, ParseString(s[i..]))
    ensures r.Next? ==> t.kids == [] && t.text.Ref? && h.nodes[item].valuestring == t.text
                        && Is(h.nodes, h.strings, t, Value.String(out))
    ensures !r.Next? ==> h.View() == old(h.View()) && t == WithKids(h.View(), item, [])
  {
    r, out := ScanString(s, i);
    if r.Next? {
      t := SetText(h, item, out);
    } else {
      PlacedInPool(h.View(), item);
      GrowNothing(old(h.View()), h.View(), item);
      t := WithKids(h.View(), item, []);
    }
  }

  /** A child as cJSON_New_Item leaves it, with or without its name. */
  ghost predicate LastIsBlank(m: Mem, item: Ptr, ts: seq<Tree>, u: Tree) {
    && u.addr in m.live && u.addr in m.nodes && Blank(m.nodes[u.addr]) && u.kids == [] && u.text == NoRef
  }

  /** `child->string = child->valuestring; child->valuestring = 0` */
  method MoveName(h: Heap, item: Ptr, ghost m0: Mem, ghost ts: seq<Tree>, n: Ptr, ghost t: Tree)
    requires h.Valid() && item in m0.nodes && Grown(m0, h.View(), item, WithKids(m0, item, ts + [t]))
    requires n == t.addr && n in h.live && !h.nodes[n].reference && t.kids == [] && t.name == NoRef
    requires h.nodes[n].valuestring == t.text
    requires h.nodes[n].child == Nil
    modifies h`nodes
    ensures h.Valid() && Grown(m0, h.View(), item, WithKids(m0, item, ts + [Named(t)]))
    ensures LastIsBlank(h.View(), item, ts, Named(t)) && KeepsData(old(h.View()), h.View(), ts)
    ensures item in h.nodes && item in old(h.nodes) && h.nodes[item] == old(h.nodes[item])
    ensures h.strings == old(h.strings)
  {
    h.Store(n, h.nodes[n].(name := h.nodes[n].valuestring, valuestring := NoRef));
    NameLast(m0, old(h.View()), h.View(), item, ts, t);
  }

  /** The key of a member: parse_string on the new child, then the move. */
  method ParseKey(h: Heap, item: Ptr, ghost m0: Mem, ghost ts: seq<Tree>, n: Ptr, s: string, i: nat)
    returns (r: Outcome, name: string, ghost u: Tree)
    requires h.Valid() && item in m0.nodes && i <= |s|
    requires Grown(m0, h.View(), item, WithKids(m0, item, ts + [Tree(n, NoRef, NoRef, [])]))
    requires LastIsBlank(h.View(), item, ts, Tree(n, NoRef, NoRef, []))
    modifies h`nodes, h`strings, h`top
    ensures h.Valid() && u.addr == n && Grown(m0, h.View(), item, WithKids(m0, item, ts + [u]))
    ensures LastIsBlank(h.View(), item, ts, u) && KeepsData(old(h.View()), h.View(), ts)
    ensures item in h.nodes && item in old(h.nodes) && SameData(old(h.nodes[item]), h.nodes[item])
    ensures Agrees(r, name, s, ParseString(s[i..])) && (r.Next? ==> Holds(h.strings, u.name, name))
  {
    ghost var t;
    r, name, t := ParseStringNode(h, n, s, i);
    u := Tree(n, NoRef, NoRef, []);
    if r.Next? {
      ghost var m := h.View();
      LastGrowsText(m0, old(h.View()), m, item, ts, u, t);
      MoveName(h, item, m0, ts, n, t);
      u := Named(t);
      KeepsTwice(old(h.View()), m, h.View(), ts);
    }
  }

  lemma LastGrowsText(m0: Mem, m: Mem, m': Mem, item: Ptr, ts: seq<Tree>, u: Tree, t: Tree)
    requires item in m0.nodes && u.kids == [] && u.text == NoRef && u.name == NoRef
    requires Grown(m0, m, item, WithKids(m0, item, ts + [u])) && Grown(m, m', u.addr, t) && t.kids == []
    ensures Grown(m0, m', item, WithKids(m0, item, ts + [t])) && KeepsData(m, m', ts)
    ensures item in m.nodes && item in m'.nodes && m'.nodes[item] == m.nodes[item]
    ensures t.name == NoRef && t.addr in m'.live && (!m'.nodes[t.addr].reference ==> m'.nodes[t.addr].child == Nil)
  {
    GrownMeans(m0, m, item, WithKids(m0, item, ts + [u]));
    GrownMeans(m, m', u.addr, t);
    GrowLast(m0, m, m', item, ts, u, t);
    GrowLastCells(m0, m, m', item, ts, u, t);
    GrowKeepsData(m0, m, m', item, ts, u, t);
    AppendTree(m.nodes, ts, u);
    SameName(m, m', u, t);
  }

  lemma KeepsTwice(m: Mem, m1: Mem, m2: Mem, ts: seq<Tree>)
    requires KeepsData(m, m1, ts) && KeepsData(m1, m2, ts)
    ensures KeepsData(m, m2, ts)
  {
  }

  // ---- parse_value, parse_array, parse_object ----

  /** The nodes of an array have no name. */
  ghost predicate NoNames(ts: seq<Tree>) { forall i | 0 <= i < |ts| :: ts[i].name == NoRef }

  /** `skip` behind what has been parsed. */
  function ThenSkip<T>(p: Parsed<T>): Parsed<T> { if p.Done? then Done(p.value, Parser.Skip(p.rest)) else p }

  /** The lists of a parse: what is read already, followed by what is left to read. */
  ghost predicate ContinuesList<T>(whole: Parsed<seq<T>>, before: seq<T>, later: Parsed<seq<T>>) {
    && whole.Done? == later.Done? && whole.Fail? == later.Fail?
    && (whole.Done? ==> whole.value == before + later.value && whole.rest == later.rest)
  }

  /** What follows an element and its white space. */
  ghost function AfterElement(t: string): Parsed<seq<Value>> {
    if t == "" then Fail
    else if t[0] == ',' then Parser.ParseElements(t[1..])
    else if t[0] == ']' then Done([], t[1..])
    else Fail
  }

  ghost function AfterMember(t: string): Parsed<seq<Member>> {
    if t == "" then Fail
    else if t[0] == ',' then Parser.ParseMembers(t[1..])
    else if t[0] == '}' then Done([], t[1..])
    else Fail
  }

  /** Where the loop of parse_array stands: what it has read, and what it returns if it stops. */
  ghost predicate ReadingItems(whole: Parsed<seq<Value>>, vs: seq<Value>, r: Outcome, s: string) {
    match r
    case Next(pos) => pos <= |s| && ContinuesList(whole, vs, AfterElement(s[pos..]))
    case Failed => whole == Fail
    case Undefined => whole == Malformed
  }

  ghost predicate ReadingMembers(whole: Parsed<seq<Member>>, ms: seq<Member>, r: Outcome, s: string) {
    match r
    case Next(pos) => pos <= |s| && ContinuesList(whole, ms, AfterMember(s[pos..]))
    case Failed => whole == Fail
    case Undefined => whole == Malformed
  }

  lemma NextItem(whole: Parsed<seq<Value>>, vs: seq<Value>, s: string, i: nat, r: Outcome, v: Value,
                 spec: Parsed<Value>)
    requires i <= |s| && ContinuesList(whole, vs, Parser.ParseElements(s[i..]))
    requires spec == ThenSkip(Parser.ParseValue(Parser.Skip(s[i..]))) && Agrees(r, v, s, spec)
    ensures ReadingItems(whole, vs + [v], r, s)
  {
    if r.Next? && AfterElement(s[r.pos..]).Done? {
      var later := AfterElement(s[r.pos..]).value;
      assert vs + ([v] + later) == vs + [v] + later;
    }
  }

  lemma NextMember(whole: Parsed<seq<Member>>, ms: seq<Member>, s: string, i: nat, r: Outcome, v: Member,
                   spec: Parsed<Member>)
    requires i <= |s| && ContinuesList(whole, ms, Parser.ParseMembers(s[i..]))
    requires spec == ThenSkip(Parser.ParseMember(s[i..])) && Agrees(r, v, s, spec)
    ensures ReadingMembers(whole, ms + [v], r, s)
  {
    if r.Next? && AfterMember(s[r.pos..]).Done? {
      var later := AfterMember(s[r.pos..]).value;
      assert ms + ([v] + later) == ms + [v] + later;
    }
  }

  lemma NextItemBehind(whole: Parsed<seq<Value>>, vs: seq<Value>, s: string, i: nat, r: Outcome, v: Value,
                       spec: Parsed<Value>)
    requires i < |s| && s[i] == ',' && ReadingItems(whole, vs, Next(i), s)
    requires spec == ThenSkip(Parser.ParseValue(Parser.Skip(s[i + 1..]))) && Agrees(r, v, s, spec)
    ensures ReadingItems(whole, vs + [v], r, s)
  {
    Ahead(s, i);
    NextItem(whole, vs, s, i + 1, r, v, spec);
  }

  lemma NextMemberBehind(whole: Parsed<seq<Member>>, ms: seq<Member>, s: string, i: nat, r: Outcome, v: Member,
                         spec: Parsed<Member>)
    requires i < |s| && s[i] == ',' && ReadingMembers(whole, ms, Next(i), s)
    requires spec == ThenSkip(Parser.ParseMember(s[i + 1..])) && Agrees(r, v, s, spec)
    ensures ReadingMembers(whole, ms + [v], r, s)
  {
    Ahead(s, i);
    NextMember(whole, ms, s, i + 1, r, v, spec);
  }

  /** The test behind the loop. */
  lemma LastItem(whole: Parsed<seq<Value>>, vs: seq<Value>, s: string, i: nat)
    requires i <= |s| && ReadingItems(whole, vs, Next(i), s) && Peek(s, i) != ','
    ensures Agrees(if Peek(s, i) == ']' then Next(i + 1) else Failed, vs, s, whole)
  {
    if i < |s| {
      Ahead(s, i);
    }
    assert vs + [] == vs;
  }

  lemma LastMember(whole: Parsed<seq<Member>>, ms: seq<Member>, s: string, i: nat)
    requires i <= |s| && ReadingMembers(whole, ms, Next(i), s) && Peek(s, i) != ','
    ensures Agrees(if Peek(s, i) == '}' then Next(i + 1) else Failed, ms, s, whole)
  {
    if i < |s| {
      Ahead(s, i);
    }
    assert ms + [] == ms;
  }

  // ---- parse_value, branch by branch ----

  /** `!strncmp(value, word, strlen(word))` */
  predicate StartsWith(s: string, i: nat, word: string)
    requires i <= |s|
  {
    |s| - i >= |word| && s[i..i + |word|] == word
  }

  lemma AheadWord(s: string, i: nat, word: string)
    requires i <= |s|
    ensures StartsWith(s, i, word) <==> word <= s[i..]
    ensures StartsWith(s, i, word) ==> s[i..][|word|..] == s[i + |word|..]
  {
    if StartsWith(s, i, word) {
      assert s[i..][..|word|] == word;
    }
  }

  predicate Literal(s: string, i: nat)
    requires i <= |s|
  {
    StartsWith(s, i, "null") || StartsWith(s, i, "false") || StartsWith(s, i, "true")
  }

  lemma AtLiteral(s: string, i: nat)
    requires i <= |s|
    ensures StartsWith(s, i, "null") ==> Agrees(Next(i + 4), Value.Null, s, Parser.ParseValue(s[i..]))
    ensures !StartsWith(s, i, "null") && StartsWith(s, i, "false")
        ==> Agrees(Next(i + 5), Value.False, s, Parser.ParseValue(s[i..]))
    ensures !StartsWith(s, i, "null") && !StartsWith(s, i, "false") && StartsWith(s, i, "true")
        ==> Agrees(Next(i + 4), Value.True, s, Parser.ParseValue(s[i..]))
  {
    AheadWord(s, i, "null");
    AheadWord(s, i, "false");
    AheadWord(s, i, "true");
  }

  /** No literal starts with this byte. */
  lemma NoLiteral(s: string, i: nat)
    requires i <= |s| && Peek(s, i) != 'n' && Peek(s, i) != 'f' && Peek(s, i) != 't'
    ensures !("null" <= s[i..]) && !("false" <= s[i..]) && !("true" <= s[i..])
  {
    if i < |s| {
      Ahead(s, i);
    }
  }

  lemma AtString(s: string, i: nat, r: Outcome, out: string)
    requires i < |s| && s[i] == '"' && Agrees(r, out, s, ParseString(s[i..]))
    ensures Agrees(r, Value.String(out), s, Parser.ParseValue(s[i..]))
  {
    Ahead(s, i);
    NoLiteral(s, i);
  }

  lemma AtNumber(s: string, i: nat, r: Outcome, parts: Parts)
    requires i < |s| && (s[i] == '-' || Digit(s[i])) && Agrees(r, parts, s, ReadNumber(s[i..]))
    ensures Agrees(r, Value.Number(PartsValue(parts)), s, Parser.ParseValue(s[i..]))
  {
    Ahead(s, i);
    NoLiteral(s, i);
  }

  lemma AtNothing(s: string, i: nat)
    requires i <= |s| && !Literal(s, i)
    requires (i < |s| ==> s[i] != '"' && s[i] != '-' && !Digit(s[i]) && s[i] != '[' && s[i] != '{')
    ensures Parser.ParseValue(s[i..]) == Fail
  {
    AheadWord(s, i, "null");
    AheadWord(s, i, "false");
    AheadWord(s, i, "true");
    if i < |s| {
      Ahead(s, i);
    }
  }

  lemma AtArray(s: string, i: nat, p: nat, r: Outcome, vs: seq<Value>)
    requires i < |s| && s[i] == '[' && p <= |s| && s[p..] == Parser.Skip(s[i + 1..]) && Peek(s, p) != ']'
    requires Agrees(r, vs, s, Parser.ParseElements(s[p..]))
    ensures Agrees(r, Value.Array(vs), s, Parser.ParseValue(s[i..]))
  {
    Ahead(s, i);
    NoLiteral(s, i);
    if p < |s| {
      Ahead(s, p);
    }
  }

  lemma AtEmptyArray(s: string, i: nat, p: nat)
    requires i < |s| && s[i] == '[' && p < |s| && s[p..] == Parser.Skip(s[i + 1..]) && s[p] == ']'
    ensures Agrees(Next(p + 1), Value.Array([]), s, Parser.ParseValue(s[i..]))
  {
    Ahead(s, i);
    NoLiteral(s, i);
    Ahead(s, p);
  }

  lemma AtObject(s: string, i: nat, p: nat, r: Outcome, ms: seq<Member>)
    requires i < |s| && s[i] == '{' && p <= |s| && s[p..] == Parser.Skip(s[i + 1..]) && Peek(s, p) != '}'
    requires Agrees(r, ms, s, Parser.ParseMembers(s[p..]))
    ensures Agrees(r, Value.Object(ms), s, Parser.ParseValue(s[i..]))
  {
    Ahead(s, i);
    NoLiteral(s, i);
    if p < |s| {
      Ahead(s, p);
    }
  }

  lemma AtEmptyObject(s: string, i: nat, p: nat)
    requires i < |s| && s[i] == '{' && p < |s| && s[p..] == Parser.Skip(s[i + 1..]) && s[p] == '}'
    ensures Agrees(Next(p + 1), Value.Object([]), s, Parser.ParseValue(s[i..]))
  {
    Ahead(s, i);
    NoLiteral(s, i);
    Ahead(s, p);
  }

  /** skip, parse_value, skip */
  lemma Surrounded(s: string, i: nat, p: nat, r: Outcome, v: Value, q: nat)
    requires i <= p <= |s| && s[p..] == Parser.Skip(s[i..]) && Agrees(r, v, s, Parser.ParseValue(s[p..])) && r.Next?
    requires r.pos <= q <= |s| && s[q..] == Parser.Skip(s[r.pos..])
    ensures Agrees(Next(q), v, s, ThenSkip(Parser.ParseValue(Parser.Skip(s[i..])))) && i < q
  {
  }

  /** parse_value: whatever the outcome, everything built so far hangs below the item. */
  method ParseValue(h: Heap, item: Ptr, s: string, i: nat) returns (r: Outcome, ghost v: Value, ghost t: Tree)
    requires h.Valid() && item in h.live && Blank(h.nodes[item]) && i <= |s|
    modifies h`nodes, h`strings, h`pools, h`top, h`live, h`used, h`free
    ensures h.Valid() && Grown(old(h.View()), h.View(), item, t)
    ensures Agrees(r, v, s, Parser.ParseValue(s[i..]))
    ensures (r.Next? ==> Is(h.nodes, h.strings, t, v) && (v.Array? ==> NoNames(t.kids)))
    decreases |s| - i, 1
  {
    AtLiteral(s, i);
    v := Value.Null;
    if StartsWith(s, i, "null") {
      r := Next(i + 4);
      t := SetLeaf(h, item, Kind.Null, 0.0, v);
    } else if StartsWith(s, i, "false") {
      r, v := Next(i + 5), Value.False;
      t := SetLeaf(h, item, Kind.False, 0.0, v);
    } else if StartsWith(s, i, "true") {
      r, v := Next(i + 4), Value.True;
      t := SetLeaf(h, item, Kind.True, 0.0, v);
    } else if Peek(s, i) == '"' {
      var out;
      r, out, t := ParseStringNode(h, item, s, i);
      v := Value.String(out);
      AtString(s, i, r, out);
    } else if i < |s| && (s[i] == '-' || Digit(s[i])) {
      var parts;
      r, parts := ScanNumber(s, i);
      v := Value.Number(PartsValue(parts));
      t := SetLeaf(h, item, Kind.Number, PartsValue(parts), v);
      AtNumber(s, i, r, parts);
    } else if Peek(s, i) == '[' {
      r, v, t := ParseArray(h, item, s, i);
    } else if Peek(s, i) == '{' {
      r, v, t := ParseObject(h, item, s, i);
    } else {
      r := Failed;
      AtNothing(s, i);
      t := LeaveBlank(h, item);
    }
  }

  ghost method LeaveBlank(h: Heap, item: Ptr) returns (t: Tree)
    requires h.Valid() && item in h.live && Blank(h.nodes[item])
    ensures Grown(h.View(), h.View(), item, t)
  {
    PlacedInPool(h.View(), item);
    GrowNothing(h.View(), h.View(), item);
    t := WithKids(h.View(), item, []);
  }

  /** Sets the type of an item whose children are about to be read. */
  method Open(h: Heap, item: Ptr, kind: Kind)
    requires h.Valid() && item in h.live && Blank(h.nodes[item])
    modifies h`nodes
    ensures h.Valid() && Grown(old(h.View()), h.View(), item, WithKids(old(h.View()), item, []))
    ensures h.nodes[item].kind == kind && !h.nodes[item].reference
  {
    PlacedInPool(h.View(), item);
    h.Store(item, h.nodes[item].(kind := kind));
    GrowNothing(old(h.View()), h.View(), item);
  }

  /** parse_array */
  method ParseArray(h: Heap, item: Ptr, s: string, i: nat) returns (r: Outcome, ghost v: Value, ghost t: Tree)
    requires h.Valid() && item in h.live && Blank(h.nodes[item]) && i < |s| && s[i] == '['
    modifies h`nodes, h`strings, h`pools, h`top, h`live, h`used, h`free
    ensures h.Valid() && Grown(old(h.View()), h.View(), item, t)
    ensures Agrees(r, v, s, Parser.ParseValue(s[i..])) && (r.Next? ==> Is(h.nodes, h.strings, t, v) && NoNames(t.kids))
    decreases |s| - i, 0
  {
    ghost var m0 := h.View();
    Open(h, item, Kind.Array);
    var p := SkipBlanks(s, i + 1);
    if Peek(s, p) == ']' {
      AtEmptyArray(s, i, p);
      r, v, t := Next(p + 1), Value.Array([]), WithKids(m0, item, []);
    } else {
      ghost var vs, ts;
      r, vs, ts := ParseItems(h, item, s, p, m0, Parser.ParseElements(s[p..]));
      AtArray(s, i, p, r, vs);
      v, t := Value.Array(vs), WithKids(m0, item, ts);
    }
  }

  method ParseItems(h: Heap, item: Ptr, s: string, start: nat, ghost m0: Mem, ghost whole: Parsed<seq<Value>>)
    returns (r: Outcome, ghost vs: seq<Value>, ghost ts: seq<Tree>)
    requires h.Valid() && item in m0.nodes && Grown(m0, h.View(), item, WithKids(m0, item, []))
    requires start <= |s| && !h.nodes[item].reference && whole == Parser.ParseElements(s[start..])
    modifies h`nodes, h`strings, h`pools, h`top, h`live, h`used, h`free
    ensures h.Valid() && Grown(m0, h.View(), item, WithKids(m0, item, ts))
    ensures item in h.nodes && SameData(old(h.nodes[item]), h.nodes[item])
    ensures Agrees(r, vs, s, whole) && (r.Next? ==> Items(h.View(), ts, vs) && NoNames(ts))
    decreases |s| - start, 5
  {
    var child;
    child, r, vs, ts := FirstElement(h, item, s, start, m0, whole);
    if r.Next? {
      r, vs, ts := MoreItems(h, item, child, s, r.pos, m0, whole, vs, ts);
      r := CloseElement(s, r, whole, vs);
    }
  }

  method FirstElement(h: Heap, item: Ptr, s: string, start: nat, ghost m0: Mem, ghost whole: Parsed<seq<Value>>)
    returns (n: Ptr, r: Outcome, ghost vs: seq<Value>, ghost ts: seq<Tree>)
    requires h.Valid() && item in m0.nodes && Grown(m0, h.View(), item, WithKids(m0, item, []))
    requires start <= |s| && !h.nodes[item].reference && whole == Parser.ParseElements(s[start..])
    modifies h`nodes, h`strings, h`pools, h`top, h`live, h`used, h`free
    ensures h.Valid() && Grown(m0, h.View(), item, WithKids(m0, item, ts)) && n == Top(ts, |ts| - 1)
    ensures item in h.nodes && SameData(old(h.nodes[item]), h.nodes[item])
    ensures ReadingItems(whole, vs, r, s) && (r.Next? ==> start < r.pos && Items(h.View(), ts, vs) && NoNames(ts))
    decreases |s| - start, 4
  {
    ghost var v, t;
    n, r, v, t := ParseElement(h, item, Nil, s, start, m0, [], []);
    NextItem(whole, [], s, start, r, v, ThenSkip(Parser.ParseValue(Parser.Skip(s[start..]))));
    vs, ts := [] + [v], [] + [t];
  }

  /** The loop. */
  method MoreItems(h: Heap, item: Ptr, first: Ptr, s: string, start: nat, ghost m0: Mem,
                   ghost whole: Parsed<seq<Value>>, ghost vs0: seq<Value>, ghost ts0: seq<Tree>)
    returns (r: Outcome, ghost vs: seq<Value>, ghost ts: seq<Tree>)
    requires h.Valid() && item in m0.nodes && Grown(m0, h.View(), item, WithKids(m0, item, ts0))
    requires first == Top(ts0, |ts0| - 1)
    requires !h.nodes[item].reference && ReadingItems(whole, vs0, Next(start), s) && Items(h.View(), ts0, vs0)
    requires NoNames(ts0)
    modifies h`nodes, h`strings, h`pools, h`top, h`live, h`used, h`free
    ensures h.Valid() && Grown(m0, h.View(), item, WithKids(m0, item, ts))
    ensures item in h.nodes && SameData(old(h.nodes[item]), h.nodes[item])
    ensures ReadingItems(whole, vs, r, s)
    ensures (r.Next? ==> Peek(s, r.pos) != ',' && Items(h.View(), ts, vs) && NoNames(ts))
    decreases |s| - start, 4
  {
    var child := first;
    r, vs, ts := Next(start), vs0, ts0;
    while r.Next? && Peek(s, r.pos) == ','
      invariant h.Valid() && Grown(m0, h.View(), item, WithKids(m0, item, ts)) && child == Top(ts, |ts| - 1)
      invariant item in h.nodes && SameData(old(h.nodes[item]), h.nodes[item])
      invariant ReadingItems(whole, vs, r, s)
      invariant r.Next? ==> start <= r.pos && Items(h.View(), ts, vs) && NoNames(ts)
      decreases |s| - if r.Next? then r.pos else |s| + 1
    {
      child, r, vs, ts := AnotherElement(h, item, child, s, r.pos, m0, whole, vs, ts);
    }
  }

  /** One turn of the loop. */
  method AnotherElement(h: Heap, item: Ptr, last: Ptr, s: string, i: nat, ghost m0: Mem,
                        ghost whole: Parsed<seq<Value>>, ghost vs0: seq<Value>, ghost ts0: seq<Tree>)
    returns (n: Ptr, r: Outcome, ghost vs: seq<Value>, ghost ts: seq<Tree>)
    requires h.Valid() && item in m0.nodes && Grown(m0, h.View(), item, WithKids(m0, item, ts0))
    requires last == Top(ts0, |ts0| - 1)
    requires !h.nodes[item].reference && Items(h.View(), ts0, vs0) && NoNames(ts0)
    requires i < |s| && s[i] == ',' && ReadingItems(whole, vs0, Next(i), s)
    modifies h`nodes, h`strings, h`pools, h`top, h`live, h`used, h`free
    ensures h.Valid() && Grown(m0, h.View(), item, WithKids(m0, item, ts)) && n == Top(ts, |ts| - 1)
    ensures item in h.nodes && SameData(old(h.nodes[item]), h.nodes[item])
    ensures ReadingItems(whole, vs, r, s) && (r.Next? ==> i < r.pos && Items(h.View(), ts, vs) && NoNames(ts))
    decreases |s| - i, 0
  {
    ghost var v, t;
    n, r, v, t := ParseElement(h, item, last, s, i + 1, m0, ts0, vs0);
    NextItemBehind(whole, vs0, s, i, r, v, ThenSkip(Parser.ParseValue(Parser.Skip(s[i + 1..]))));
    vs, ts := vs0 + [v], ts0 + [t];
  }

  /** The test behind the loop. */
  method CloseElement(s: string, r0: Outcome, ghost whole: Parsed<seq<Value>>, ghost vs: seq<Value>)
    returns (r: Outcome)
    requires ReadingItems(whole, vs, r0, s) && (r0.Next? ==> Peek(s, r0.pos) != ',')
    ensures Agrees(r, vs, s, whole) && (r.Next? ==> r0.Next?)
  {
    r := r0;
    if r.Next? {
      LastItem(whole, vs, s, r.pos);
      r := if Peek(s, r.pos) == ']' then Next(r.pos + 1) else Failed;
    }
  }

  /** A new child, and an element with the white space around it. */
  method ParseElement(h: Heap, item: Ptr, last: Ptr, s: string, i: nat, ghost m0: Mem, ghost ts: seq<Tree>,
                      ghost vs: seq<Value>)
    returns (n: Ptr, r: Outcome, ghost v: Value, ghost t: Tree)
    requires h.Valid() && item in m0.nodes && Grown(m0, h.View(), item, WithKids(m0, item, ts))
    requires last == Top(ts, |ts| - 1) && !h.nodes[item].reference && i <= |s| && Items(h.View(), ts, vs) && NoNames(ts)
    modifies h`nodes, h`strings, h`pools, h`top, h`live, h`used, h`free
    ensures h.Valid() && Grown(m0, h.View(), item, WithKids(m0, item, ts + [t])) && t.addr == n
    ensures item in h.nodes && SameData(old(h.nodes[item]), h.nodes[item])
    ensures Agrees(r, v, s, ThenSkip(Parser.ParseValue(Parser.Skip(s[i..]))))
    ensures r.Next? ==> i < r.pos && Items(h.View(), ts + [t], vs + [v]) && NoNames(ts + [t])
    decreases |s| - i, 3
  {
    n := AddChild(h, item, last, m0, ts);
    ghost var m := h.View();
    LinkKeepsData(m0, old(h.View()), m, item, ts, n);
    r, v, t := ParseInto(h, item, m0, ts, n, Tree(n, NoRef, NoRef, []), s, i);
    KeepsTwice(old(h.View()), m, h.View(), ts);
    if r.Next? {
      FrameItems(old(h.View()), h.View(), ts, vs);
      OneMore(h.View(), ts, vs, t, v);
      NoNameMore(ts, t);
    }
  }

  lemma NoNameMore(ts: seq<Tree>, t: Tree)
    requires NoNames(ts) && t.name == NoRef
    ensures NoNames(ts + [t])
  {
  }

  lemma OneMore(m: Mem, ts: seq<Tree>, vs: seq<Value>, t: Tree, v: Value)
    requires Items(m, ts, vs) && Is(m.nodes, m.strings, t, v)
    ensures Items(m, ts + [t], vs + [v])
  {
  }

  /** The value of the last child: parse_value between two skips. */
  method ParseInto(h: Heap, item: Ptr, ghost m0: Mem, ghost ts: seq<Tree>, n: Ptr, ghost u: Tree, s: string, i: nat)
    returns (r: Outcome, ghost v: Value, ghost t: Tree)
    requires h.Valid() && item in m0.nodes && Grown(m0, h.View(), item, WithKids(m0, item, ts + [u]))
    requires LastIsBlank(h.View(), item, ts, u) && n == u.addr && i <= |s|
    modifies h`nodes, h`strings, h`pools, h`top, h`live, h`used, h`free
    ensures h.Valid() && Grown(m0, h.View(), item, WithKids(m0, item, ts + [t])) && t.addr == n && t.name == u.name
    ensures KeepsData(old(h.View()), h.View(), ts)
    ensures item in h.nodes && item in old(h.nodes) && SameData(old(h.nodes[item]), h.nodes[item])
    ensures Agrees(r, v, s, ThenSkip(Parser.ParseValue(Parser.Skip(s[i..]))))
    ensures r.Next? ==> i < r.pos && Is(h.nodes, h.strings, t, v)
    decreases |s| - i, 2
  {
    var p := SkipBlanks(s, i);
    r, v, t := ParseValue(h, n, s, p);
    LastGrowsTree(m0, old(h.View()), h.View(), item, ts, u, t);
    if r.Next? {
      var q := SkipBlanks(s, r.pos);
      Surrounded(s, i, p, r, v, q);
      r := Next(q);
    }
  }

  lemma LastGrowsTree(m0: Mem, m: Mem, m': Mem, item: Ptr, ts: seq<Tree>, u: Tree, t: Tree)
    requires LastGrew(m0, m, m', item, ts, u, t)
    ensures Grown(m0, m', item, WithKids(m0, item, ts + [t])) && KeepsData(m, m', ts) && t.name == u.name
    ensures item in m.nodes && item in m'.nodes && SameData(m.nodes[item], m'.nodes[item])
  {
    GrownMeans(m0, m, item, WithKids(m0, item, ts + [u]));
    GrowLast(m0, m, m', item, ts, u, t);
    GrowKeepsData(m0, m, m', item, ts, u, t);
    AppendTree(m.nodes, ts, u);
    SameName(m, m', u, t);
  }

  /** parse_object */
  method ParseObject(h: Heap, item: Ptr, s: string, i: nat) returns (r: Outcome, ghost v: Value, ghost t: Tree)
    requires h.Valid() && item in h.live && Blank(h.nodes[item]) && i < |s| && s[i] == '{'
    modifies h`nodes, h`strings, h`pools, h`top, h`live, h`used, h`free
    ensures h.Valid() && Grown(old(h.View()), h.View(), item, t)
    ensures Agrees(r, v, s, Parser.ParseValue(s[i..])) && (r.Next? ==> Is(h.nodes, h.strings, t, v) && v.Object?)
    decreases |s| - i, 0
  {
    ghost var m0 := h.View();
    Open(h, item, Kind.Object);
    var p := SkipBlanks(s, i + 1);
    if Peek(s, p) == '}' {
      AtEmptyObject(s, i, p);
      r, v, t := Next(p + 1), Value.Object([]), WithKids(m0, item, []);
    } else {
      ghost var ms, ts;
      r, ms, ts := ParsePairs(h, item, s, p, m0, Parser.ParseMembers(s[p..]));
      AtObject(s, i, p, r, ms);
      v, t := Value.Object(ms), WithKids(m0, item, ts);
    }
  }

  method ParsePairs(h: Heap, item: Ptr, s: string, start: nat, ghost m0: Mem, ghost whole: Parsed<seq<Member>>)
    returns (r: Outcome, ghost ms: seq<Member>, ghost ts: seq<Tree>)
    requires h.Valid() && item in m0.nodes && Grown(m0, h.View(), item, WithKids(m0, item, []))
    requires start <= |s| && !h.nodes[item].reference && whole == Parser.ParseMembers(s[start..])
    modifies h`nodes, h`strings, h`pools, h`top, h`live, h`used, h`free
    ensures h.Valid() && Grown(m0, h.View(), item, WithKids(m0, item, ts))
    ensures item in h.nodes && SameData(old(h.nodes[item]), h.nodes[item])
    ensures Agrees(r, ms, s, whole) && (r.Next? ==> Pairs(h.View(), ts, ms))
    decreases |s| - start, 6
  {
    var child;
    child, r, ms, ts := FirstPair(h, item, s, start, m0, whole);
    if r.Next? {
      r, ms, ts := MorePairs(h, item, child, s, r.pos, m0, whole, ms, ts);
      r := ClosePair(s, r, whole, ms);
    }
  }

  method FirstPair(h: Heap, item: Ptr, s: string, start: nat, ghost m0: Mem, ghost whole: Parsed<seq<Member>>)
    returns (n: Ptr, r: Outcome, ghost ms: seq<Member>, ghost ts: seq<Tree>)
    requires h.Valid() && item in m0.nodes && Grown(m0, h.View(), item, WithKids(m0, item, []))
    requires start <= |s| && !h.nodes[item].reference && whole == Parser.ParseMembers(s[start..])
    modifies h`nodes, h`strings, h`pools, h`top, h`live, h`used, h`free
    ensures h.Valid() && Grown(m0, h.View(), item, WithKids(m0, item, ts)) && n == Top(ts, |ts| - 1)
    ensures item in h.nodes && SameData(old(h.nodes[item]), h.nodes[item])
    ensures ReadingMembers(whole, ms, r, s) && (r.Next? ==> start < r.pos && Pairs(h.View(), ts, ms))
    decreases |s| - start, 5
  {
    ghost var v, t;
    n, r, v, t := ParsePair(h, item, Nil, s, start, m0, [], []);
    NextMember(whole, [], s, start, r, v, ThenSkip(Parser.ParseMember(s[start..])));
    ms, ts := [] + [v], [] + [t];
  }

  /** The loop. */
  method MorePairs(h: Heap, item: Ptr, first: Ptr, s: string, start: nat, ghost m0: Mem,
                   ghost whole: Parsed<seq<Member>>, ghost ms0: seq<Member>, ghost ts0: seq<Tree>)
    returns (r: Outcome, ghost ms: seq<Member>, ghost ts: seq<Tree>)
    requires h.Valid() && item in m0.nodes && Grown(m0, h.View(), item, WithKids(m0, item, ts0))
    requires first == Top(ts0, |ts0| - 1)
    requires !h.nodes[item].reference && ReadingMembers(whole, ms0, Next(start), s) && Pairs(h.View(), ts0, ms0)
    modifies h`nodes, h`strings, h`pools, h`top, h`live, h`used, h`free
    ensures h.Valid() && Grown(m0, h.View(), item, WithKids(m0, item, ts))
    ensures item in h.nodes && SameData(old(h.nodes[item]), h.nodes[item])
    ensures ReadingMembers(whole, ms, r, s) && (r.Next? ==> Peek(s, r.pos) != ',' && Pairs(h.View(), ts, ms))
    decreases |s| - start, 4
  {
    var child := first;
    r, ms, ts := Next(start), ms0, ts0;
    while r.Next? && Peek(s, r.pos) == ','
      invariant h.Valid() && Grown(m0, h.View(), item, WithKids(m0, item, ts)) && child == Top(ts, |ts| - 1)
      invariant item in h.nodes && SameData(old(h.nodes[item]), h.nodes[item])
      invariant ReadingMembers(whole, ms, r, s)
      invariant r.Next? ==> start <= r.pos && Pairs(h.View(), ts, ms)
      decreases |s| - if r.Next? then r.pos else |s| + 1
    {
      child, r, ms, ts := AnotherPair(h, item, child, s, r.pos, m0, whole, ms, ts);
    }
  }

  /** One turn of the loop. */
  method AnotherPair(h: Heap, item: Ptr, last: Ptr, s: string, i: nat, ghost m0: Mem,
                        ghost whole: Parsed<seq<Member>>, ghost ms0: seq<Member>, ghost ts0: seq<Tree>)
    returns (n: Ptr, r: Outcome, ghost ms: seq<Member>, ghost ts: seq<Tree>)
    requires h.Valid() && item in m0.nodes && Grown(m0, h.View(), item, WithKids(m0, item, ts0))
    requires last == Top(ts0, |ts0| - 1)
    requires !h.nodes[item].reference && Pairs(h.View(), ts0, ms0)
    requires i < |s| && s[i] == ',' && ReadingMembers(whole, ms0, Next(i), s)
    modifies h`nodes, h`strings, h`pools, h`top, h`live, h`used, h`free
    ensures h.Valid() && Grown(m0, h.View(), item, WithKids(m0, item, ts)) && n == Top(ts, |ts| - 1)
    ensures item in h.nodes && SameData(old(h.nodes[item]), h.nodes[item])
    ensures ReadingMembers(whole, ms, r, s) && (r.Next? ==> i < r.pos && Pairs(h.View(), ts, ms))
    decreases |s| - i, 0
  {
    ghost var v, t;
    n, r, v, t := ParsePair(h, item, last, s, i + 1, m0, ts0, ms0);
    NextMemberBehind(whole, ms0, s, i, r, v, ThenSkip(Parser.ParseMember(s[i + 1..])));
    ms, ts := ms0 + [v], ts0 + [t];
  }

  /** The test behind the loop. */
  method ClosePair(s: string, r0: Outcome, ghost whole: Parsed<seq<Member>>, ghost ms: seq<Member>) returns (r: Outcome)
    requires ReadingMembers(whole, ms, r0, s) && (r0.Next? ==> Peek(s, r0.pos) != ',')
    ensures Agrees(r, ms, s, whole) && (r.Next? ==> r0.Next?)
  {
    r := r0;
    if r.Next? {
      LastMember(whole, ms, s, r.pos);
      r := if Peek(s, r.pos) == '}' then Next(r.pos + 1) else Failed;
    }
  }

  /** A new child, its key, a colon, and its value with the white space around it. */
  method ParsePair(h: Heap, item: Ptr, last: Ptr, s: string, i: nat, ghost m0: Mem, ghost ts: seq<Tree>,
                   ghost ms: seq<Member>)
    returns (n: Ptr, r: Outcome, ghost v: Member, ghost t: Tree)
    requires h.Valid() && item in m0.nodes && Grown(m0, h.View(), item, WithKids(m0, item, ts))
    requires last == Top(ts, |ts| - 1) && !h.nodes[item].reference && i <= |s| && Pairs(h.View(), ts, ms)
    modifies h`nodes, h`strings, h`pools, h`top, h`live, h`used, h`free
    ensures h.Valid() && Grown(m0, h.View(), item, WithKids(m0, item, ts + [t])) && t.addr == n
    ensures item in h.nodes && SameData(old(h.nodes[item]), h.nodes[item])
    ensures Agrees(r, v, s, ThenSkip(Parser.ParseMember(s[i..])))
    ensures r.Next? ==> i < r.pos && Pairs(h.View(), ts + [t], ms + [v])
    decreases |s| - i, 4
  {
    n := AddChild(h, item, last, m0, ts);
    ghost var m := h.View();
    LinkKeepsData(m0, old(h.View()), m, item, ts, n);
    r, v, t := ParseMemberInto(h, item, m0, ts, n, s, i);
    KeepsTwice(old(h.View()), m, h.View(), ts);
    if r.Next? {
      FramePairs(old(h.View()), h.View(), ts, ms);
      OnePairMore(h.View(), ts, ms, t, v);
    }
  }

  lemma OnePairMore(m: Mem, ts: seq<Tree>, ms: seq<Member>, t: Tree, v: Member)
    requires Pairs(m, ts, ms) && IsMember(m, t, v)
    ensures Pairs(m, ts + [t], ms + [v])
  {
  }

  /** Key, colon and value of one member. */
  method ParseMemberInto(h: Heap, item: Ptr, ghost m0: Mem, ghost ts: seq<Tree>, n: Ptr, s: string, i: nat)
    returns (r: Outcome, ghost v: Member, ghost t: Tree)
    requires h.Valid() && item in m0.nodes && i <= |s|
    requires Grown(m0, h.View(), item, WithKids(m0, item, ts + [Tree(n, NoRef, NoRef, [])]))
    requires LastIsBlank(h.View(), item, ts, Tree(n, NoRef, NoRef, []))
    modifies h`nodes, h`strings, h`pools, h`top, h`live, h`used, h`free
    ensures h.Valid() && Grown(m0, h.View(), item, WithKids(m0, item, ts + [t])) && t.addr == n
    ensures KeepsData(old(h.View()), h.View(), ts)
    ensures item in h.nodes && item in old(h.nodes) && SameData(old(h.nodes[item]), h.nodes[item])
    ensures Agrees(r, v, s, ThenSkip(Parser.ParseMember(s[i..])))
    ensures r.Next? ==> i < r.pos && IsMember(h.View(), t, v)
    decreases |s| - i, 3
  {
    var name, j;
    r, name, j, t := ParseKeyAndColon(h, item, m0, ts, n, s, i);
    v := Member(name, Value.Null);
    if r.Next? {
      ghost var m, u, value := h.View(), t, Value.Null;
      r, value, t := ParseInto(h, item, m0, ts, n, u, s, j);
      KeepsTwice(old(h.View()), m, h.View(), ts);
      WholeMember(s, i, name, j, r, value);
      v := Member(name, value);
    }
  }

  method ParseKeyAndColon(h: Heap, item: Ptr, ghost m0: Mem, ghost ts: seq<Tree>, n: Ptr, s: string, i: nat)
    returns (r: Outcome, name: string, j: nat, ghost u: Tree)
    requires h.Valid() && item in m0.nodes && i <= |s|
    requires Grown(m0, h.View(), item, WithKids(m0, item, ts + [Tree(n, NoRef, NoRef, [])]))
    requires LastIsBlank(h.View(), item, ts, Tree(n, NoRef, NoRef, []))
    modifies h`nodes, h`strings, h`top
    ensures h.Valid() && u.addr == n && Grown(m0, h.View(), item, WithKids(m0, item, ts + [u]))
    ensures LastIsBlank(h.View(), item, ts, u) && KeepsData(old(h.View()), h.View(), ts)
    ensures item in h.nodes && item in old(h.nodes) && SameData(old(h.nodes[item]), h.nodes[item])
    ensures !r.Next? ==> ThenSkip(Parser.ParseMember(s[i..])) == if r.Failed? then Fail else Malformed
    ensures r.Next? ==> i < j && MemberHead(s, i, name, j) && Holds(h.strings, u.name, name)
  {
    var p := SkipBlanks(s, i);
    r, name, u := ParseKey(h, item, m0, ts, n, s, p);
    r, j := FindColon(s, i, p, name, r);
  }

  /** The colon behind a key that has been read from p to r. */
  method FindColon(s: string, i: nat, p: nat, ghost name: string, r0: Outcome) returns (r: Outcome, j: nat)
    requires i <= p <= |s| && s[p..] == Parser.Skip(s[i..]) && Agrees(r0, name, s, ParseString(s[p..]))
    ensures !r.Next? ==> ThenSkip(Parser.ParseMember(s[i..])) == if r.Failed? then Fail else Malformed
    ensures r.Next? ==> r0.Next? && i < j && MemberHead(s, i, name, j)
  {
    r, j := r0, i;
    if !r.Next? {
      NoKey(s, i, p, r, name);
      return;
    }
    var q := SkipBlanks(s, r.pos);
    if Peek(s, q) != ':' {
      NoColon(s, i, p, name, r.pos, q);
      r := Failed;
    } else {
      j := q + 1;
      KeyAndColon(s, i, p, name, r.pos, q, j);
    }
  }

  /** The member from i on has this name, and its value follows from j on. */
  ghost predicate MemberHead(s: string, i: nat, name: string, j: nat) {
    && i < j <= |s|
    && var whole, value := Parser.ParseMember(s[i..]), Parser.ParseValue(Parser.Skip(s[j..]));
       && whole.Done? == value.Done? && whole.Fail? == value.Fail?
       && (whole.Done? ==> whole.value == Member(name, value.value) && whole.rest == value.rest)
  }

  lemma NoKey(s: string, i: nat, p: nat, r: Outcome, name: string)
    requires i <= p <= |s| && s[p..] == Parser.Skip(s[i..]) && !r.Next? && Agrees(r, name, s, ParseString(s[p..]))
    ensures ThenSkip(Parser.ParseMember(s[i..])) == if r.Failed? then Fail else Malformed
  {
  }

  lemma NoColon(s: string, i: nat, p: nat, name: string, k: nat, q: nat)
    requires i <= p <= |s| && s[p..] == Parser.Skip(s[i..]) && Agrees(Next(k), name, s, ParseString(s[p..]))
    requires q <= |s| && s[q..] == Parser.Skip(s[k..]) && Peek(s, q) != ':'
    ensures ThenSkip(Parser.ParseMember(s[i..])) == Fail
  {
    if q < |s| {
      Ahead(s, q);
    }
  }

  lemma KeyAndColon(s: string, i: nat, p: nat, name: string, k: nat, q: nat, j: nat)
    requires i <= p <= |s| && s[p..] == Parser.Skip(s[i..]) && Agrees(Next(k), name, s, ParseString(s[p..]))
    requires k <= q < |s| && s[q..] == Parser.Skip(s[k..]) && s[q] == ':' && j == q + 1
    ensures MemberHead(s, i, name, j)
  {
    Ahead(s, q);
  }

  lemma WholeMember(s: string, i: nat, name: string, j: nat, r: Outcome, value: Value)
    requires MemberHead(s, i, name, j) && Agrees(r, value, s, ThenSkip(Parser.ParseValue(Parser.Skip(s[j..]))))
    ensures Agrees(r, Member(name, value), s, ThenSkip(Parser.ParseMember(s[i..])))
  {
  }

  // ---- cJSON_Parse ----

  /** A tree of its own: every node in one pool, which counts exactly these nodes. */
  ghost predicate Alone(m: Mem, m': Mem, t: Tree, p: int) {
    && Cells(t) !! m.live && m'.live == m.live + Cells(t)
    && Texts(t) !! m.strings.Keys && m'.strings.Keys == m.strings.Keys + Texts(t)
    && (forall k <- m.strings :: m'.strings[k] == m.strings[k])
    && (forall n <- Cells(t) :: InPool(n, p))
    && p !in m.pools && p in m'.pools && m'.pools[p].refcount == |Cells(t)| && m'.pools - {p} == m.pools
  }

  /** Every node in use keeps its contents. */
  ghost predicate KeepsNodes(m: Mem, m': Mem) {
    forall n <- m.live :: n in m.nodes && n in m'.nodes && m'.nodes[n] == m.nodes[n]
  }

  /** A parsed document: such a tree, well linked, without a name, in no list, and nothing else changed. */
  ghost predicate Document(m: Mem, m': Mem, t: Tree, p: int) {
    && Alone(m, m', t, p) && KeepsNodes(m, m') && Owns(m'.nodes, t) && Disjoint(t)
    && m'.nodes[t.addr].next == Nil && m'.nodes[t.addr].prev == Nil && t.name == NoRef
  }

  /** The new pool and its first item, seen as a step from m0 to m. */
  ghost predicate RootMade(m0: Mem, m: Mem, p: int, c: Ptr) {
    && p !in m0.pools && m.pools.Keys == m0.pools.Keys + {p} && (forall q <- m0.pools :: m.pools[q] == m0.pools[q])
    && c != Nil && InPool(c, p) && c !in m0.live && m.live == m0.live + {c} && m.strings == m0.strings
    && c in m.nodes && m.nodes[c] == ZERO.(pool := Ref(p))
    && forall n <- m0.live :: n in m0.nodes && n in m.nodes && m.nodes[n] == m0.nodes[n]
  }

  lemma RootGrew(m0: Mem, m: Mem, m': Mem, p: int, c: Ptr, t: Tree)
    requires Consistent(m0) && Consistent(m') && RootMade(m0, m, p, c) && Grown(m, m', c, t)
    ensures Document(m0, m', t, p)
  {
    GrownMeans(m, m', c, t);
    RootCells(m0, m, m', p, c, t);
    RootTexts(m, m', c, t);
    RootPools(m0, m, m', p, c, t);
    PoolIsTree(m0, m', t, p);
  }

  lemma RootCells(m0: Mem, m: Mem, m': Mem, p: int, c: Ptr, t: Tree)
    requires RootMade(m0, m, p, c) && Grown(m, m', c, t)
    ensures Cells(t) !! m0.live && m'.live == m0.live + Cells(t) && (forall n <- Cells(t) :: InPool(n, p))
    ensures c !in CellsAll(t.kids)
  {
    GrownMeans(m, m', c, t);
    assert Cells(t) == {c} + CellsAll(t.kids);
  }

  lemma RootTexts(m: Mem, m': Mem, c: Ptr, t: Tree)
    requires Grown(m, m', c, t) && m.nodes[c].name == NoRef
    ensures Texts(t) !! m.strings.Keys && m'.strings.Keys == m.strings.Keys + Texts(t) && Disjoint(t)
    ensures t.name == NoRef
  {
    GrownMeans(m, m', c, t);
    assert t.name == NoRef && Texts(t) == RefSet(t.text) + TextsAll(t.kids);
  }

  lemma RootPools(m0: Mem, m: Mem, m': Mem, p: int, c: Ptr, t: Tree)
    requires RootMade(m0, m, p, c) && Grown(m, m', c, t)
    ensures p in m'.pools && m'.pools - {p} == m0.pools
  {
    GrownMeans(m, m', c, t);
    assert forall q <- m0.pools :: !InPool(c, q) && q in m.pools;
    assert forall q <- m0.pools :: q in m'.pools && m'.pools[q] == m0.pools[q];
    assert m'.pools.Keys - {p} == m0.pools.Keys;
  }

  lemma PoolIsTree(m0: Mem, m: Mem, t: Tree, p: int)
    requires Consistent(m0) && Consistent(m) && p !in m0.pools && p in m.pools
    requires m.live == m0.live + Cells(t) && forall n <- Cells(t) :: InPool(n, p)
    ensures m.pools[p].refcount == |Cells(t)|
  {
    assert PoolOk(m, p);
    forall n <- m0.live ensures !InPool(n, p) {
      PlacedInPool(m0, n);
    }
    forall n <- Cells(t) ensures n in m.used[p] {
      assert Placed(m, n);
    }
    assert m.used[p] == Cells(t);
  }

  /** Deleting the tree again leaves the memory as it was before the pool. */
  lemma DeletedAlone(m0: Mem, m: Mem, m': Mem, t: Tree, p: int)
    requires Consistent(m0) && Document(m0, m, t, p) && GivenBack(m, m', Cells(t), Texts(t))
    ensures Restored(m0, m')
  {
    DeletedTexts(m0.strings, m.strings, m'.strings, Texts(t));
    assert m'.live == m0.live;
    DeletedPool(m0, m, m', t, p);
  }

  lemma DeletedTexts(strings0: map<int, string>, strings: map<int, string>, strings': map<int, string>, texts: set<int>)
    requires texts !! strings0.Keys && strings.Keys == strings0.Keys + texts && strings' == strings - texts
    requires forall k <- strings0 :: strings[k] == strings0[k]
    ensures strings' == strings0
  {
    forall k | k in strings' || k in strings0 ensures k in strings' && k in strings0 && strings'[k] == strings0[k] {
      assert k in strings'.Keys <==> k in strings0.Keys;
      assert k in strings0.Keys && k !in texts && k in strings;
    }
  }

  lemma DeletedPool(m0: Mem, m: Mem, m': Mem, t: Tree, p: int)
    requires Consistent(m0) && Alone(m0, m, t, p) && Released(m.pools, Cells(t), m'.pools, m'.live)
    requires m'.live == m0.live
    ensures m'.pools == m0.pools
  {
    assert t.addr in Cells(t) && InPool(t.addr, p);
    assert PoolReleased(m.pools, Cells(t), m'.pools, m'.live, p);
    forall n <- m0.live ensures !InPool(n, p) {
      PlacedInPool(m0, n);
    }
    OtherPoolsKept(m0.pools, m.pools, m'.pools, p, Cells(t), m'.live);
  }

  lemma OtherPoolsKept(pools0: map<int, Pool>, pools: map<int, Pool>, pools': map<int, Pool>, p: int, cells: set<Ptr>,
                       live: set<Ptr>)
    requires p !in pools0 && pools - {p} == pools0 && Released(pools, cells, pools', live) && p !in pools'
    requires forall n <- cells :: InPool(n, p)
    ensures pools' == pools0
  {
    forall q <- pools0 ensures q in pools' && pools'[q] == pools0[q] {
      assert q in pools && pools[q] == (pools - {p})[q];
      assert PoolReleased(pools, cells, pools', live, q);
    }
    assert pools'.Keys == pools0.Keys;
  }

  /** The root: a new pool and its first item. */
  method NewRoot(h: Heap) returns (c: Ptr, p: int)
    requires h.Valid()
    modifies h`nodes, h`pools, h`top, h`live, h`used, h`free, h`created
    ensures h.created == old(h.created) + {p} && p !in old(h.created)
    ensures h.Valid() && RootMade(old(h.View()), h.View(), p, c)
  {
    p := h.NewPool();
    ghost var m1 := h.View();
    c := h.PoolNewItem(p);
    FirstItem(old(h.View()), m1, h.View(), p, c);
  }

  lemma FirstItem(m0: Mem, m1: Mem, m: Mem, p: int, c: Ptr)
    requires m0.live <= m0.nodes.Keys && m1.nodes == m0.nodes && m1.live == m0.live && m1.strings == m0.strings
    requires p !in m0.pools && m1.pools == m0.pools[p := Pool(0, 0, Nil)] && m.pools.Keys == m1.pools.Keys
    requires c != Nil && InPool(c, p) && c !in m1.live && m.live == m1.live + {c} && m.live <= m.nodes.Keys
    requires m.strings == m1.strings && m.nodes[c] == ZERO.(pool := Ref(p))
    requires forall k <- m1.live :: m.nodes[k] == m1.nodes[k]
    requires forall q <- m1.pools | q != p :: m.pools[q] == m1.pools[q]
    ensures RootMade(m0, m, p, c)
  {
    assert m.pools.Keys == m0.pools.Keys + {p};
  }

  /** cJSON_Parse: a tree in a pool of its own, or nothing at all. */
  method Parse(h: Heap, s: string) returns (r: Outcome, c: Ptr, ghost v: Value, ghost t: Tree, ghost p: int)
    requires h.Valid()
    modifies h
    ensures h.Valid() && Agrees(r, v, s, Parser.Parse(s)) && (c != Nil <==> r.Next?)
    ensures p !in old(h.created) && h.created == old(h.created) + {p}
    ensures r.Next? ==> c == t.addr && Document(old(h.View()), h.View(), t, p) && Read(h.View(), t, v)
    ensures r.Failed? ==> Restored(old(h.View()), h.View())
  {
    ghost var spec := Parser.Parse(s);
    r, c, v, t, p := BuildRoot(h, s, spec);
    ghost var created := h.created;
    if !r.Next? {
      DeleteRoot(h, c, old(h.View()), t, p);
      assert h.created == created;
      c := Nil;
    }
  }

  /** The tree is the value; the elements of an array have no names. */
  ghost predicate Read(m: Mem, t: Tree, v: Value) { Is(m.nodes, m.strings, t, v) && (v.Array? ==> NoNames(t.kids)) }

  /** Nodes, strings and pools in use are what they were. */
  ghost predicate Restored(m: Mem, m': Mem) {
    m'.live == m.live && m'.strings == m.strings && m'.pools == m.pools && KeepsNodes(m, m')
  }

  method BuildRoot(h: Heap, s: string, ghost spec: Parsed<Value>)
    returns (r: Outcome, c: Ptr, ghost v: Value, ghost t: Tree, ghost p: int)
    requires h.Valid() && spec == Parser.Parse(s)
    modifies h`nodes, h`strings, h`pools, h`top, h`live, h`used, h`free, h`created
    ensures h.Valid() && Agrees(r, v, s, spec) && c == t.addr && c != Nil
    ensures p !in old(h.created) && h.created == old(h.created) + {p}
    ensures Document(old(h.View()), h.View(), t, p) && (r.Next? ==> Read(h.View(), t, v))
  {
    c, p := NewRoot(h);
    ghost var m := h.View();
    var i := SkipBlanks(s, 0);
    assert s[0..] == s;
    r, v, t := ParseValue(h, c, s, i);
    RootGrew(old(h.View()), m, h.View(), p, c, t);
  }

  /** cJSON_Delete on a parsed document leaves the memory as it was before. */
  method DeleteRoot(h: Heap, c: Ptr, ghost m0: Mem, ghost t: Tree, ghost p: int)
    requires h.Valid() && Consistent(m0) && Document(m0, h.View(), t, p) && c == t.addr
    modifies h`nodes, h`strings, h`pools, h`live, h`used, h`free, h`freed, h`destroyed
    ensures h.Valid() && Restored(m0, h.View())
  {
    OnlyTree(h.nodes, t);
    Delete(h, c, [t]);
    DeletedAlone(m0, old(h.View()), h.View(), t, p);
  }
}
