/** encode_profile and decode_profile of c/bincoding/bincoding.c on cJSON nodes in memory. */
module ProfileCode {
  import opened Json
  import opened NumberText
  import opened StringText
  import opened Memory
  import opened Heaps
  import opened Trees
  import opened HeapTrees
  import opened ChildLists
  import opened Creation
  import opened ObjectKeys
  import opened Profiles
  import B = Base64
  import P = Printer
  import Parser
  import HeapParser
  import BufferPrinter

  // ---- an object under construction ----

  /** The tree is the object with these members, and can be extended. */
  ghost predicate ObjectIs(m: Mem, a: Tree, ms: seq<Member>) {
    List(m, a) && m.nodes[a.addr].kind == Kind.Object && Pairs(m, a.kids, ms)
  }

  lemma MadeLeavesObject(m: Mem, m': Mem, t: Tree, v: Value, a: Tree, ms: seq<Member>)
    requires Made(m, m', t, v) && ObjectIs(m, a, ms)
    ensures ObjectIs(m', a, ms) && Apart(a, t)
  {
    assert a.addr in Cells(a);
    FrameTree(m.nodes, m'.nodes, a);
    assert CellsAll(a.kids) <= Cells(a) && TextsAll(a.kids) <= Texts(a);
    FramePairs(m, m', a.kids, ms);
  }

  /** `cJSON_AddItemToObject(json, key, val)` with a value that has just been made. */
  method AddMember(h: Heap, obj: Ptr, key: string, item: Ptr, ghost m0: Mem, ghost a: Tree, ghost t: Tree,
                   ghost ms: seq<Member>, ghost v: Value)
    returns (ghost b: Tree)
    requires h.Valid() && obj == a.addr && item == t.addr && ObjectIs(h.View(), a, ms) && CString(key) == key
    requires Loose(h.View(), t) && t.name == NoRef && Apart(a, t) && Is(h.nodes, h.strings, t, v)
    requires ExtendsBoth(m0, h.View(), a, t)
    modifies h`nodes, h`strings, h`top
    ensures h.Valid() && b.addr == obj && ObjectIs(h.View(), b, ms + [Member(key, v)]) && Extends(m0, h.View(), b)
  {
    ghost var m := h.View();
    assert Nil in m.live ==> Placed(m, Nil);
    ghost var p := AddItemToObject(h, obj, key, item, a, t);
    b := WithList(a, a.kids + [Renamed(t, p)]);
    MemberAdded(m, h.View(), a, t, p, key, ms, v);
    MemberExtends(m0, m, h.View(), a, t, p, key);
  }

  /** The object and the new value are what is new since m0. */
  ghost predicate ExtendsBoth(m0: Mem, m: Mem, a: Tree, t: Tree) {
    && Cells(a) + Cells(t) !! m0.live && m.live == m0.live + Cells(a) + Cells(t)
    && Texts(a) + Texts(t) !! m0.strings.Keys && m.strings.Keys == m0.strings.Keys + Texts(a) + Texts(t)
    && HeapParser.KeepsNodes(m0, m) && (forall s <- m0.strings :: m.strings[s] == m0.strings[s]) && m.pools == m0.pools
  }

  lemma ExtendsTwice(m0: Mem, m: Mem, m': Mem, a: Tree, t: Tree)
    requires Extends(m0, m, a) && Extends(m, m', t)
    ensures ExtendsBoth(m0, m', a, t)
  {
  }

  lemma MemberExtends(m0: Mem, m: Mem, m': Mem, a: Tree, t: Tree, p: int, key: string)
    requires ExtendsBoth(m0, m, a, t) && List(m, a) && t.name == NoRef && Joins(m, m', a, t) && Nil !in m.live
    requires m'.live == m.live && m'.pools == m.pools && p !in m.strings
    requires m'.strings == (m.strings - RefSet(t.name))[p := CString(key)]
    ensures Extends(m0, m', WithList(a, a.kids + [Renamed(t, p)]))
  {
    MemberSets(a, t, p);
    LastInside(m, a);
    NodesKept(m0, m, m', a, t);
    NameAdded(m.strings, m'.strings, RefSet(t.name), p, CString(key));
  }

  lemma LastInside(m: Mem, a: Tree)
    requires List(m, a)
    ensures a.kids == [] || Top(a.kids, |a.kids| - 1) in Cells(a)
  {
    if a.kids != [] {
      OnList(m.nodes, a, |a.kids| - 1);
    }
  }

  /** Without an old name to free, the strings are the old ones and the new name. */
  lemma NameAdded(strings: map<int, string>, strings': map<int, string>, gone: set<int>, p: int, text: string)
    requires gone == {} && strings' == (strings - gone)[p := text] && p !in strings
    ensures strings'.Keys == strings.Keys + {p} && strings'[p] == text
    ensures forall k <- strings :: strings'[k] == strings[k]
  {
    assert strings - gone == strings;
  }

  lemma MemberSets(a: Tree, t: Tree, p: int)
    requires t.name == NoRef
    ensures var b := WithList(a, a.kids + [Renamed(t, p)]);
            Cells(b) == Cells(a) + Cells(t) && Texts(b) == Texts(a) + Texts(t) + {p}
  {
    AppendSets(a, Renamed(t, p));
    assert Texts(Renamed(t, p)) == Texts(t) + {p};
  }

  lemma NodesKept(m0: Mem, m: Mem, m': Mem, a: Tree, t: Tree)
    requires ExtendsBoth(m0, m, a, t) && Joins(m, m', a, t) && Nil !in m.live
    requires a.kids == [] || Top(a.kids, |a.kids| - 1) in Cells(a)
    ensures HeapParser.KeepsNodes(m0, m')
  {
    assert t.addr in Cells(t) && a.addr in Cells(a);
    forall n <- m0.live ensures n in m0.nodes && n in m'.nodes && m'.nodes[n] == m0.nodes[n] {
      assert n in m.live && n !in Cells(a) + Cells(t);
    }
  }

  lemma MemberAdded(m: Mem, m': Mem, a: Tree, t: Tree, p: int, key: string, ms: seq<Member>, v: Value)
    requires List(m, a) && Pairs(m, a.kids, ms) && Mine(m, t) && t.name == NoRef && Is(m.nodes, m.strings, t, v)
    requires p !in m.strings && m'.strings == (m.strings - RefSet(t.name))[p := CString(key)] && CString(key) == key
    requires m.nodes[a.addr].kind == Kind.Object && Joins(m, m', a, t)
    requires List(m', WithList(a, a.kids + [Renamed(t, p)]))
    ensures ObjectIs(m', WithList(a, a.kids + [Renamed(t, p)]), ms + [Member(key, v)])
  {
    NameAdded(m.strings, m'.strings, RefSet(t.name), p, CString(key));
    FramePairs(m, m', a.kids, ms);
    FrameIs(m, m', t, v);
    RenamedIs(m', t, p, v);
    assert IsMember(m', Renamed(t, p), Member(key, v));
  }

  /** The name of a node plays no part in what it is. */
  lemma RenamedIs(m: Mem, t: Tree, p: int, v: Value)
    requires Is(m.nodes, m.strings, t, v)
    ensures Is(m.nodes, m.strings, Renamed(t, p), v)
  {
  }

  method AddString(h: Heap, obj: Ptr, key: string, s: string, ghost m0: Mem, ghost a: Tree, ghost ms: seq<Member>)
    returns (ghost b: Tree)
    requires h.Valid() && obj == a.addr && ObjectIs(h.View(), a, ms) && Extends(m0, h.View(), a)
    requires CString(key) == key && CString(s) == s
    modifies h`nodes, h`strings, h`pools, h`top, h`live, h`used, h`free
    ensures h.Valid() && b.addr == obj && ObjectIs(h.View(), b, ms + [Member(key, Value.String(s))])
    ensures Extends(m0, h.View(), b)
  {
    ghost var m := h.View();
    var val;
    ghost var t;
    val, t := CreateString(h, s);
    MadeLeavesObject(m, h.View(), t, Value.String(s), a, ms);
    ExtendsTwice(m0, m, h.View(), a, t);
    b := AddMember(h, obj, key, val, m0, a, t, ms, Value.String(s));
  }

  method AddNumber(h: Heap, obj: Ptr, key: string, num: real, ghost m0: Mem, ghost a: Tree, ghost ms: seq<Member>)
    returns (ghost b: Tree)
    requires h.Valid() && obj == a.addr && ObjectIs(h.View(), a, ms) && Extends(m0, h.View(), a) && CString(key) == key
    modifies h`nodes, h`strings, h`pools, h`top, h`live, h`used, h`free
    ensures h.Valid() && b.addr == obj && ObjectIs(h.View(), b, ms + [Member(key, Value.Number(num))])
    ensures Extends(m0, h.View(), b)
  {
    ghost var m := h.View();
    var val;
    ghost var t;
    val, t := CreateNumber(h, num);
    MadeLeavesObject(m, h.View(), t, Value.Number(num), a, ms);
    ExtendsTwice(m0, m, h.View(), a, t);
    b := AddMember(h, obj, key, val, m0, a, t, ms, Value.Number(num));
  }

  // ---- encode_profile ----

  /** The members appended one by one, each only if there is something to store. */
  method AddMembers(h: Heap, obj: Ptr, p: Profile, ghost m0: Mem, ghost a0: Tree) returns (ghost a: Tree)
    requires h.Valid() && obj == a0.addr && ObjectIs(h.View(), a0, []) && Extends(m0, h.View(), a0)
    requires p.name.Some? ==> CString(p.name.value) == p.name.value
    modifies h`nodes, h`strings, h`pools, h`top, h`live, h`used, h`free
    ensures h.Valid() && a.addr == obj && ObjectIs(h.View(), a, ProfileMembers(p)) && Extends(m0, h.View(), a)
  {
    a := AddName(h, obj, p, m0, a0);
    a := AddAge(h, obj, p, m0, a);
    a := AddAvatar(h, obj, p, m0, a);
  }

  method AddName(h: Heap, obj: Ptr, p: Profile, ghost m0: Mem, ghost a0: Tree) returns (ghost a: Tree)
    requires h.Valid() && obj == a0.addr && ObjectIs(h.View(), a0, []) && Extends(m0, h.View(), a0)
    requires p.name.Some? ==> CString(p.name.value) == p.name.value
    modifies h`nodes, h`strings, h`pools, h`top, h`live, h`used, h`free
    ensures h.Valid() && a.addr == obj && ObjectIs(h.View(), a, NameMembers(p)) && Extends(m0, h.View(), a)
  {
    a := a0;
    if p.name.Some? {
      KeysAreTexts();
      a := AddString(h, obj, "name", p.name.value, m0, a, []);
      assert [] + NameMembers(p) == NameMembers(p);
    }
  }

  method AddAge(h: Heap, obj: Ptr, p: Profile, ghost m0: Mem, ghost a0: Tree) returns (ghost a: Tree)
    requires h.Valid() && obj == a0.addr && ObjectIs(h.View(), a0, NameMembers(p)) && Extends(m0, h.View(), a0)
    modifies h`nodes, h`strings, h`pools, h`top, h`live, h`used, h`free
    ensures h.Valid() && a.addr == obj && ObjectIs(h.View(), a, NameMembers(p) + AgeMembers(p))
    ensures Extends(m0, h.View(), a)
  {
    a := a0;
    if p.age != 0 {
      KeysAreTexts();
      a := AddNumber(h, obj, "age", p.age as real, m0, a, NameMembers(p));
    } else {
      assert NameMembers(p) + [] == NameMembers(p);
    }
  }

  method AddAvatar(h: Heap, obj: Ptr, p: Profile, ghost m0: Mem, ghost a0: Tree) returns (ghost a: Tree)
    requires h.Valid() && obj == a0.addr && ObjectIs(h.View(), a0, NameMembers(p) + AgeMembers(p))
    requires Extends(m0, h.View(), a0)
    modifies h`nodes, h`strings, h`pools, h`top, h`live, h`used, h`free
    ensures h.Valid() && a.addr == obj && ObjectIs(h.View(), a, ProfileMembers(p)) && Extends(m0, h.View(), a)
  {
    a := a0;
    if p.avatar.Some? && p.avatar.value != [] {
      KeysAreTexts();
      AvatarIsText(p.avatar.value);
      a := AddString(h, obj, "avatar", B.Encode(p.avatar.value), m0, a, NameMembers(p) + AgeMembers(p));
    } else {
      assert ProfileMembers(p) == NameMembers(p) + AgeMembers(p);
    }
  }

  lemma KeysAreTexts()
    ensures CString("name") == "name" && CString("age") == "age" && CString("avatar") == "avatar"
  {
    CStringWithoutNul("name");
    CStringWithoutNul("age");
    CStringWithoutNul("avatar");
  }

  lemma AvatarIsText(bytes: seq<B.Byte>)
    ensures CString(B.Encode(bytes)) == B.Encode(bytes)
  {
    B.NotEscaped(bytes);
    CStringWithoutNul(B.Encode(bytes));
  }

  /** encode_profile: the text is that of Profiles.Encode. The nodes it builds are never deleted: exactly the
      tree of the profile stays behind, and all that was in use before is as it was. */
  method EncodeProfile(h: Heap, p: Profile) returns (out: array<char>, ghost a: Tree)
    requires h.Valid() && Int32(p.age) && (p.name.Some? ==> BufferPrinter.NulFree(p.name.value))
    modifies h`nodes, h`strings, h`pools, h`top, h`live, h`used, h`free
    ensures h.Valid() && BufferPrinter.HoldsText(out, Encode(p))
    ensures Extends(old(h.View()), h.View(), a) && ObjectIs(h.View(), a, ProfileMembers(p))
  {
    if p.name.Some? {
      CStringWithoutNul(p.name.value);
    }
    var json;
    ghost var a0;
    json, a0 := CreateObject(h);
    a := AddMembers(h, json, p, old(h.View()), a0);
    ProfilePrintable(p);
    ProfileCStrings(p);
    ObjectPrints(h, json, a, ProfileMembers(p));
    out := BufferPrinter.PrintUnformatted(h, json, a, ProfileValue(p));
  }

  lemma ProfileCStrings(p: Profile)
    requires p.name.Some? ==> BufferPrinter.NulFree(p.name.value)
    ensures BufferPrinter.CStrings(ProfileValue(p))
  {
    if p.avatar.Some? {
      B.NotEscaped(p.avatar.value);
    }
    var ms := ProfileMembers(p);
    forall i | 0 <= i < |ms| ensures BufferPrinter.NulFree(ms[i].name) && BufferPrinter.CStrings(ms[i].value) {
    }
  }

  lemma ObjectPrints(h: Heap, item: Ptr, a: Tree, ms: seq<Member>)
    requires item == a.addr && ObjectIs(h.View(), a, ms) && P.Printable(Value.Object(ms))
    requires BufferPrinter.CStrings(Value.Object(ms))
    ensures BufferPrinter.Prints(h, item, a, Value.Object(ms))
  {
    forall i | 0 <= i < |ms| ensures IsMember(h.View(), a.kids[i], ms[i]) {
    }
  }

  // ---- decode_profile ----

  /** The parsed text read back from memory: the members of an object with their keys, and no keys in any other
      value. */
  ghost predicate Parsed(m: Mem, t: Tree, v: Value) {
    List(m, t) && Is(m.nodes, m.strings, t, v) && (v.Array? ==> HeapParser.NoNames(t.kids))
  }

  lemma {:induction false} NoKeyFound(ks: seq<Key>, key: string)
    requires forall i | 0 <= i < |ks| :: ks[i] == NoKey
    ensures Find(ks, Key(key)) == |ks|
  {
    if ks == [] {
    } else {
      NoKeyFound(ks[1..], key);
    }
  }

  /** Lookup in memory finds what lookup in the value finds. */
  lemma LookupAgrees(m: Mem, t: Tree, v: Value, key: string)
    requires Parsed(m, t, v)
    ensures var i := Find(Keys(m, t.kids), Key(key));
            && (Get(v, key).None? <==> i == |t.kids|)
            && (Get(v, key).Some? ==> Is(m.nodes, m.strings, t.kids[i], Get(v, key).value))
  {
    var i := Find(Keys(m, t.kids), Key(key));
    GetIsFind(Members(v), key);
    if v.Object? {
      forall j | 0 <= j < |t.kids| ensures Keys(m, t.kids)[j] == Names(v.members)[j] {
        assert Holds(m.strings, t.kids[j].name, v.members[j].name);
      }
      assert Keys(m, t.kids) == Names(v.members);
    } else {
      NoKeyFound(Keys(m, t.kids), key);
    }
  }

  /** `val = cJSON_GetObjectItem(json, key); if (val && val->type == cJSON_String) ... val->valuestring` */
  method GetString(h: Heap, json: Ptr, key: string, ghost t: Tree, ghost v: Value) returns (s: B.Option<string>)
    requires json == t.addr && Parsed(h.View(), t, v)
    ensures s == TextOf(v, key)
  {
    var val := GetObjectItem(h, json, Key(key), t);
    s := B.None;
    LookupAgrees(h.View(), t, v, key);
    ghost var i := Find(Keys(h.View(), t.kids), Key(key));
    if i < |t.kids| {
      KidIsMine(h.View(), t, i);
    }
    if val != Nil && h.nodes[val].kind == Kind.String {
      s := B.Some(h.strings[h.nodes[val].valuestring.id]);
    }
  }

  /** `... if (val && val->type == cJSON_Number) ... val->valueint` */
  method GetNumber(h: Heap, json: Ptr, key: string, ghost t: Tree, ghost v: Value) returns (n: int)
    requires json == t.addr && Parsed(h.View(), t, v)
    ensures n == NumberOf(v, key)
  {
    var val := GetObjectItem(h, json, Key(key), t);
    n := 0;
    LookupAgrees(h.View(), t, v, key);
    ghost var i := Find(Keys(h.View(), t.kids), Key(key));
    if i < |t.kids| {
      KidIsMine(h.View(), t, i);
    }
    if val != Nil && h.nodes[val].kind == Kind.Number {
      n := Truncate(h.nodes[val].valuedouble);
    }
  }

  /** The profile read off the nodes. */
  method ReadProfile(h: Heap, json: Ptr, ghost t: Tree, ghost v: Value) returns (d: Profiles.Result)
    requires json == t.addr && Parsed(h.View(), t, v)
    ensures d == DecodeValue(v)
  {
    var name := GetString(h, json, "name", t, v);
    var age := GetNumber(h, json, "age", t, v);
    var text := GetString(h, json, "avatar", t, v);
    d := Assemble(name, age, text);
  }

  /** decode_profile: the profile that Profiles.Decode says, and the memory as it was before. */
  method DecodeProfile(h: Heap, data: string) returns (d: Profiles.Result)
    requires h.Valid()
    modifies h
    ensures h.Valid() && d == Profiles.Decode(data)
    ensures !Parser.Parse(data).Malformed? ==>
              HeapParser.Restored(old(h.View()), h.View())
  {
    var r, json;
    ghost var v, t, p;
    r, json, v, t, p := HeapParser.Parse(h, data);
    d := if r.Failed? then NoProfile else Undetermined;
    if json != Nil {
      AloneIsParsed(old(h.View()), h.View(), t, p, v);
      d := ReadProfile(h, json, t, v);
      HeapParser.DeleteRoot(h, json, old(h.View()), t, p);
    }
  }

  lemma AloneIsParsed(m0: Mem, m: Mem, t: Tree, p: int, v: Value)
    requires HeapParser.Document(m0, m, t, p) && HeapParser.Read(m, t, v)
    ensures Parsed(m, t, v)
  {
  }
}
