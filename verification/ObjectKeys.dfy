/** Keys of objects: cJSON_strcasecmp, lookup, and the operations that name a child. */
module ObjectKeys {
  import opened Sequences
  import opened StringText
  import opened Memory
  import opened Heaps
  import opened Trees
  import opened HeapTrees
  import opened ChildLists

  /** A `char *` that may be null. */
  datatype Key = NoKey | Key(text: string)

  /** tolower in the C locale. */
  function Lower(c: char): char { if 'A' <= c <= 'Z' then c - 'A' + 'a' else c }

  function Fold(s: string): string { if s == "" then "" else [Lower(s[0])] + Fold(s[1..]) }

  lemma {:induction false} FoldBytes(s: string)
    ensures |Fold(s)| == |s| && forall i | 0 <= i < |s| :: Fold(s)[i] == Lower(s[i])
  {
    if s == "" {
    } else {
      FoldBytes(s[1..]);
    }
  }

  /** Two keys are the same: both null, or equal up to case as C strings. An equivalence by its form. */
  function Folded(k: Key): Key { if k.NoKey? then NoKey else Key(Fold(CString(k.text))) }

  predicate Same(a: Key, b: Key) { Folded(a) == Folded(b) }

  /** `s1[i]`, with the NUL at the end. */
  function Byte(s: string, i: nat): char { if i < |s| then s[i] else '\0' }

  lemma {:induction false} CStringBytes(s: string, i: nat)
    requires i <= |CString(s)|
    ensures |CString(s)| <= |s| && Byte(s, i) == Byte(CString(s), i) && (Byte(s, i) == '\0' <==> i == |CString(s)|)
  {
    if s != "" && s[0] != '\0' {
      if i > 0 {
        CStringBytes(s[1..], i - 1);
      } else {
        CStringBytes(s[1..], 0);
      }
    }
  }

  /** cJSON_strcasecmp */
  method StrCaseCmp(s1: Key, s2: Key) returns (r: int)
    ensures r == 0 <==> Same(s1, s2)
  {
    if s1.NoKey? {
      return if s2.NoKey? then 0 else 1;
    }
    if s2.NoKey? {
      return 1;
    }
    r := CompareText(s1.text, s2.text);
  }

  method CompareText(a: string, b: string) returns (r: int)
    ensures r == 0 <==> Fold(CString(a)) == Fold(CString(b))
  {
    var i := 0;
    ghost var s, t := Fold(CString(a)), Fold(CString(b));
    FoldedByte(a, 0);
    FoldedByte(b, 0);
    while Lower(Byte(a, i)) == Lower(Byte(b, i))
      invariant i <= |s| == |CString(a)| && i <= |t| == |CString(b)|
      invariant EqualUpTo(s, t, i) && Lower(Byte(a, i)) == Byte(s, i) && Lower(Byte(b, i)) == Byte(t, i)
      decreases |s| - i
    {
      FoldedByte(a, i);
      FoldedByte(b, i);
      BothGoOn(s, t, i);
      if Byte(a, i) == '\0' {
        return 0;
      }
      i := i + 1;
      FoldedByte(a, i);
      FoldedByte(b, i);
    }
    assert Byte(s, i) != Byte(t, i);
    r := Lower(Byte(a, i)) as int - Lower(Byte(b, i)) as int;
  }

  ghost predicate EqualUpTo(s: string, t: string, i: nat)
    requires i <= |s| && i <= |t|
  {
    forall j | 0 <= j < i :: s[j] == t[j]
  }

  lemma BothGoOn(s: string, t: string, i: nat)
    requires i <= |s| && i <= |t| && EqualUpTo(s, t, i) && Byte(s, i) == Byte(t, i)
    requires (Byte(s, i) == '\0' <==> i == |s|) && (Byte(t, i) == '\0' <==> i == |t|)
    ensures if i == |s| then s == t else i < |t| && EqualUpTo(s, t, i + 1)
  {
  }

  lemma FoldedByte(a: string, i: nat)
    requires i <= |CString(a)|
    ensures var s := Fold(CString(a));
            && |s| == |CString(a)| && Lower(Byte(a, i)) == Byte(s, i)
            && (Byte(a, i) == '\0' <==> i == |s|) && (Byte(s, i) == '\0' <==> i == |s|)
  {
    CStringBytes(a, i);
    FoldBytes(CString(a));
  }

  // ---- lookup ----

  /** The position of the first key that is the same, or the number of keys. */
  function Find(ks: seq<Key>, k: Key): (i: nat)
    ensures i <= |ks|
  {
    if ks == [] || Same(ks[0], k) then 0 else 1 + Find(ks[1..], k)
  }

  /** Position i holds the first key that is the same, or there is none and i is the number of keys. */
  ghost predicate FirstMatch(ks: seq<Key>, k: Key, i: nat) {
    i <= |ks| && (i < |ks| ==> Same(ks[i], k)) && forall j | 0 <= j < i :: !Same(ks[j], k)
  }

  lemma {:induction false} FindFirst(ks: seq<Key>, k: Key)
    ensures FirstMatch(ks, k, Find(ks, k))
  {
    if ks != [] && !Same(ks[0], k) {
      FindFirst(ks[1..], k);
      forall j | 0 <= j < Find(ks, k) ensures !Same(ks[j], k) {
        assert j > 0 ==> ks[1..][j - 1] == ks[j];
      }
    }
  }

  /** Find is the only such position. */
  lemma FindUnique(ks: seq<Key>, k: Key, i: nat)
    requires FirstMatch(ks, k, i)
    ensures Find(ks, k) == i
  {
    FindFirst(ks, k);
  }

  /** What lookup finds under a key, as a list of no or one element. */
  function Lookup<T>(ks: seq<Key>, vs: seq<T>, k: Key): seq<T>
    requires |ks| == |vs|
  {
    if Find(ks, k) < |ks| then [vs[Find(ks, k)]] else []
  }

  /** Detaching by key takes away the first match and exposes the next one. */
  lemma DetachExposesNext(ks: seq<Key>, k: Key)
    requires Find(ks, k) < |ks|
    ensures var i := Find(ks, k); Find(Without(ks, i), k) == i + Find(ks[i + 1..], k)
  {
    var i := Find(ks, k);
    var f := Find(ks[i + 1..], k);
    FindFirst(ks, k);
    FindFirst(ks[i + 1..], k);
    forall j | 0 <= j < i + f ensures !Same(Without(ks, i)[j], k) {
      if j >= i {
        assert Without(ks, i)[j] == ks[i + 1..][j - i];
      }
    }
    if i + f < |ks| - 1 {
      assert Without(ks, i)[i + f] == ks[i + 1..][f];
    }
    FindUnique(Without(ks, i), k, i + f);
  }

  /** Every other key still finds what it found. */
  lemma DetachKeepsOthers<T>(ks: seq<Key>, vs: seq<T>, i: int, k: Key)
    requires |ks| == |vs| && 0 <= i < |ks| && !Same(ks[i], k)
    ensures Lookup(Without(ks, i), Without(vs, i), k) == Lookup(ks, vs, k)
  {
    var f := Find(ks, k);
    var g := if f > i then f - 1 else f;
    FindFirst(ks, k);
    forall j | 0 <= j < g ensures !Same(Without(ks, i)[j], k) {
      assert Without(ks, i)[j] == ks[if j < i then j else j + 1];
    }
    if g < |ks| - 1 {
      assert Without(ks, i)[g] == ks[if g < i then g else g + 1];
    }
    FindUnique(Without(ks, i), k, g);
  }

  /** Replacing by key: the key finds the new value at the old place, every other key what it found. */
  lemma ReplaceIsFound<T>(ks: seq<Key>, vs: seq<T>, name: Key, v: T, k: Key)
    requires |ks| == |vs| && Find(ks, name) < |ks|
    ensures var i := Find(ks, name);
            Lookup(ks[i := name], vs[i := v], k) == if Same(name, k) then [v] else Lookup(ks, vs, k)
  {
    var i := Find(ks, name);
    var f := if Same(name, k) then i else Find(ks, k);
    FindFirst(ks, name);
    FindFirst(ks, k);
    FindUnique(ks[i := name], k, f);
  }

  /** A value added under a key is found unless the key was there before; then the old one still is. */
  lemma AddIsFound<T>(ks: seq<Key>, vs: seq<T>, name: Key, v: T, k: Key)
    requires |ks| == |vs|
    ensures Lookup(ks + [name], vs + [v], k) ==
            if Find(ks, k) == |ks| && Same(name, k) then [v] else Lookup(ks, vs, k)
  {
    var f := if Find(ks, k) == |ks| && !Same(name, k) then |ks| + 1 else Find(ks, k);
    FindFirst(ks, k);
    FindUnique(ks + [name], k, f);
  }

  // ---- objects in memory ----

  /** The `string` of a node. */
  ghost function KeyOf(m: Mem, t: Tree): Key {
    if t.name.Ref? && t.name.id in m.strings then Key(m.strings[t.name.id]) else NoKey
  }

  ghost function Keys(m: Mem, ts: seq<Tree>): (ks: seq<Key>)
    ensures |ks| == |ts| && forall i | 0 <= i < |ts| :: ks[i] == KeyOf(m, ts[i])
  {
    if ts == [] then [] else [KeyOf(m, ts[0])] + Keys(m, ts[1..])
  }

  method NodeKey(h: Heap, c: Ptr, ghost t: Tree) returns (k: Key)
    requires c in h.live && c == t.addr && Mine(h.View(), t)
    ensures k == KeyOf(h.View(), t)
  {
    var r := h.nodes[c].name;
    k := if r.Ref? then Key(h.strings[r.id]) else NoKey;
  }

  /** `while (c && cJSON_strcasecmp(c->string, string)) i++, c = c->next` */
  method FindItem(h: Heap, obj: Ptr, k: Key, ghost a: Tree) returns (i: nat, c: Ptr)
    requires obj == a.addr && List(h.View(), a)
    ensures i == Find(Keys(h.View(), a.kids), k) && c == Top(a.kids, i) && (c == Nil <==> i == |a.kids|)
  {
    ghost var ks := Keys(h.View(), a.kids);
    c, i := h.nodes[obj].child, 0;
    while c != Nil
      invariant i <= |a.kids| && c == Top(a.kids, i) && forall j | 0 <= j < i :: !Same(ks[j], k)
      decreases |a.kids| - i
    {
      KidIsMine(h.View(), a, i);
      var key := NodeKey(h, c, a.kids[i]);
      var d := StrCaseCmp(key, k);
      if d == 0 {
        break;
      }
      c, i := h.nodes[c].next, i + 1;
    }
    if i < |a.kids| {
      KidIsMine(h.View(), a, i);
    }
    FindUnique(ks, k, i);
  }

  lemma KidIsMine(m: Mem, a: Tree, i: int)
    requires List(m, a) && 0 <= i < |a.kids|
    ensures Mine(m, a.kids[i]) && LinkedAt(m.nodes, a.kids, i) && a.kids[i].addr != Nil && a.kids[i].addr in m.live
  {
    OnList(m.nodes, a, i);
    TakeOut(m.nodes, a.kids, i);
    InList(a.kids, i);
    assert a.kids[i].addr in Cells(a.kids[i]);
  }

  /** cJSON_GetObjectItem */
  method GetObjectItem(h: Heap, obj: Ptr, k: Key, ghost a: Tree) returns (c: Ptr)
    requires obj == a.addr && List(h.View(), a)
    ensures c == Top(a.kids, Find(Keys(h.View(), a.kids), k))
  {
    var i;
    i, c := FindItem(h, obj, k, a);
  }

  /** cJSON_DetachItemFromObject: the first match leaves the list. */
  method DetachItemFromObject(h: Heap, obj: Ptr, k: Key, ghost a: Tree) returns (c: Ptr)
    requires h.Valid() && obj == a.addr && List(h.View(), a)
    modifies h`nodes
    ensures h.Valid()
    ensures var i := old(Find(Keys(h.View(), a.kids), k));
            if i == |a.kids| then c == Nil && h.nodes == old(h.nodes)
            else
              var b, t := WithList(a, Without(a.kids, i)), a.kids[i];
              && c == t.addr && List(h.View(), b) && Loose(h.View(), t) && Apart(b, t)
              && LinksOnly(old(h.View()), h.View(), {obj} + Around(a.kids, i))
              && OnlyChild(old(h.View()), h.View(), obj)
              && Keys(h.View(), b.kids) == Without(old(Keys(h.View(), a.kids)), i)
  {
    var i;
    i, c := FindItem(h, obj, k, a);
    if c != Nil {
      c := DetachItemFromArray(h, obj, i, a);
      KeysDetached(old(h.View()), h.View(), a.kids, i);
    }
  }

  /** Keys depend on the names of the trees and on the strings only. */
  lemma KeysDetached(m: Mem, m': Mem, ts: seq<Tree>, i: int)
    requires m'.strings == m.strings && 0 <= i < |ts|
    ensures Keys(m', Without(ts, i)) == Without(Keys(m, ts), i)
  {
  }

  // ---- naming a child ----

  function Renamed(t: Tree, p: int): Tree { Tree(t.addr, t.text, Ref(p), t.kids) }

  /** The item has a new name p; its old one may be gone. */
  ghost predicate Renames(m: Mem, m': Mem, t: Tree, p: int, text: string) {
    && t.addr in m.nodes && m'.nodes == m.nodes[t.addr := m.nodes[t.addr].(name := Ref(p))] && m'.live == m.live
    && p !in m.strings && p in m'.strings && m'.strings[p] == text
    && forall s <- m.strings | s !in RefSet(t.name) :: s in m'.strings && m'.strings[s] == m.strings[s]
  }

  lemma RenamedIsMine(m: Mem, m': Mem, t: Tree, p: int, text: string)
    requires Mine(m, t) && Renames(m, m', t, p, text)
    ensures Mine(m', Renamed(t, p)) && (Loose(m, t) ==> Loose(m', Renamed(t, p)))
    ensures Cells(Renamed(t, p)) == Cells(t) && Texts(Renamed(t, p)) <= Texts(t) + {p}
  {
    RenamedTexts(m, m', t, p, text);
    assert t.addr in Cells(t);
    FrameTrees(m.nodes, m'.nodes, t.kids);
    FrameLinks(m.nodes, m'.nodes, t.kids);
  }

  lemma RenamedTexts(m: Mem, m': Mem, t: Tree, p: int, text: string)
    requires Mine(m, t) && Renames(m, m', t, p, text)
    ensures Texts(Renamed(t, p)) <= Texts(t) + {p} && Texts(Renamed(t, p)) <= m'.strings.Keys && Disjoint(Renamed(t, p))
  {
    assert Texts(Renamed(t, p)) == RefSet(t.text) + {p} + TextsAll(t.kids);
    assert Texts(t) == RefSet(t.text) + RefSet(t.name) + TextsAll(t.kids);
    forall s <- RefSet(t.text) + TextsAll(t.kids) ensures s in m'.strings && s != p {
      assert s in Texts(t) && s in m.strings && s !in RefSet(t.name);
    }
  }

  lemma RenamedLeavesList(m: Mem, m': Mem, a: Tree, t: Tree, p: int, text: string)
    requires List(m, a) && Mine(m, t) && Apart(a, t) && Renames(m, m', t, p, text)
    ensures List(m', a) && Apart(a, Renamed(t, p)) && Keys(m', a.kids) == Keys(m, a.kids)
  {
    RenamedIsMine(m, m', t, p, text);
    Roots(a, t);
    FrameTree(m.nodes, m'.nodes, a);
    forall s <- Texts(a) ensures s in m'.strings && m'.strings[s] == m.strings[s] {
      assert RefSet(t.name) <= Texts(t);
    }
    KeysKept(m, m', a.kids);
    assert TextsAll(a.kids) <= Texts(a);
  }

  lemma {:induction false} KeysKept(m: Mem, m': Mem, ts: seq<Tree>)
    requires forall s <- TextsAll(ts) :: s in m.strings && s in m'.strings && m'.strings[s] == m.strings[s]
    ensures Keys(m', ts) == Keys(m, ts)
  {
    if ts == [] {
    } else {
      assert RefSet(ts[0].name) <= Texts(ts[0]);
      KeysKept(m, m', ts[1..]);
    }
  }

  /** Of the nodes only `list`, the last child and the item have changed: the list in `child`, the last child
      in its links, the item in its links and its name. */
  ghost predicate Joins(m: Mem, m': Mem, a: Tree, t: Tree) {
    && m'.nodes.Keys == m.nodes.Keys && OnlyChild(m, m', a.addr)
    && (forall n <- m.nodes :: SameData(m.nodes[n], m'.nodes[n]))
    && forall n <- m.nodes | n != a.addr && n != Top(a.kids, |a.kids| - 1) && n != t.addr :: m'.nodes[n] == m.nodes[n]
  }

  lemma RenamedJoins(m: Mem, m1: Mem, m': Mem, a: Tree, t: Tree, p: int, text: string)
    requires Renames(m, m1, t, p, text) && a.addr != t.addr && OnlyChild(m1, m', a.addr)
    requires LinksOnly(m1, m', {a.addr, Top(a.kids, |a.kids| - 1), t.addr})
    ensures Joins(m, m', a, t)
  {
  }

  /** cJSON_AddItemToObject: the item gives up its old name, gets a copy of the key, and becomes the last child. */
  method AddItemToObject(h: Heap, obj: Ptr, key: string, item: Ptr, ghost a: Tree, ghost t: Tree) returns (ghost p: int)
    requires h.Valid() && obj == a.addr && item == t.addr
    requires List(h.View(), a) && Loose(h.View(), t) && Apart(a, t)
    modifies h`nodes, h`strings, h`top
    ensures h.Valid() && List(h.View(), WithList(a, a.kids + [Renamed(t, p)])) && Joins(old(h.View()), h.View(), a, t)
    ensures p !in old(h.strings) && h.strings == (old(h.strings) - RefSet(t.name))[p := CString(key)]
    ensures Keys(h.View(), a.kids + [Renamed(t, p)]) == old(Keys(h.View(), a.kids)) + [Key(CString(key))]
  {
    p := NameItem(h, item, key, a, t);
    ghost var m := h.View();
    AddItemToArray(h, obj, item, a, Renamed(t, p));
    KeysAppended(m, h.View(), a.kids, Renamed(t, p));
    Roots(a, t);
    RenamedJoins(old(h.View()), m, h.View(), a, t, p, CString(key));
  }

  /** The new name, seen together with the list that waits for the item. */
  method NameItem(h: Heap, item: Ptr, key: string, ghost a: Tree, ghost t: Tree) returns (p: int)
    requires h.Valid() && item == t.addr && List(h.View(), a) && Loose(h.View(), t) && Apart(a, t)
    modifies h`nodes, h`strings, h`top
    ensures h.Valid() && List(h.View(), a) && Loose(h.View(), Renamed(t, p)) && Apart(a, Renamed(t, p))
    ensures Renames(old(h.View()), h.View(), t, p, CString(key))
    ensures Keys(h.View(), a.kids) == old(Keys(h.View(), a.kids))
    ensures h.strings == (old(h.strings) - RefSet(t.name))[p := CString(key)]
  {
    Roots(a, t);
    p := Rename(h, item, key, t);
    RenamedIsMine(old(h.View()), h.View(), t, p, CString(key));
    RenamedLeavesList(old(h.View()), h.View(), a, t, p, CString(key));
  }

  lemma KeysAppended(m: Mem, m': Mem, ts: seq<Tree>, t: Tree)
    requires m'.strings == m.strings
    ensures Keys(m', ts + [t]) == Keys(m, ts) + [KeyOf(m, t)]
  {
  }

  /** `if (item->string) cJSON_free(item->string); item->string = cJSON_strdup(string)` */
  method Rename(h: Heap, item: Ptr, key: string, ghost t: Tree) returns (p: int)
    requires h.Valid() && item == t.addr && item in h.live && Mine(h.View(), t)
    modifies h`nodes, h`strings, h`top
    ensures h.Valid() && Renames(old(h.View()), h.View(), t, p, CString(key))
    ensures h.strings == (old(h.strings) - RefSet(t.name))[p := CString(key)]
  {
    FreeName(h, item, t);
    p := SetName(h, item, key, t);
    NewName(old(h.View()), h.View(), t, p, CString(key));
  }

  method FreeName(h: Heap, item: Ptr, ghost t: Tree)
    requires h.Valid() && item == t.addr && item in h.live && Mine(h.View(), t)
    modifies h`strings
    ensures h.Valid() && h.strings == old(h.strings) - RefSet(t.name)
  {
    if h.nodes[item].name != NoRef {
      h.FreeString(h.nodes[item].name.id);
    }
  }

  lemma NewName(m: Mem, m': Mem, t: Tree, p: int, text: string)
    requires Bounds(m) && t.addr in m.nodes && m'.live == m.live && p == m.top
    requires m'.nodes == m.nodes[t.addr := m.nodes[t.addr].(name := Ref(p))]
    requires m'.strings == (m.strings - RefSet(t.name))[p := text]
    ensures Renames(m, m', t, p, text)
  {
  }

  /** `item->string = cJSON_strdup(string)` */
  method SetName(h: Heap, item: Ptr, key: string, ghost t: Tree) returns (p: int)
    requires h.Valid() && item == t.addr && item in h.live
    modifies h`nodes, h`strings, h`top
    ensures h.Valid() && p == old(h.top) && h.strings == old(h.strings)[p := CString(key)]
    ensures h.nodes == old(h.nodes)[item := old(h.nodes[item]).(name := Ref(p))]
  {
    p := h.NewString(CString(key));
    h.Store(item, h.nodes[item].(name := Ref(p)));
  }

  /** cJSON_DeleteItemFromObject: the first match is deleted with all it owns. */
  method DeleteItemFromObject(h: Heap, obj: Ptr, k: Key, ghost a: Tree)
    requires h.Valid() && obj == a.addr && List(h.View(), a)
    modifies h`nodes, h`strings, h`pools, h`live, h`used, h`free, h`freed, h`destroyed
    ensures h.Valid()
    ensures var i := old(Find(Keys(h.View(), a.kids), k));
            if i == |a.kids| then h.View() == old(h.View()) && h.freed == old(h.freed)
            else
              && List(h.View(), WithList(a, Without(a.kids, i)))
              && Deletes(old(h.View()), h.View(), obj, Cells(a), a.kids[i])
              && h.freed == old(h.freed) + Order(a.kids[i])
  {
    ghost var i := Find(Keys(h.View(), a.kids), k);
    var c := DetachItemFromObject(h, obj, k, a);
    if c != Nil {
      ghost var m := h.View();
      UnlinkedOutside(old(h.View()), m, a, i);
      DeleteLoose(h, c, a.kids[i], WithList(a, Without(a.kids, i)));
      DeletesBehind(old(h.View()), m, h.View(), obj, Cells(a), a.kids[i]);
    }
  }

  /** The nodes after a replacement by key: the old child's have gone, with their pools as far as no node is
      left in them; the others keep their data, and outside `inside` everything. */
  ghost predicate ReplacesNodes(m: Mem, m': Mem, obj: Ptr, inside: set<Ptr>, t: Tree) {
    && m'.live == m.live - Cells(t)
    && (forall n <- m'.live :: n in m.nodes && n in m'.nodes && SameData(m.nodes[n], m'.nodes[n]))
    && Released(m.pools, Cells(t), m'.pools, m'.live) && OnlyChild(m, m', obj) && SameOutside(m, m', inside)
  }

  /** The first match, the i-th child, has been replaced by t, which has got a copy p of the key. */
  ghost predicate ReplacedByKey(m: Mem, m': Mem, a: Tree, i: nat, t: Tree, p: int, key: string)
    requires i < |a.kids|
  {
    && p !in m.strings && List(m', WithList(a, a.kids[i := Renamed(t, p)]))
    && ReplacesNodes(m, m', a.addr, Cells(a) + Cells(t), a.kids[i])
    && m'.strings == m.strings[p := CString(key)] - Texts(a.kids[i])
    && Keys(m', a.kids[i := Renamed(t, p)]) == Keys(m, a.kids)[i := Key(CString(key))]
  }

  /** cJSON_ReplaceItemInObject: the new item gets a copy of the key and takes the place of the first match. */
  method ReplaceItemInObject(h: Heap, obj: Ptr, key: string, item: Ptr, ghost a: Tree, ghost t: Tree)
    returns (ghost p: int)
    requires h.Valid() && obj == a.addr && item == t.addr
    requires List(h.View(), a) && Mine(h.View(), t) && Apart(a, t)
    modifies h`nodes, h`strings, h`pools, h`top, h`live, h`used, h`free, h`freed, h`destroyed
    ensures h.Valid()
    ensures var i := old(Find(Keys(h.View(), a.kids), Key(key)));
            if i == |a.kids| then h.View() == old(h.View()) && h.freed == old(h.freed)
            else ReplacedByKey(old(h.View()), h.View(), a, i, t, p, key) && h.freed == old(h.freed) + Order(a.kids[i])
  {
    var i, c := FindItem(h, obj, Key(key), a);
    p := h.top;
    if c != Nil {
      ReplaceMatch(h, obj, i, key, item, a, t);
    }
  }

  /** The new name, and the replacement of the i-th child. */
  method ReplaceMatch(h: Heap, obj: Ptr, i: nat, key: string, item: Ptr, ghost a: Tree, ghost t: Tree)
    requires h.Valid() && obj == a.addr && item == t.addr && i < |a.kids|
    requires List(h.View(), a) && Mine(h.View(), t) && Apart(a, t)
    modifies h`nodes, h`strings, h`pools, h`top, h`live, h`used, h`free, h`freed, h`destroyed
    ensures h.Valid() && ReplacedByKey(old(h.View()), h.View(), a, i, t, old(h.top), key)
    ensures h.freed == old(h.freed) + Order(a.kids[i])
  {
    ghost var m, p := h.View(), h.top;
    NameReplacement(h, item, key, a, t);
    ReplaceNamed(h, obj, i, key, item, a, t, p, m);
  }

  method ReplaceNamed(h: Heap, obj: Ptr, i: nat, key: string, item: Ptr, ghost a: Tree, ghost t: Tree, ghost p: int,
                      ghost m: Mem)
    requires h.Valid() && obj == a.addr && item == t.addr && i < |a.kids| && NewlyNamed(m, h.View(), a, t, p, key)
    modifies h`nodes, h`strings, h`pools, h`live, h`used, h`free, h`freed, h`destroyed
    ensures h.Valid() && ReplacedByKey(m, h.View(), a, i, t, p, key) && h.freed == old(h.freed) + Order(a.kids[i])
  {
    assert forall part :: NamedPart(part, m, h.View(), a, t, p, key);
    assert NamedPart(0, m, h.View(), a, t, p, key) && NamedPart(1, m, h.View(), a, t, p, key);
    ReplaceNth(h, obj, i, item, a, Renamed(t, p));
    KeysReplaced(old(h.View()), h.View(), a, i, Renamed(t, p));
    ReplacedInAll(m, old(h.View()), h.View(), a, i, t, p, key);
  }

  method ReplaceNth(h: Heap, obj: Ptr, i: nat, item: Ptr, ghost a: Tree, ghost t: Tree)
    requires h.Valid() && obj == a.addr && item == t.addr && i < |a.kids|
    requires List(h.View(), a) && Mine(h.View(), t) && Apart(a, t)
    modifies h`nodes, h`strings, h`pools, h`live, h`used, h`free, h`freed, h`destroyed
    ensures h.Valid() && List(h.View(), WithList(a, a.kids[i := t])) && h.freed == old(h.freed) + Order(a.kids[i])
    ensures Deletes(old(h.View()), h.View(), obj, Cells(a) + Cells(t), a.kids[i])
  {
    ReplaceItemInArray(h, obj, i, item, a, t);
  }

  lemma ReplacedInAll(m: Mem, m1: Mem, m': Mem, a: Tree, i: nat, t: Tree, p: int, key: string)
    requires i < |a.kids| && a.addr != t.addr && m.live <= m.nodes.Keys && m1.pools == m.pools
    requires Renames(m, m1, t, p, CString(key)) && m1.strings == m.strings[p := CString(key)]
    requires Deletes(m1, m', a.addr, Cells(a) + Cells(Renamed(t, p)), a.kids[i])
    requires List(m', WithList(a, a.kids[i := Renamed(t, p)])) && Keys(m1, a.kids) == Keys(m, a.kids)
    requires Keys(m', a.kids[i := Renamed(t, p)]) == Keys(m1, a.kids)[i := Key(m1.strings[p])]
    ensures ReplacedByKey(m, m', a, i, t, p, key)
  {
    ReplacedBehindName(m, m1, m', a, t, p, CString(key), a.kids[i]);
  }

  lemma ReplacedBehindName(m: Mem, m1: Mem, m': Mem, a: Tree, t: Tree, p: int, text: string, u: Tree)
    requires Renames(m, m1, t, p, text) && m1.pools == m.pools && a.addr != t.addr && m.live <= m.nodes.Keys
    requires Deletes(m1, m', a.addr, Cells(a) + Cells(Renamed(t, p)), u)
    ensures ReplacesNodes(m, m', a.addr, Cells(a) + Cells(t), u)
  {
    assert t.addr in Cells(t) && Cells(Renamed(t, p)) == Cells(t);
  }

  /** The new item has got its name; the list is as it was. */
  ghost predicate NewlyNamed(m: Mem, m': Mem, a: Tree, t: Tree, p: int, key: string) {
    forall part :: NamedPart(part, m, m', a, t, p, key)
  }

  ghost predicate NamedPart(part: int, m: Mem, m': Mem, a: Tree, t: Tree, p: int, key: string) {
    if part == 0 then List(m', a) && Mine(m', Renamed(t, p)) && Apart(a, Renamed(t, p)) && a.addr != t.addr
    else
      && Renames(m, m', t, p, CString(key)) && m'.strings == m.strings[p := CString(key)] && m'.pools == m.pools
      && Keys(m', a.kids) == Keys(m, a.kids) && m.live <= m.nodes.Keys
  }

  method NameReplacement(h: Heap, item: Ptr, key: string, ghost a: Tree, ghost t: Tree)
    requires h.Valid() && item == t.addr && List(h.View(), a) && Mine(h.View(), t) && Apart(a, t)
    modifies h`nodes, h`strings, h`top
    ensures h.Valid() && NewlyNamed(old(h.View()), h.View(), a, t, old(h.top), key)
  {
    Roots(a, t);
    var p := SetName(h, item, key, t);
    RenamedIsMine(old(h.View()), h.View(), t, p, CString(key));
    RenamedLeavesList(old(h.View()), h.View(), a, t, p, CString(key));
  }

  // ---- strings that nothing owns any more ----

  function Unowned(m: Mem, owned: set<int>): set<int> { m.strings.Keys - owned }

  /** Renamed, the tree owns the new name in the place of the old one. */
  lemma NameSwapped(t: Tree, p: int)
    requires Disjoint(t)
    ensures Texts(Renamed(t, p)) == Texts(t) - RefSet(t.name) + {p}
  {
  }

  /** cJSON_ReplaceItemInObject overwrites the old name of the new item without freeing it: of the strings in use
      one more has no owner, exactly if the item had a name. */
  lemma ReplaceLeaks(m: Mem, m': Mem, a: Tree, i: nat, t: Tree, p: int, key: string)
    requires List(m, a) && i < |a.kids| && Mine(m, t) && Apart(a, t) && ReplacedByKey(m, m', a, i, t, p, key)
    ensures var lost := Unowned(m, Texts(a) + Texts(t));
            var lost' := Unowned(m', Texts(WithList(a, a.kids[i := Renamed(t, p)])));
            && lost' == lost + RefSet(t.name) && lost !! RefSet(t.name)
            && (lost' == lost <==> t.name.NoRef?)
  {
    NameSwapped(t, p);
    KidTexts(m, a, i, Renamed(t, p));
    assert RefSet(t.name) <= Texts(t);
    Leak(m.strings.Keys, Texts(a), Texts(a.kids[i]), Texts(t), RefSet(t.name), p);
  }

  lemma KidTexts(m: Mem, a: Tree, i: nat, u: Tree)
    requires List(m, a) && i < |a.kids|
    ensures Texts(WithList(a, a.kids[i := u])) == Texts(a) - Texts(a.kids[i]) + Texts(u)
    ensures Texts(a.kids[i]) <= Texts(a)
  {
    TakeOut(m.nodes, a.kids, i);
    InList(a.kids, i);
    PutTexts(a.kids, i, u);
  }

  lemma {:induction false} PutTexts(ts: seq<Tree>, i: nat, u: Tree)
    requires i < |ts|
    ensures TextsAll(ts[i := u]) == TextsAll(Without(ts, i)) + Texts(u)
    decreases i
  {
    var us, ws := ts[i := u], Without(ts, i);
    if i == 0 {
      assert us[1..] == ts[1..] == ws;
    } else {
      PutTexts(ts[1..], i - 1, u);
      assert us[1..] == ts[1..][i - 1 := u] && ws[1..] == Without(ts[1..], i - 1) && us[0] == ws[0] == ts[0];
    }
  }

  lemma Leak(all: set<int>, a: set<int>, kid: set<int>, t: set<int>, name: set<int>, p: int)
    requires a + t <= all && kid <= a && a !! t && name <= t && p !in all
    ensures all + {p} - kid - (a - kid + (t - name + {p})) == all - (a + t) + name
  {
  }

  /** cJSON_AddItemToObject leaves no string without an owner. */
  lemma AddLeaksNothing(m: Mem, m': Mem, a: Tree, t: Tree, p: int, key: string)
    requires List(m, a) && Mine(m, t) && Apart(a, t) && p !in m.strings
    requires m'.strings == (m.strings - RefSet(t.name))[p := CString(key)]
    ensures Unowned(m', Texts(WithList(a, a.kids + [Renamed(t, p)]))) == Unowned(m, Texts(a) + Texts(t))
  {
    NameSwapped(t, p);
    AppendSets(a, Renamed(t, p));
    assert RefSet(t.name) <= Texts(t);
  }

  lemma KeysReplaced(m: Mem, m': Mem, a: Tree, i: int, t: Tree)
    requires List(m, a) && 0 <= i < |a.kids| && Mine(m, t) && Apart(a, t) && t.name.Ref?
    requires m'.strings == m.strings - Texts(a.kids[i])
    ensures t.name.id in m.strings && Keys(m', a.kids[i := t]) == Keys(m, a.kids)[i := Key(m.strings[t.name.id])]
  {
    NewKey(m, m', a, i, t);
    forall j | 0 <= j < |a.kids| && j != i ensures KeyOf(m', a.kids[j]) == KeyOf(m, a.kids[j]) {
      OldKey(m, m', a.kids, i, j);
    }
  }

  lemma NewKey(m: Mem, m': Mem, a: Tree, i: int, t: Tree)
    requires List(m, a) && 0 <= i < |a.kids| && Mine(m, t) && Apart(a, t) && t.name.Ref?
    requires m'.strings == m.strings - Texts(a.kids[i])
    ensures t.name.id in m.strings && KeyOf(m', t) == Key(m.strings[t.name.id])
  {
    InList(a.kids, i);
    assert t.name.id in Texts(t) && Texts(a.kids[i]) <= Texts(a);
  }

  lemma OldKey(m: Mem, m': Mem, ts: seq<Tree>, i: int, j: int)
    requires DisjointAll(ts) && 0 <= i < |ts| && 0 <= j < |ts| && j != i && m'.strings == m.strings - Texts(ts[i])
    ensures KeyOf(m', ts[j]) == KeyOf(m, ts[j])
  {
    DistinctTexts(ts, i, j);
    assert RefSet(ts[j].name) <= Texts(ts[j]);
  }

  lemma {:induction false} DistinctTexts(ts: seq<Tree>, i: int, j: int)
    requires DisjointAll(ts) && 0 <= i < |ts| && 0 <= j < |ts| && i != j
    ensures Texts(ts[i]) !! Texts(ts[j])
  {
    if i == 0 {
      InList(ts[1..], j - 1);
    } else if j == 0 {
      InList(ts[1..], i - 1);
    } else {
      DistinctTexts(ts[1..], i - 1, j - 1);
    }
  }

  // ---- references ----

  /** create_reference: a copy of the node that borrows its children and its string, and owns nothing. */
  method CreateReference(h: Heap, item: Ptr) returns (r: Ptr)
    requires h.Valid() && item in h.live
    modifies h`nodes, h`pools, h`top, h`live, h`used, h`free
    ensures h.Valid() && Copied(old(h.View()), h.View(), item, r) && Loose(h.View(), Tree(r, NoRef, NoRef, []))
  {
    r := CopyItem(h, item);
    BorrowerOwnsNothing(h.View(), r);
  }

  /** cJSON_New_Item, memcpy, and the stores behind it; both nodes belong to the same pool. */
  method CopyItem(h: Heap, item: Ptr) returns (r: Ptr)
    requires h.Valid() && item in h.live
    modifies h`nodes, h`pools, h`top, h`live, h`used, h`free
    ensures h.Valid() && r != Nil && Copied(old(h.View()), h.View(), item, r)
  {
    PlacedInPool(h.View(), item);
    var node := h.nodes[item];
    r := h.NewItem(item);
    ghost var m := h.View();
    h.Store(r, node.(name := NoRef, reference := true, next := Nil, prev := Nil));
    StoreCopies(old(h.View()), m, h.View(), item, r);
  }

  /** r is a new node, and a reference to what the item holds. */
  ghost predicate Copied(m: Mem, m': Mem, item: Ptr, r: Ptr) {
    && item in m.nodes && r in m'.nodes && r !in m.live && m'.live == m.live + {r}
    && m'.nodes[r] == m.nodes[item].(name := NoRef, reference := true, next := Nil, prev := Nil)
    && forall n <- m.live :: n in m.nodes && n in m'.nodes && m'.nodes[n] == m.nodes[n]
  }

  lemma StoreCopies(m: Mem, m1: Mem, m': Mem, item: Ptr, r: Ptr)
    requires item in m.live && m.live <= m.nodes.Keys && r !in m.live && m1.live == m.live + {r}
    requires m1.live <= m1.nodes.Keys
    requires forall n <- m.live :: m1.nodes[n] == m.nodes[n]
    requires m'.live == m1.live
    requires m'.nodes == m1.nodes[r := m.nodes[item].(name := NoRef, reference := true, next := Nil, prev := Nil)]
    ensures Copied(m, m', item, r)
  {
  }

  lemma BorrowerOwnsNothing(m: Mem, r: Ptr)
    requires r in m.live && r in m.nodes && r != Nil
    requires m.nodes[r].reference && m.nodes[r].name == NoRef && m.nodes[r].next == Nil && m.nodes[r].prev == Nil
    ensures var t := Tree(r, NoRef, NoRef, []); Loose(m, t) && Cells(t) == {r} && Texts(t) == {} && Order(t) == [r]
  {
  }

  /** A reference, with the name that cJSON_AddItemReferenceToObject may have given it. */
  ghost function Borrower(m: Mem, r: Ptr): Tree
    requires r in m.nodes
  {
    Tree(r, NoRef, m.nodes[r].name, [])
  }

  /** A reference in no list, apart from its target. */
  ghost predicate LooseReference(m: Mem, r: Ptr, target: Tree) {
    && r != Nil && r in m.live && r in m.nodes && m.nodes[r].reference && m.nodes[r].next == Nil
    && m.nodes[r].prev == Nil
    && r !in Cells(target) && RefSet(m.nodes[r].name) <= m.strings.Keys && RefSet(m.nodes[r].name) !! Texts(target)
  }

  lemma BorrowerIsLoose(m: Mem, r: Ptr, target: Tree)
    requires LooseReference(m, r, target)
    ensures var t := Borrower(m, r);
            && Loose(m, t) && Apart(target, t) && Cells(t) == {r} && Texts(t) == RefSet(m.nodes[r].name)
            && Order(t) == [r]
  {
  }

  /** Deleting a reference gives back that one node and its name: what it refers to keeps its children and
      its string. */
  method DeleteReference(h: Heap, r: Ptr, ghost target: Tree)
    requires h.Valid() && List(h.View(), target) && LooseReference(h.View(), r, target)
    modifies h`nodes, h`strings, h`pools, h`live, h`used, h`free, h`freed, h`destroyed
    ensures h.Valid() && List(h.View(), target)
    ensures GivenBack(old(h.View()), h.View(), {r}, RefSet(old(h.nodes)[r].name)) && h.freed == old(h.freed) + [r]
  {
    BorrowerIsLoose(h.View(), r, target);
    DeleteLoose(h, r, Borrower(h.View(), r), target);
  }
}
