/** The list that c/cas.cc keeps as a JSON text: add_item_to_list and count_list_items. */
module StringList {
  import opened Sequences
  import opened Json
  import opened NumberText
  import P = Printer

  // ---- add_item_to_list ----

  /** `old_list.substr(0, old_list.size() - 1)` */
  function WithoutLast(s: string): string { if s == "" then "" else s[..|s| - 1] }

  function Added(list: string, item: string): string {
    WithoutLast(list) + (if |list| != 2 then "," else "") + item + "]"
  }

  function ListText(items: seq<string>): string { "[" + Join(items, ",") + "]" }

  lemma {:induction false} JoinAppend(items: seq<string>, item: string)
    requires items != []
    ensures Join(items + [item], ",") == Join(items, ",") + "," + item
  {
    if |items| == 1 {
      assert (items + [item])[1..] == [item];
    } else {
      assert (items + [item])[1..] == items[1..] + [item];
      JoinAppend(items[1..], item);
      Behind(items[0], Join(items[1..], ","), item);
    }
  }

  lemma Behind(a: string, b: string, c: string)
    ensures a + ("," + (b + "," + c)) == a + ("," + b) + "," + c
  {
  }

  /** Adding to the text of a list gives the text of the longer list, unless the first item is empty. */
  lemma AddedIsAppended(items: seq<string>, item: string)
    requires items == [] || items[0] != ""
    ensures Added(ListText(items), item) == ListText(items + [item])
  {
    var list := ListText(items);
    assert WithoutLast(list) == "[" + Join(items, ",");
    if items == [] {
      assert [] + [item] == [item];
    } else {
      assert |Join(items, ",")| > 0;
      JoinAppend(items, item);
    }
  }

  /** add_item_to_list: what it makes of any text, and that it makes the text of a list the text of the list
      with the item at its end. */
  method AddItemToList(oldList: string, newItem: string, ghost items: seq<string>) returns (newval: string)
    ensures newval == Added(oldList, newItem)
    ensures oldList == ListText(items) && (items == [] || items[0] != "") ==> newval == ListText(items + [newItem])
  {
    newval := WithoutLast(oldList);
    if |oldList| != 2 {
      newval := newval + ",";
    }
    newval := newval + newItem;
    newval := newval + "]";
    if items == [] || items[0] != "" {
      AddedIsAppended(items, newItem);
    }
  }

  /** The items added one after the other, as the threads do, starting from `[]`. */
  function AddAll(items: seq<string>): string {
    if items == [] then "[]" else Added(AddAll(items[..|items| - 1]), items[|items| - 1])
  }

  lemma {:induction false} AddAllJoins(items: seq<string>)
    requires |items| <= 1 || items[0] != ""
    ensures AddAll(items) == ListText(items)
    decreases |items|
  {
    if items == [] {
    } else {
      var front, last := items[..|items| - 1], items[|items| - 1];
      if front == [] {
        assert items == [last];
      } else {
        AddAllJoins(front);
        AddedIsAppended(front, last);
        assert front + [last] == items;
      }
    }
  }

  /** An empty first item leaves no trace, not even a comma. */
  lemma {:induction false} EmptyFirstIsForgotten(items: seq<string>)
    requires items != [] && items[0] == ""
    ensures AddAll(items) == AddAll(items[1..])
    decreases |items|
  {
    var front, last := items[..|items| - 1], items[|items| - 1];
    if front == [] {
      assert items[1..] == [] && "[" + "" + "" + "]" == "[]";
    } else {
      EmptyFirstIsForgotten(front);
      assert front[1..] == items[1..][..|items| - 2];
    }
  }

  lemma {:induction false} AddAllLength(items: seq<string>)
    ensures |AddAll(items)| <= |ListText(items)|
    decreases |items|
  {
    if |items| > 1 && items[0] == "" {
      EmptyFirstIsForgotten(items);
      AddAllLength(items[1..]);
    } else {
      AddAllJoins(items);
    }
  }

  /** The text is the bracketed join of the items exactly when there is at most one or the first is not empty. */
  lemma AddAllJoinsIff(items: seq<string>)
    ensures AddAll(items) == ListText(items) <==> |items| <= 1 || items[0] != ""
  {
    if |items| > 1 && items[0] == "" {
      EmptyFirstIsForgotten(items);
      AddAllLength(items[1..]);
      assert |Join(items, ",")| == |Join(items[1..], ",")| + 1;
    } else {
      AddAllJoins(items);
    }
  }

  // ---- count_list_items ----

  function Commas(s: string): nat { if s == "" then 0 else (if s[0] == ',' then 1 else 0) + Commas(s[1..]) }

  lemma {:induction false} CommasAppend(a: string, b: string)
    ensures Commas(a + b) == Commas(a) + Commas(b)
  {
    if a == "" {
      assert a + b == b;
    } else {
      assert (a + b)[1..] == a[1..] + b;
      CommasAppend(a[1..], b);
    }
  }

  /** What count_list_items returns when it returns. */
  function Counted(s: string): nat { if Commas(s) > 0 then Commas(s) + 1 else if |s| > 2 then 1 else 0 }

  /** `s.find(",", from)`, with |s| + 1 for npos. */
  method Find(s: string, from: nat) returns (pos: nat)
    requires from <= |s|
    ensures from <= pos && (pos < |s| || pos == |s| + 1)
    ensures pos < |s| ==> s[pos] == ',' && Commas(s[from..]) == 1 + Commas(s[pos + 1..])
    ensures pos == |s| + 1 ==> Commas(s[from..]) == 0
  {
    pos := from;
    while pos < |s| && s[pos] != ','
      invariant from <= pos <= |s| && Commas(s[from..]) == Commas(s[pos..])
    {
      assert s[pos..][1..] == s[pos + 1..];
      pos := pos + 1;
    }
    if pos == |s| {
      pos := |s| + 1;
    } else {
      assert s[pos..][1..] == s[pos + 1..];
    }
  }

  /** The loop goes on for ever on a text that starts with a comma, and only then; see LoopsForeverIff. */
  method CountListItems(s: string) returns (numItems: nat)
    requires s == "" || s[0] != ','
    ensures numItems == Counted(s)
  {
    var pos, npos := 0, |s| + 1;
    numItems := 0;
    assert s[0..] == s;
    while pos != npos
      invariant pos < |s| || pos == npos || (pos == 0 && s == "")
      invariant pos == npos ==> numItems == Commas(s)
      invariant pos != npos ==> numItems + Commas(s[if pos == 0 then 0 else pos + 1..]) == Commas(s)
      decreases npos - pos, if pos == 0 then 1 else 0
    {
      pos := Find(s, if pos != 0 then pos + 1 else pos);
      if pos != npos {
        numItems := numItems + 1;
      }
    }
    if numItems > 0 {
      numItems := numItems + 1;
    } else if |s| > 2 {
      numItems := 1;
    }
  }

  /** The position of the first comma from `from` on, |s| + 1 if there is none. */
  function Next(s: string, from: nat): (pos: nat)
    ensures pos >= from || pos == |s| + 1
    decreases |s| - from
  {
    if from >= |s| then |s| + 1 else if s[from] == ',' then from else Next(s, from + 1)
  }

  /** The value of `pos` after k turns of the loop. */
  function Position(s: string, k: nat): nat {
    if k == 0 then 0 else
    var pos := Position(s, k - 1);
    if pos == |s| + 1 then pos else Next(s, if pos != 0 then pos + 1 else 0)
  }

  lemma {:induction false} PositionGrows(s: string, k: nat)
    requires s == "" || s[0] != ','
    ensures Position(s, k) >= k || Position(s, k) == |s| + 1
  {
    if k == 0 {
    } else {
      PositionGrows(s, k - 1);
    }
  }

  lemma {:induction false} PositionStays(s: string, k: nat)
    requires s != "" && s[0] == ','
    ensures Position(s, k) == 0
  {
    if k == 0 {
    } else {
      PositionStays(s, k - 1);
    }
  }

  /** The loop of count_list_items never ends exactly when the text starts with a comma. */
  lemma LoopsForeverIff(s: string)
    ensures (forall k: nat :: Position(s, k) != |s| + 1) <==> s != "" && s[0] == ','
  {
    if s != "" && s[0] == ',' {
      forall k: nat ensures Position(s, k) != |s| + 1 {
        PositionStays(s, k);
      }
    } else {
      PositionGrows(s, |s| + 1);
      PositionAtMost(s, |s| + 1);
      assert Position(s, |s| + 1) == |s| + 1;
    }
  }

  lemma {:induction false} NextAtMost(s: string, from: nat)
    ensures Next(s, from) <= |s| + 1
    decreases |s| - from
  {
    if from < |s| {
      NextAtMost(s, from + 1);
    }
  }

  lemma {:induction false} PositionAtMost(s: string, k: nat)
    ensures Position(s, k) <= |s| + 1
  {
    if k == 0 {
    } else {
      PositionAtMost(s, k - 1);
      NextAtMost(s, if Position(s, k - 1) != 0 then Position(s, k - 1) + 1 else 0);
    }
  }

  function AllCommas(items: seq<string>): nat { if items == [] then 0 else Commas(items[0]) + AllCommas(items[1..]) }

  lemma {:induction false} JoinCommas(items: seq<string>)
    requires items != []
    ensures Commas(Join(items, ",")) == AllCommas(items) + |items| - 1
  {
    if |items| > 1 {
      JoinCommas(items[1..]);
      CommasAppend(items[0], "," + Join(items[1..], ","));
      CommasAppend(",", Join(items[1..], ","));
    }
  }

  /** How many items at the front are empty. */
  function LeadingEmpty(items: seq<string>): nat {
    if items == [] || items[0] != "" then 0 else 1 + LeadingEmpty(items[1..])
  }

  /** The count is the number of items and of the commas in them, less the empty items at the front. */
  lemma {:induction false} CountOf(items: seq<string>)
    ensures Counted(AddAll(items)) == |items| + AllCommas(items) - LeadingEmpty(items) && AddAll(items)[0] != ','
    decreases |items|
  {
    if items == [] {
    } else if items[0] == "" {
      EmptyFirstIsForgotten(items);
      CountOf(items[1..]);
    } else {
      AddAllJoins(items);
      CommasAppend("[" + Join(items, ","), "]");
      CommasAppend("[", Join(items, ","));
      JoinCommas(items);
      assert |Join(items, ",")| > 0;
    }
  }

  /** The count is the number of items added exactly when the items hold as many commas as there are empty
      items at the front; so it is when no item is empty and none holds a comma. */
  lemma CountIsExactIff(items: seq<string>)
    ensures Counted(AddAll(items)) == |items| <==> AllCommas(items) == LeadingEmpty(items)
  {
    CountOf(items);
  }

  // ---- the same list as a tree ----

  function Texts(vs: seq<Value>): (ts: seq<string>)
    requires P.PrintableItems(vs)
    ensures |ts| == |vs|
  {
    if vs == [] then [] else [P.PrintValue(vs[0], 1, false)] + Texts(vs[1..])
  }

  lemma {:induction false} PrintedJoin(vs: seq<Value>)
    requires P.PrintableItems(vs)
    ensures P.PrintItems(vs, 0, false) == Join(Texts(vs), ",")
  {
    if vs == [] {
    } else {
      PrintedJoin(vs[1..]);
      assert Texts(vs)[1..] == Texts(vs[1..]);
    }
  }

  lemma {:induction false} NatTextNotEmpty(n: nat)
    ensures NatText(n) != ""
  {
    if n >= 10 {
      NatTextNotEmpty(n / 10);
    }
  }

  lemma PrintedNotEmpty(v: Value)
    requires P.Printable(v)
    ensures P.PrintValue(v, 1, false) != ""
  {
    if v.Number? {
      NatTextNotEmpty(if Truncate(v.d) < 0 then -Truncate(v.d) else Truncate(v.d));
    }
  }

  /** Adding printed values one after the other gives what cJSON_PrintUnformatted prints for the array. */
  lemma AddAllPrints(vs: seq<Value>)
    requires P.PrintableItems(vs)
    ensures AddAll(Texts(vs)) == P.PrintUnformatted(Value.Array(vs))
  {
    if vs != [] {
      PrintedNotEmpty(vs[0]);
    }
    AddAllJoins(Texts(vs));
    PrintedJoin(vs);
    assert "[" + Join(Texts(vs), ",") + "]" == "[" + (Join(Texts(vs), ",") + "]");
  }
}
