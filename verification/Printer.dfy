/** print_value, print_array and print_object as functions of the tree. */
module Printer {
  import opened Json
  import opened NumberText
  import opened StringText

  /** The trees whose numbers print_number writes with `%d`. */
  predicate Printable(v: Value) {
    match v
    case Number(d) => Int32Number(d)
    case Array(items) => PrintableItems(items)
    case Object(members) => PrintableMembers(members)
    case _ => true
  }

  predicate PrintableItems(items: seq<Value>) {
    items == [] || (Printable(items[0]) && PrintableItems(items[1..]))
  }

  predicate PrintableMembers(members: seq<Member>) {
    members == [] || (Printable(members[0].value) && PrintableMembers(members[1..]))
  }

  function Tabs(n: nat): string { if n == 0 then "" else "\t" + Tabs(n - 1) }

  function Indent(n: nat, fmt: bool): string { if fmt then Tabs(n) else "" }

  function Newline(fmt: bool): string { if fmt then "\n" else "" }

  function PrintValue(v: Value, depth: nat, fmt: bool): string
    requires Printable(v)
  {
    match v
    case Null => "null"
    case False => "false"
    case True => "true"
    case Number(d) => PrintNumber(d)
    case String(s) => PrintString(s)
    case Array(items) => "[" + (PrintItems(items, depth, fmt) + "]")
    case Object(members) =>
      "{" + (Newline(fmt) + (PrintMembers(members, depth + 1, fmt) + (Indent(depth, fmt) + "}")))
  }

  function Comma(fmt: bool): string { if fmt then ", " else "," }

  function PrintItems(items: seq<Value>, depth: nat, fmt: bool): string
    requires PrintableItems(items)
  {
    if items == [] then "" else
    var first := PrintValue(items[0], depth + 1, fmt);
    if |items| == 1 then first else first + (Comma(fmt) + PrintItems(items[1..], depth, fmt))
  }

  /** One line of a printed object: indentation, key, colon and value. */
  function MemberLine(name: string, value: string, depth: nat, fmt: bool): string {
    Indent(depth, fmt) + (PrintString(name) + (":" + ((if fmt then "\t" else "") + value)))
  }

  function PrintMembers(members: seq<Member>, depth: nat, fmt: bool): string
    requires PrintableMembers(members)
  {
    if members == [] then "" else
    MemberLine(members[0].name, PrintValue(members[0].value, depth, fmt), depth, fmt)
    + ((if |members| == 1 then "" else ",") + (Newline(fmt) + PrintMembers(members[1..], depth, fmt)))
  }

  /** cJSON_Print and cJSON_PrintUnformatted. */
  function Print(v: Value): string
    requires Printable(v)
  {
    PrintValue(v, 0, true)
  }

  function PrintUnformatted(v: Value): string
    requires Printable(v)
  {
    PrintValue(v, 0, false)
  }
}
