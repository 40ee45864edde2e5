/** parse_value, parse_array and parse_object as functions of the text. */
module Parser {
  import opened Json
  import opened NumberText
  import opened StringText

  /** skip: every byte up to the space counts as white space. */
  function Skip(s: string): (r: string)
    ensures |r| <= |s| && (r == "" || r[0] > ' ')
  {
    if s != "" && s[0] <= ' ' then Skip(s[1..]) else s
  }

  function ParseValue(s: string): (r: Parsed<Value>)
    ensures r.Done? ==> |r.rest| < |s|
    decreases |s|, 1
  {
    if "null" <= s then Done(Null, s[4..])
    else if "false" <= s then Done(False, s[5..])
    else if "true" <= s then Done(True, s[4..])
    else if s == "" then Fail
    else if s[0] == '"' then
      var (str, rest) :- ParseString(s); Done(String(str), rest)
    else if s[0] == '-' || Digit(s[0]) then ParseNumber(s)
    else if s[0] == '[' then
      var t := Skip(s[1..]);
      if t != "" && t[0] == ']' then Done(Array([]), t[1..])
      else var (items, rest) :- ParseElements(t); Done(Array(items), rest)
    else if s[0] == '{' then
      var t := Skip(s[1..]);
      if t != "" && t[0] == '}' then Done(Object([]), t[1..])
      else var (members, rest) :- ParseMembers(t); Done(Object(members), rest)
    else Fail
  }

  /** One element, then either a comma and more elements or the closing bracket. */
  function ParseElements(s: string): (r: Parsed<seq<Value>>)
    ensures r.Done? ==> |r.rest| < |s|
    decreases |s|, 2
  {
    var (value, rest) :- ParseValue(Skip(s));
    var t := Skip(rest);
    if t == "" then Fail
    else if t[0] == ',' then var (more, rest) :- ParseElements(t[1..]); Done([value] + more, rest)
    else if t[0] == ']' then Done([value], t[1..])
    else Fail
  }

  /** Key, colon and value of one member. */
  function ParseMember(s: string): (r: Parsed<Member>)
    ensures r.Done? ==> |r.rest| < |s|
    decreases |s|, 2
  {
    var (name, rest) :- ParseString(Skip(s));
    var t := Skip(rest);
    if t == "" || t[0] != ':' then Fail else
    var (value, rest) :- ParseValue(Skip(t[1..]));
    Done(Member(name, value), rest)
  }

  function ParseMembers(s: string): (r: Parsed<seq<Member>>)
    ensures r.Done? ==> |r.rest| < |s|
    decreases |s|, 3
  {
    var (member, rest) :- ParseMember(s);
    var t := Skip(rest);
    if t == "" then Fail
    else if t[0] == ',' then var (more, rest) :- ParseMembers(t[1..]); Done([member] + more, rest)
    else if t[0] == '}' then Done([member], t[1..])
    else Fail
  }

  /** cJSON_Parse: leading white space is skipped, trailing text is not looked at. */
  function Parse(s: string): Parsed<Value> { ParseValue(Skip(s)) }
}
