/** encode_profile and decode_profile of c/bincoding/bincoding.c, as functions of profile and text. */
module Profiles {
  import opened Json
  import opened NumberText
  import opened StringText
  import opened ObjectKeys
  import opened RoundTrip
  import B = Base64
  import Parser
  import P = Printer

  /** struct Profile; a null `name` or `avatar` is None. */
  datatype Profile = Profile(name: B.Option<string>, age: int, avatar: B.Option<seq<B.Byte>>)

  function NameMembers(p: Profile): seq<Member> {
    if p.name.Some? then [Member("name", Value.String(p.name.value))] else []
  }

  function AgeMembers(p: Profile): seq<Member> {
    if p.age != 0 then [Member("age", Value.Number(p.age as real))] else []
  }

  function AvatarMembers(p: Profile): seq<Member> {
    if p.avatar.Some? && p.avatar.value != [] then [Member("avatar", Value.String(B.Encode(p.avatar.value)))] else []
  }

  /** The object that encode_profile builds: no member for a null name, an age of 0, or an empty avatar. */
  function ProfileMembers(p: Profile): seq<Member> { NameMembers(p) + AgeMembers(p) + AvatarMembers(p) }

  function ProfileValue(p: Profile): Value { Value.Object(ProfileMembers(p)) }

  /** encode_profile */
  function Encode(p: Profile): string
    requires Int32(p.age)
  {
    ProfilePrintable(p);
    P.PrintUnformatted(ProfileValue(p))
  }

  lemma ProfilePrintable(p: Profile)
    requires Int32(p.age)
    ensures P.Printable(ProfileValue(p))
  {
    var ms := ProfileMembers(p);
    forall i | 0 <= i < |ms| ensures P.Printable(ms[i].value) {
    }
    MembersPrintable(ms);
  }

  lemma {:induction false} MembersPrintable(ms: seq<Member>)
    requires forall i | 0 <= i < |ms| :: P.Printable(ms[i].value)
    ensures P.PrintableMembers(ms)
  {
    if ms == [] {
    } else {
      MembersPrintable(ms[1..]);
    }
  }

  /** The members of an object; anything else has none that have a name. */
  function Members(v: Value): seq<Member> { if v.Object? then v.members else [] }

  function Names(ms: seq<Member>): (ks: seq<Key>)
    ensures |ks| == |ms| && forall i | 0 <= i < |ms| :: ks[i] == Key(ms[i].name)
  {
    if ms == [] then [] else [Key(ms[0].name)] + Names(ms[1..])
  }

  /** cJSON_GetObjectItem on a value; null if there is no such member. */
  function Get(v: Value, key: string): B.Option<Value> { GetIn(Members(v), key) }

  function GetIn(ms: seq<Member>, key: string): B.Option<Value> {
    if ms == [] then B.None
    else if Same(Key(ms[0].name), Key(key)) then B.Some(ms[0].value) else GetIn(ms[1..], key)
  }

  /** That is the value of the first member whose key is the same. */
  lemma {:induction false} GetIsFind(ms: seq<Member>, key: string)
    ensures var i := Find(Names(ms), Key(key)); GetIn(ms, key) == if i < |ms| then B.Some(ms[i].value) else B.None
  {
    if ms == [] {
    } else {
      GetIsFind(ms[1..], key);
      FindInMembers(ms, key);
      GetStep(ms, key);
    }
  }

  lemma FindInMembers(ms: seq<Member>, key: string)
    requires ms != []
    ensures var i := Find(Names(ms[1..]), Key(key));
            Find(Names(ms), Key(key)) == if Same(Key(ms[0].name), Key(key)) then 0 else 1 + i
  {
    FindStep(Names(ms), Key(key));
    NamesStep(ms);
  }

  lemma GetStep(ms: seq<Member>, key: string)
    requires ms != []
    ensures GetIn(ms, key) == if Same(Key(ms[0].name), Key(key)) then B.Some(ms[0].value) else GetIn(ms[1..], key)
  {
  }

  lemma FindStep(ks: seq<Key>, k: Key)
    requires ks != []
    ensures Find(ks, k) == if Same(ks[0], k) then 0 else 1 + Find(ks[1..], k)
  {
  }

  lemma NamesStep(ms: seq<Member>)
    requires ms != []
    ensures Names(ms)[0] == Key(ms[0].name) && Names(ms)[1..] == Names(ms[1..])
  {
  }

  /** The profile that decode_profile reads off a parsed text. `Undetermined` is an avatar that is no base
      64, which unbase64 does not notice, or an age out of the range of int. */
  datatype Result = Found(profile: Profile) | NoProfile | Undetermined

  /** `val && val->type == cJSON_String`, and its text. */
  function TextOf(v: Value, key: string): B.Option<string> {
    var val := Get(v, key);
    if val.Some? && val.value.String? then B.Some(val.value.s) else B.None
  }

  /** `val && val->type == cJSON_Number`, and its `valueint`. */
  function NumberOf(v: Value, key: string): int {
    var val := Get(v, key);
    if val.Some? && val.value.Number? then Truncate(val.value.d) else 0
  }

  function ReadName(v: Value): B.Option<string> { TextOf(v, "name") }

  function ReadAge(v: Value): int { NumberOf(v, "age") }

  function AvatarText(v: Value): B.Option<string> { TextOf(v, "avatar") }

  function Assemble(name: B.Option<string>, age: int, text: B.Option<string>): Result {
    var avatar := if text.Some? then B.Decode(text.value) else B.None;
    if (text.Some? && avatar.None?) || !Int32(age) then Undetermined else Found(Profile(name, age, avatar))
  }

  function DecodeValue(v: Value): Result { Assemble(ReadName(v), ReadAge(v), AvatarText(v)) }

  /** decode_profile */
  function Decode(data: string): Result {
    match Parser.Parse(data)
    case Done(v, _) => DecodeValue(v)
    case Fail => NoProfile
    case Malformed => Undetermined
  }

  // ---- the round trip ----

  /** What comes back: the name without the bytes that printing drops, and no avatar for an empty one. */
  function Kept(p: Profile): Profile {
    Profile(if p.name.Some? then B.Some(Clean(p.name.value)) else B.None, p.age,
            if p.avatar == B.Some([]) then B.None else p.avatar)
  }

  /** No two of the three keys are the same under case-insensitive lookup. */
  lemma KeysDiffer()
    ensures !Same(Key("name"), Key("age")) && !Same(Key("name"), Key("avatar")) && !Same(Key("age"), Key("avatar"))
  {
    assert CString("name") == "name" by { CStringWithoutNul("name"); }
    assert CString("age") == "age" by { CStringWithoutNul("age"); }
    assert CString("avatar") == "avatar" by { CStringWithoutNul("avatar"); }
    FoldBytes("name");
    FoldBytes("age");
    FoldBytes("avatar");
  }

  lemma GetBehind(m: Member, ms: seq<Member>, key: string)
    ensures GetIn([m] + ms, key) == if Same(Key(m.name), Key(key)) then B.Some(m.value) else GetIn(ms, key)
  {
    assert ([m] + ms)[1..] == ms;
  }

  /** Whether a member comes first under one of the keys, and what lies behind it. */
  lemma GetFront(front: seq<Member>, ms: seq<Member>, own: string, other: string, another: string)
    requires |front| <= 1 && (front != [] ==> front[0].name == own)
    requires !Same(Key(own), Key(other)) && !Same(Key(own), Key(another))
    ensures GetIn(front + ms, other) == GetIn(ms, other) && GetIn(front + ms, another) == GetIn(ms, another)
    ensures GetIn(front + ms, own) == if front == [] then GetIn(ms, own) else B.Some(front[0].value)
  {
    if front == [] {
      assert front + ms == ms;
    } else {
      assert front == [front[0]];
      GetBehind(front[0], ms, own);
      GetBehind(front[0], ms, other);
      GetBehind(front[0], ms, another);
    }
  }

  function ValueOf(ms: seq<Member>): B.Option<Value> { if ms == [] then B.None else B.Some(ms[0].value) }

  /** Lookup by three different keys, each of which at most one member has. */
  lemma GetThree(n: seq<Member>, a: seq<Member>, b: seq<Member>, first: string, second: string, third: string)
    requires |n| <= 1 && |a| <= 1 && |b| <= 1 && (n != [] ==> n[0].name == first)
    requires (a != [] ==> a[0].name == second) && (b != [] ==> b[0].name == third)
    requires !Same(Key(first), Key(second)) && !Same(Key(first), Key(third)) && !Same(Key(second), Key(third))
    ensures var ms := n + a + b;
            GetIn(ms, first) == ValueOf(n) && GetIn(ms, second) == ValueOf(a) && GetIn(ms, third) == ValueOf(b)
  {
    GetFront(b, [], third, first, second);
    GetFront(a, b, second, first, third);
    GetFront(n, a + b, first, second, third);
    assert b + [] == b && n + (a + b) == n + a + b;
  }

  /** Lookup by the three keys in the object built from a profile. */
  lemma GetProfile(p: Profile)
    ensures var v := ProfileValue(p);
            && Get(v, "name") == ValueOf(NameMembers(p)) && Get(v, "age") == ValueOf(AgeMembers(p))
            && Get(v, "avatar") == ValueOf(AvatarMembers(p))
  {
    KeysDiffer();
    GetThree(NameMembers(p), AgeMembers(p), AvatarMembers(p), "name", "age", "avatar");
  }

  /** What decode_profile reads off the object built from a profile. */
  lemma ReadBack(p: Profile)
    ensures ReadName(ProfileValue(p)) == p.name && ReadAge(ProfileValue(p)) == p.age
    ensures AvatarMembers(p) == [] ==> AvatarText(ProfileValue(p)) == B.None
    ensures AvatarMembers(p) != [] ==> AvatarText(ProfileValue(p)) == B.Some(B.Encode(p.avatar.value))
  {
    GetProfile(p);
    assert Truncate(p.age as real) == p.age;
  }

  lemma DecodeRead(v: Value, text: string, bytes: seq<B.Byte>)
    requires Int32(ReadAge(v)) && AvatarText(v) == B.Some(text) && B.Decode(text) == B.Some(bytes)
    ensures DecodeValue(v) == Found(Profile(ReadName(v), ReadAge(v), B.Some(bytes)))
  {
  }

  lemma DecodeProfileValue(p: Profile)
    requires Int32(p.age)
    ensures DecodeValue(ProfileValue(p))
        == Found(Profile(p.name, p.age, if p.avatar == B.Some([]) then B.None else p.avatar))
  {
    ReadBack(p);
    if AvatarMembers(p) != [] {
      B.DecodeEncode(p.avatar.value);
      DecodeRead(ProfileValue(p), B.Encode(p.avatar.value), p.avatar.value);
    }
  }

  lemma CleanAppend(a: seq<Member>, b: seq<Member>)
    ensures CleanMembers(a + b) == CleanMembers(a) + CleanMembers(b)
  {
    if a == [] {
      assert a + b == b;
    } else {
      assert (a + b)[1..] == a[1..] + b;
      CleanAppend(a[1..], b);
    }
  }

  lemma CleanOne(m: Member)
    ensures CleanMembers([m]) == [Member(Clean(m.name), CleanValue(m.value))]
  {
    assert [m][1..] == [];
  }

  predicate LowerCase(s: string) { s == "" || ('a' <= s[0] <= 'z' && LowerCase(s[1..])) }

  lemma {:induction false} LowerCaseIsClean(s: string)
    requires LowerCase(s)
    ensures Clean(s) == s
  {
    if s == "" {
    } else {
      LowerCaseIsClean(s[1..]);
    }
  }

  lemma KeysAreClean()
    ensures Clean("name") == "name" && Clean("age") == "age" && Clean("avatar") == "avatar"
  {
    LowerCaseIsClean("name");
    LowerCaseIsClean("age");
    LowerCaseIsClean("avatar");
  }

  /** Printing drops bytes of the name only. */
  lemma CleanProfile(p: Profile)
    ensures CleanValue(ProfileValue(p))
         == ProfileValue(p.(name := if p.name.Some? then B.Some(Clean(p.name.value)) else B.None))
  {
    KeysAreClean();
    CleanAppend(NameMembers(p) + AgeMembers(p), AvatarMembers(p));
    CleanAppend(NameMembers(p), AgeMembers(p));
    if p.name.Some? {
      CleanOne(NameMembers(p)[0]);
    }
    if p.age != 0 {
      CleanOne(AgeMembers(p)[0]);
    }
    if AvatarMembers(p) != [] {
      B.NotEscaped(p.avatar.value);
      CleanOne(AvatarMembers(p)[0]);
    }
  }

  /** For every profile with an int for an age, decoding what encoding wrote gives the profile back, up to
      the bytes of the name that printing drops and an empty avatar. */
  lemma DecodeEncode(p: Profile)
    requires Int32(p.age)
    ensures Decode(Encode(p)) == Found(Kept(p))
  {
    ProfilePrintable(p);
    FormatsAgree(ProfileValue(p));
    CleanProfile(p);
    DecodeProfileValue(p.(name := if p.name.Some? then B.Some(Clean(p.name.value)) else B.None));
  }

  /** Exactly the profiles whose name loses nothing and whose avatar is not empty come back unchanged. */
  lemma DecodeEncodeExact(p: Profile)
    requires Int32(p.age)
    ensures Decode(Encode(p)) == Found(p) <==> (p.name.Some? ==> KeptString(p.name.value)) && p.avatar != B.Some([])
  {
    DecodeEncode(p);
    if p.name.Some? {
      CleanString(p.name.value);
    }
  }
}
