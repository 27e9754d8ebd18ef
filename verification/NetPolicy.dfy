/** Decimal strings as std::to_string writes them and std::stol reads them. */
module Decimal {
  import opened Machine

  predicate IsDigit(c: char) {
    '0' <= c <= '9'
  }

  function DigitOf(d: nat): (c: char)
    requires d < 10
    ensures IsDigit(c) && c as int - '0' as int == d
  {
    '0' + d as char
  }

  /** std::to_string of an unsigned value. */
  function ToString(n: nat): (s: string)
    ensures |s| > 0 && forall i :: 0 <= i < |s| ==> IsDigit(s[i])
  {
    if n < 10 then [DigitOf(n)] else ToString(n / 10) + [DigitOf(n % 10)]
  }

  predicate IsSpace(c: char) {
    c == ' ' || c == '\t' || c == '\n' || c == '\r' || c as int == 11 || c as int == 12
  }

  function SkipSpaces(s: string): string {
    if s != [] && IsSpace(s[0]) then SkipSpaces(s[1..]) else s
  }

  function LeadingDigits(s: string): (ds: string)
    ensures forall i :: 0 <= i < |ds| ==> IsDigit(ds[i])
  {
    if s != [] && IsDigit(s[0]) then [s[0]] + LeadingDigits(s[1..]) else []
  }

  function Value(ds: string): nat
    requires forall i :: 0 <= i < |ds| ==> IsDigit(ds[i])
  {
    if ds == [] then 0
    else
      assert IsDigit(ds[|ds| - 1]);
      10 * Value(ds[..|ds| - 1]) + (ds[|ds| - 1] as int - '0' as int)
  }

  /** std::stol with a 64-bit long; None when it throws. Trailing characters are ignored. */
  function Stol(s: string): Option<int> {
    var t := SkipSpaces(s);
    var signed := t != [] && (t[0] == '-' || t[0] == '+');
    var ds := LeadingDigits(if signed then t[1..] else t);
    var v: int := if signed && t[0] == '-' then -(Value(ds) as int) else Value(ds);
    if ds == [] || !(-0x8000_0000_0000_0000 <= v < 0x8000_0000_0000_0000) then None else Some(v)
  }

  lemma {:induction false} ValueOfToString(n: nat)
    ensures Value(ToString(n)) == n
  {
    if n >= 10 {
      ValueOfToString(n / 10);
      var s := ToString(n);
      assert s[..|s| - 1] == ToString(n / 10);
    }
  }

  lemma {:induction false} LeadingDigitsOfDigits(s: string)
    requires forall i :: 0 <= i < |s| ==> IsDigit(s[i])
    ensures LeadingDigits(s) == s
  {
    if s != [] {
      LeadingDigitsOfDigits(s[1..]);
    }
  }

  /** Reading back what was written, for every value a 64-bit long holds. */
  lemma StolOfToString(n: nat)
    requires n < 0x8000_0000_0000_0000
    ensures Stol(ToString(n)) == Some(n)
  {
    LeadingDigitsOfDigits(ToString(n));
    ValueOfToString(n);
  }

  function Power10(i: nat): (p: nat)
    ensures p > 0
  {
    if i == 0 then 1 else 10 * Power10(i - 1)
  }

  /** Dividing by 10 and then by p is dividing by 10 p. */
  lemma DivideTwice(n: nat, p: nat)
    requires p > 0
    ensures n / 10 / p == n / (10 * p)
  {
    var q := n / 10 / p;
    var r := n / 10 - p * q;
    assert n == (10 * p) * q + (10 * r + n % 10) by {
      assert n == 10 * (p * q + r) + n % 10;
    }
    assert 10 * r + n % 10 < 10 * p by {
      assert r <= p - 1;
    }
    QuotientIs(n, 10 * p, q, 10 * r + n % 10);
  }

  lemma QuotientIs(n: nat, m: nat, q: nat, r: nat)
    requires n == m * q + r && r < m
    ensures n / m == q
  {
    var k := n / m;
    assert n == m * k + n % m;
    Grows(m, k, q);
    Grows(m, q, k);
  }

  lemma Grows(m: nat, a: nat, b: nat)
    ensures a < b ==> m * a + m <= m * b
  {
    if a < b {
      assert m * b == m * (a + 1) + m * (b - a - 1);
    }
  }

  /** The digits are those of the decimal system, the lowest last. */
  lemma {:induction false} DigitAt(n: nat, i: nat)
    requires i < |ToString(n)|
    ensures ToString(n)[|ToString(n)| - 1 - i] as int - '0' as int == n / Power10(i) % 10
    decreases n
  {
    if i > 0 {
      assert n >= 10;
      var s, t := ToString(n), ToString(n / 10);
      DigitAt(n / 10, i - 1);
      DivideTwice(n, Power10(i - 1));
      assert s[|s| - 1 - i] == t[|t| - 1 - (i - 1)];
    }
  }

  lemma ToStringInjective(a: nat, b: nat)
    ensures ToString(a) == ToString(b) <==> a == b
  {
    ValueOfToString(a);
    ValueOfToString(b);
  }
}

/** The uid policy store (net_policy_file.cpp, net_policy_traffic.cpp, net_policy_service.cpp). */
module PolicyStore {
  import opened Machine
  import opened Decimal

  const NET_POLICY_NONE: Int32 := 0
  const NET_POLICY_ALLOW_METERED_BACKGROUND: Int32 := 1
  const NET_POLICY_TEMPORARY_ALLOW_METERED: Int32 := 2
  const NET_POLICY_REJECT_METERED_BACKGROUND: Int32 := 4
  const NET_POLICY_ALLOW_ALL: Int32 := 32
  const NET_POLICY_REJECT_ALL: Int32 := 64
  const HOS_VERSION := "1.0"

  datatype Code = ERR_NONE | ERR_INTERNAL_ERROR | ERR_INVALID_POLICY | THROWN

  datatype UidPolicy = UidPolicy(uid: string, policy: string)

  predicate IsPolicyValid(p: Int32) {
    p == NET_POLICY_NONE || p == NET_POLICY_ALLOW_METERED_BACKGROUND || p == NET_POLICY_TEMPORARY_ALLOW_METERED
    || p == NET_POLICY_REJECT_METERED_BACKGROUND || p == NET_POLICY_ALLOW_ALL || p == NET_POLICY_REJECT_ALL
  }

  /** std::to_string(static_cast<uint32_t>(policy)) */
  function PolicyString(p: Int32): string {
    ToString(ToUInt32(p))
  }

  // The loops of NetPolicyFile on any list of entries, canonical or not; None is a thrown exception.

  /** The parsing lookup. */
  function ParsedUidExists(l: seq<UidPolicy>, uid: UInt32): Option<bool> {
    if l == [] then Some(false)
    else if Stol(l[0].uid).None? then None
    else if ToUInt32(Stol(l[0].uid).value) == uid then Some(true)
    else ParsedUidExists(l[1..], uid)
  }

  /** The string-comparing lookup. */
  function PolicyOf(l: seq<UidPolicy>, uid: UInt32): Option<Int32> {
    if l == [] then Some(NET_POLICY_NONE)
    else if l[0].uid == ToString(uid) then
      (if Stol(l[0].policy).None? then None else Some(ToInt32(Stol(l[0].policy).value)))
    else PolicyOf(l[1..], uid)
  }

  function Updated(l: seq<UidPolicy>, uid: UInt32, p: Int32): seq<UidPolicy> {
    if l == [] then []
    else if l[0].uid == ToString(uid) then [UidPolicy(l[0].uid, PolicyString(p))] + l[1..]
    else [l[0]] + Updated(l[1..], uid, p)
  }

  function Erased(l: seq<UidPolicy>, uid: UInt32): seq<UidPolicy> {
    if l == [] then []
    else if l[0].uid == ToString(uid) then l[1..]
    else [l[0]] + Erased(l[1..], uid)
  }

  function UidsWith(l: seq<UidPolicy>, p: Int32): Option<seq<UInt32>> {
    if l == [] then Some([])
    else
      var later := UidsWith(l[1..], p);
      if l[0].policy != PolicyString(p) then later
      else
        var uid := Stol(l[0].uid);
        if uid.None? || later.None? then None else Some([ToUInt32(uid.value)] + later.value)
  }

  /** What NetPolicyService::SetUidPolicy does to the entries before the file is written. */
  function AfterSet(l: seq<UidPolicy>, uid: UInt32, p: Int32): (seq<UidPolicy>, Code) {
    if p == NET_POLICY_NONE then (Erased(l, uid), ERR_NONE)
    else
      match ParsedUidExists(l, uid)
      case None => (l, THROWN)
      case Some(exists_) =>
        if !IsPolicyValid(p) then (l, ERR_INVALID_POLICY)
        else if exists_ then (Updated(l, uid, p), ERR_NONE)
        else (l + [UidPolicy(ToString(uid), PolicyString(p))], ERR_NONE)
  }

  /** On any list, canonical or not, updates, removals and the comparing lookup are about the first entry of the uid. */
  lemma {:induction false} FirstEntry(l: seq<UidPolicy>, uid: UInt32, p: Int32) returns (k: nat)
    ensures k <= |l| && forall j :: 0 <= j < k ==> l[j].uid != ToString(uid)
    ensures k == |l| ==> Updated(l, uid, p) == l && Erased(l, uid) == l && PolicyOf(l, uid) == Some(0)
    ensures k < |l| ==>
      && l[k].uid == ToString(uid)
      && Updated(l, uid, p) == l[k := UidPolicy(l[k].uid, ToString(ToUInt32(p)))]
      && Erased(l, uid) == l[..k] + l[k + 1..]
      && PolicyOf(l, uid) == match Stol(l[k].policy) case None => None case Some(v) => Some(ToInt32(v))
  {
    if l == [] || l[0].uid == ToString(uid) {
      k := 0;
    } else {
      var j := FirstEntry(l[1..], uid, p);
      k := j + 1;
      assert [l[0]] + l[1..] == l;
      if k < |l| {
        assert [l[0]] + (l[1..][..j] + l[1..][j + 1..]) == l[..k] + l[k + 1..];
      }
    }
  }

  // The file, as the value the JSON library parses out of it.

  /** A scalar is a number or a boolean, given by the text that asString makes of it. */
  datatype Json = Null | Str(s: string) | Scalar(text: string) | Arr(items: seq<Json>) | Obj(fields: map<string, Json>)

  datatype File = Missing | Empty | Unparsable | Doc(root: Json)

  /** `v[key]`; None when the library throws. */
  function Field(v: Json, key: string): Option<Json> {
    match v
    case Null => Some(Null)
    case Obj(fields) => Some(if key in fields then fields[key] else Null)
    case _ => None
  }

  /** `v.asString()` */
  function AsString(v: Json): Option<string> {
    match v
    case Null => Some("")
    case Str(s) => Some(s)
    case Scalar(text) => Some(text)
    case _ => None
  }

  function StringField(v: Json, key: string): Option<string> {
    match Field(v, key)
    case None => None
    case Some(x) => AsString(x)
  }

  function ParseEntry(v: Json): Option<UidPolicy> {
    var uid, policy := StringField(v, "uid"), StringField(v, "policy");
    if uid.None? || policy.None? then None else Some(UidPolicy(uid.value, policy.value))
  }

  function ParseEntries(items: seq<Json>): Option<seq<UidPolicy>> {
    if items == [] then Some([])
    else
      var head, tail := ParseEntry(items[0]), ParseEntries(items[1..]);
      if head.None? || tail.None? then None else Some([head.value] + tail.value)
  }

  /** The entries that are read before the library throws, if it does. */
  function ReadBefore(items: seq<Json>): seq<UidPolicy> {
    if items == [] || ParseEntry(items[0]).None? then []
    else [ParseEntry(items[0]).value] + ReadBefore(items[1..])
  }

  lemma {:induction false} AllRead(items: seq<Json>)
    ensures ParseEntries(items).Some? ==> ParseEntries(items).value == ReadBefore(items)
  {
    if items != [] {
      AllRead(items[1..]);
    }
  }

  /** What hosVersion becomes when its string can be read. */
  function VersionOf(version: string): string {
    if version == "" then HOS_VERSION else version
  }

  /** Json2Obj on a fresh object: the entries and the version. */
  function Parse(root: Json): Option<(seq<UidPolicy>, string)> {
    var version, list := StringField(root, "hosVersion"), Field(root, "uidPolicy");
    if version.None? || list.None? then None
    else
      var v := VersionOf(version.value);
      match list.value
      case Arr(items) => (var es := ParseEntries(items); if es.None? then None else Some((es.value, v)))
      case Obj(fields) => if fields == map[] then Some(([], v)) else None
      case _ => Some(([], v))
  }

  function Kept(l: seq<UidPolicy>): seq<UidPolicy> {
    if l == [] then []
    else (if l[0].policy == PolicyString(NET_POLICY_TEMPORARY_ALLOW_METERED) then [] else [l[0]]) + Kept(l[1..])
  }

  function EntryJson(e: UidPolicy): Json {
    Obj(map["uid" := Str(e.uid), "policy" := Str(e.policy)])
  }

  function EntriesJson(l: seq<UidPolicy>): seq<Json> {
    if l == [] then [] else [EntryJson(l[0])] + EntriesJson(l[1..])
  }

  /** The root WriteFile builds: without entries the array is never created. */
  function RootJson(l: seq<UidPolicy>, version: string): Json {
    var items := EntriesJson(Kept(l));
    Obj(if items == [] then map["hosVersion" := Str(version)]
        else map["hosVersion" := Str(version), "uidPolicy" := Arr(items)])
  }

  lemma EntryReadsBack(e: UidPolicy)
    ensures ParseEntry(EntryJson(e)) == Some(e)
  {
    assert |"uid"| != |"policy"|;
    assert StringField(EntryJson(e), "uid") == Some(e.uid) && StringField(EntryJson(e), "policy") == Some(e.policy);
  }

  lemma {:induction false} EntriesReadBack(l: seq<UidPolicy>)
    ensures ParseEntries(EntriesJson(l)) == Some(l)
  {
    if l != [] {
      EntriesReadBack(l[1..]);
      assert EntriesJson(l)[1..] == EntriesJson(l[1..]);
      EntryReadsBack(l[0]);
      assert [l[0]] + l[1..] == l;
    }
  }

  /**
   Writing any store and loading it into a fresh object gives the same entries in the same order,
   minus exactly the temporary ones; an empty version becomes "1.0".
   */
  lemma WriteThenLoad(l: seq<UidPolicy>, version: string)
    ensures Parse(RootJson(l, version)) == Some((Kept(l), if version == "" then "1.0" else version))
  {
    EntriesReadBack(Kept(l));
    var root := RootJson(l, version);
    assert "hosVersion" != "uidPolicy";
    assert Field(root, "hosVersion") == Some(Str(version));
    assert Field(root, "uidPolicy") == Some(if Kept(l) == [] then Null else Arr(EntriesJson(Kept(l))));
  }

  // Canonical stores: what SetUidPolicy itself produces.

  datatype Pair = Pair(uid: UInt32, policy: Int32)

  function RenderPair(q: Pair): UidPolicy {
    UidPolicy(ToString(q.uid), PolicyString(q.policy))
  }

  function Render(ps: seq<Pair>): seq<UidPolicy> {
    if ps == [] then []
    else [RenderPair(ps[0])] + Render(ps[1..])
  }

  /** Distinct uids with valid policies other than NONE. */
  predicate Canonical(ps: seq<Pair>) {
    ps != [] ==>
      && IsPolicyValid(ps[0].policy) && ps[0].policy != NET_POLICY_NONE
      && !InPairs(ps[1..], ps[0].uid)
      && Canonical(ps[1..])
  }

  /** The map a list of pairs stands for. */
  function MapOf(ps: seq<Pair>): map<UInt32, Int32> {
    if ps == [] then map[] else MapOf(ps[1..])[ps[0].uid := ps[0].policy]
  }

  predicate InPairs(ps: seq<Pair>, uid: UInt32) {
    ps != [] && (ps[0].uid == uid || InPairs(ps[1..], uid))
  }

  function PairsUpdated(ps: seq<Pair>, uid: UInt32, p: Int32): seq<Pair> {
    if ps == [] then []
    else if ps[0].uid == uid then [Pair(uid, p)] + ps[1..]
    else [ps[0]] + PairsUpdated(ps[1..], uid, p)
  }

  function PairsErased(ps: seq<Pair>, uid: UInt32): seq<Pair> {
    if ps == [] then [] else if ps[0].uid == uid then ps[1..] else [ps[0]] + PairsErased(ps[1..], uid)
  }

  function PairsKept(ps: seq<Pair>): seq<Pair> {
    if ps == [] then []
    else (if ps[0].policy == NET_POLICY_TEMPORARY_ALLOW_METERED then [] else [ps[0]]) + PairsKept(ps[1..])
  }

  function PairsSet(ps: seq<Pair>, uid: UInt32, p: Int32): seq<Pair> {
    if p == NET_POLICY_NONE then PairsErased(ps, uid)
    else if !IsPolicyValid(p) then ps
    else if InPairs(ps, uid) then PairsUpdated(ps, uid, p)
    else ps + [Pair(uid, p)]
  }

  lemma {:induction false} RenderAppend(ps: seq<Pair>, q: Pair)
    ensures Render(ps + [q]) == Render(ps) + [RenderPair(q)]
  {
    if ps != [] {
      RenderAppend(ps[1..], q);
      assert (ps + [q])[1..] == ps[1..] + [q];
    }
  }

  /** The policy the map gives a uid: NONE if it has none. */
  function PolicyIn(ps: seq<Pair>, uid: UInt32): Int32 {
    var m := MapOf(ps);
    if uid in m then m[uid] else NET_POLICY_NONE
  }

  lemma PolicyInCons(q: Pair, rest: seq<Pair>, uid: UInt32)
    ensures PolicyIn([q] + rest, uid) == if q.uid == uid then q.policy else PolicyIn(rest, uid)
  {
    assert ([q] + rest)[1..] == rest;
  }

  lemma PolicyOfCons(e: UidPolicy, rest: seq<UidPolicy>, uid: UInt32)
    ensures e.uid != ToString(uid) ==> PolicyOf([e] + rest, uid) == PolicyOf(rest, uid)
    ensures e.uid == ToString(uid) && Stol(e.policy).Some? ==>
      PolicyOf([e] + rest, uid) == Some(ToInt32(Stol(e.policy).value))
  {
    assert ([e] + rest)[1..] == rest;
  }

  lemma ExistsCons(e: UidPolicy, rest: seq<UidPolicy>, u: UInt32, uid: UInt32)
    requires e.uid == ToString(u)
    ensures ParsedUidExists([e] + rest, uid) == if u == uid then Some(true) else ParsedUidExists(rest, uid)
  {
    StolOfToString(u);
    assert ([e] + rest)[1..] == rest;
  }

  lemma {:induction false} ParsedLookup(ps: seq<Pair>, uid: UInt32)
    ensures ParsedUidExists(Render(ps), uid) == Some(InPairs(ps, uid))
  {
    if ps != [] {
      ParsedLookup(ps[1..], uid);
      ExistsCons(RenderPair(ps[0]), Render(ps[1..]), ps[0].uid, uid);
    }
  }

  lemma PolicyReadsBack(p: Int32)
    requires 0 <= p
    ensures Stol(PolicyString(p)) == Some(p) && ToInt32(p) == p
  {
    assert ToUInt32(p) == p;
    StolOfToString(p);
  }

  lemma {:induction false} ComparedLookup(ps: seq<Pair>, uid: UInt32)
    requires Canonical(ps)
    ensures PolicyOf(Render(ps), uid) == Some(PolicyIn(ps, uid))
  {
    if ps != [] {
      assert ps == [ps[0]] + ps[1..];
      ComparedLookup(ps[1..], uid);
      PolicyInCons(ps[0], ps[1..], uid);
      PolicyOfCons(RenderPair(ps[0]), Render(ps[1..]), uid);
      ToStringInjective(ps[0].uid, uid);
      PolicyReadsBack(ps[0].policy);
    }
  }

  lemma {:induction false} MapOfPolicies(ps: seq<Pair>, uid: UInt32)
    requires Canonical(ps)
    ensures uid in MapOf(ps) <==> InPairs(ps, uid)
    ensures uid in MapOf(ps) ==> IsPolicyValid(MapOf(ps)[uid]) && MapOf(ps)[uid] != NET_POLICY_NONE
  {
    if ps != [] {
      MapOfPolicies(ps[1..], uid);
    }
  }

  /** On canonical stores the parsing and the comparing lookups agree, and neither throws. */
  lemma LookupsAgree(ps: seq<Pair>, uid: UInt32)
    requires Canonical(ps)
    ensures PolicyOf(Render(ps), uid).Some?
    ensures ParsedUidExists(Render(ps), uid) == Some(PolicyOf(Render(ps), uid).value != NET_POLICY_NONE)
  {
    ParsedLookup(ps, uid);
    ComparedLookup(ps, uid);
    MapOfPolicies(ps, uid);
  }

  lemma {:induction false} RenderUpdates(ps: seq<Pair>, uid: UInt32, p: Int32)
    ensures Updated(Render(ps), uid, p) == Render(PairsUpdated(ps, uid, p))
    ensures Erased(Render(ps), uid) == Render(PairsErased(ps, uid))
  {
    if ps != [] {
      RenderUpdates(ps[1..], uid, p);
      ToStringInjective(ps[0].uid, uid);
      assert Render(ps)[1..] == Render(ps[1..]);
    }
  }

  lemma KeptCons(e: UidPolicy, rest: seq<UidPolicy>)
    ensures Kept([e] + rest)
         == (if e.policy == PolicyString(NET_POLICY_TEMPORARY_ALLOW_METERED) then [] else [e]) + Kept(rest)
  {
    assert ([e] + rest)[1..] == rest;
  }

  lemma RenderCons(q: Pair, rest: seq<Pair>)
    ensures Render([q] + rest) == [RenderPair(q)] + Render(rest)
  {
    assert ([q] + rest)[1..] == rest;
  }

  lemma {:induction false} RenderKept(ps: seq<Pair>)
    ensures Kept(Render(ps)) == Render(PairsKept(ps))
  {
    if ps != [] {
      RenderKept(ps[1..]);
      PolicyStringInjective(ps[0].policy, NET_POLICY_TEMPORARY_ALLOW_METERED);
      KeptCons(RenderPair(ps[0]), Render(ps[1..]));
      RenderCons(ps[0], PairsKept(ps[1..]));
      if ps[0].policy == NET_POLICY_TEMPORARY_ALLOW_METERED {
        assert PairsKept(ps) == PairsKept(ps[1..]);
      }
    }
  }

  /** SetUidPolicy on a canonical store is PairsSet, whatever uid and policy value it is given. */
  lemma SetOnCanonical(ps: seq<Pair>, uid: UInt32, p: Int32)
    requires Canonical(ps)
    ensures AfterSet(Render(ps), uid, p)
         == (Render(PairsSet(ps, uid, p)), if IsPolicyValid(p) then ERR_NONE else ERR_INVALID_POLICY)
  {
    ParsedLookup(ps, uid);
    RenderUpdates(ps, uid, p);
    RenderAppend(ps, Pair(uid, p));
  }

  lemma {:induction false} UpdateMeans(ps: seq<Pair>, uid: UInt32, p: Int32, v: UInt32)
    requires Canonical(ps) && IsPolicyValid(p)
    ensures InPairs(PairsUpdated(ps, uid, p), v) <==> InPairs(ps, v)
    ensures InPairs(PairsErased(ps, uid), v) <==> InPairs(ps, v) && v != uid
    ensures PolicyIn(PairsUpdated(ps, uid, p), v) == if v == uid && InPairs(ps, uid) then p else PolicyIn(ps, v)
    ensures PolicyIn(PairsErased(ps, uid), v) == if v == uid then NET_POLICY_NONE else PolicyIn(ps, v)
  {
    MapOfPolicies(ps, v);
    if ps != [] {
      var q, rest := ps[0], ps[1..];
      assert ps == [q] + rest;
      UpdateMeans(rest, uid, p, v);
      MapOfPolicies(rest, v);
      PolicyInCons(q, rest, v);
      PolicyInCons(q, PairsUpdated(rest, uid, p), v);
      PolicyInCons(q, PairsErased(rest, uid), v);
      PolicyInCons(Pair(uid, p), rest, v);
    }
  }

  lemma {:induction false} UpdateCanonical(ps: seq<Pair>, uid: UInt32, p: Int32)
    requires Canonical(ps) && IsPolicyValid(p) && p != NET_POLICY_NONE
    ensures Canonical(PairsUpdated(ps, uid, p)) && Canonical(PairsErased(ps, uid))
  {
    if ps != [] {
      UpdateCanonical(ps[1..], uid, p);
      UpdateMeans(ps[1..], uid, p, ps[0].uid);
    }
  }

  lemma {:induction false} AppendMeans(ps: seq<Pair>, q: Pair, v: UInt32)
    requires Canonical(ps) && !InPairs(ps, q.uid) && IsPolicyValid(q.policy) && q.policy != NET_POLICY_NONE
    ensures Canonical(ps + [q])
    ensures InPairs(ps + [q], v) <==> InPairs(ps, v) || v == q.uid
    ensures PolicyIn(ps + [q], v) == if v == q.uid then q.policy else PolicyIn(ps, v)
  {
    if ps == [] {
      assert ps + [q] == [q] + [];
      PolicyInCons(q, [], v);
    } else {
      assert (ps + [q])[1..] == ps[1..] + [q] && ps + [q] == [ps[0]] + (ps[1..] + [q]) && ps == [ps[0]] + ps[1..];
      AppendMeans(ps[1..], q, v);
      AppendMeans(ps[1..], q, ps[0].uid);
      PolicyInCons(ps[0], ps[1..], v);
      PolicyInCons(ps[0], ps[1..] + [q], v);
    }
  }

  /** SetUidPolicy as a map update: a valid policy becomes the uid's policy (NONE removes it); nothing else changes. */
  lemma SetMeans(ps: seq<Pair>, uid: UInt32, p: Int32, v: UInt32)
    requires Canonical(ps)
    ensures Canonical(PairsSet(ps, uid, p))
    ensures PolicyIn(PairsSet(ps, uid, p), v) == if v == uid && IsPolicyValid(p) then p else PolicyIn(ps, v)
  {
    if p == NET_POLICY_NONE {
      UpdateMeans(ps, uid, p, v);
      UpdateCanonical(ps, uid, NET_POLICY_ALLOW_ALL);
    } else if IsPolicyValid(p) {
      UpdateMeans(ps, uid, p, v);
      UpdateCanonical(ps, uid, p);
      if !InPairs(ps, uid) {
        AppendMeans(ps, Pair(uid, p), v);
      }
    }
  }

  /** What survives a restart. */
  function Survives(p: Int32): Int32 {
    if p == NET_POLICY_TEMPORARY_ALLOW_METERED then NET_POLICY_NONE else p
  }

  lemma {:induction false} KeptMeans(ps: seq<Pair>, v: UInt32)
    requires Canonical(ps)
    ensures Canonical(PairsKept(ps))
    ensures InPairs(PairsKept(ps), v) ==> InPairs(ps, v)
    ensures PolicyIn(PairsKept(ps), v) == Survives(PolicyIn(ps, v))
  {
    if ps != [] {
      var q, rest := ps[0], ps[1..];
      assert ps == [q] + rest;
      KeptMeans(rest, v);
      KeptMeans(rest, q.uid);
      PolicyInCons(q, rest, v);
      MapOfPolicies(rest, v);
      if q.policy == NET_POLICY_TEMPORARY_ALLOW_METERED {
        assert PairsKept(ps) == PairsKept(rest);
      } else {
        assert PairsKept(ps)[1..] == PairsKept(rest);
        PolicyInCons(q, PairsKept(rest), v);
      }
    }
  }

  function PairUids(ps: seq<Pair>, p: Int32): seq<UInt32> {
    if ps == [] then [] else (if ps[0].policy == p then [ps[0].uid] else []) + PairUids(ps[1..], p)
  }

  lemma UidsWithout(e: UidPolicy, rest: seq<UidPolicy>, p: Int32)
    requires e.policy != PolicyString(p)
    ensures UidsWith([e] + rest, p) == UidsWith(rest, p)
  {
    assert ([e] + rest)[1..] == rest;
  }

  lemma UidsWithCons(e: UidPolicy, rest: seq<UidPolicy>, u: UInt32, p: Int32)
    requires Stol(e.uid) == Some(u) && e.policy == PolicyString(p) && UidsWith(rest, p).Some?
    ensures UidsWith([e] + rest, p) == Some([u] + UidsWith(rest, p).value)
  {
    var l := [e] + rest;
    assert l[0] == e && l[1..] == rest && ToUInt32(u) == u;
  }

  lemma PolicyStringInjective(p: Int32, q: Int32)
    ensures PolicyString(p) == PolicyString(q) <==> p == q
  {
    ToStringInjective(ToUInt32(p), ToUInt32(q));
  }

  lemma {:induction false} UidsOfCanonical(ps: seq<Pair>, p: Int32)
    ensures UidsWith(Render(ps), p) == Some(PairUids(ps, p))
  {
    if ps != [] {
      UidsOfCanonical(ps[1..], p);
      StolOfToString(ps[0].uid);
      PolicyStringInjective(ps[0].policy, p);
      if ps[0].policy == p {
        UidsWithCons(RenderPair(ps[0]), Render(ps[1..]), ps[0].uid, p);
        assert PairUids(ps, p) == [ps[0].uid] + PairUids(ps[1..], p);
      } else {
        UidsWithout(RenderPair(ps[0]), Render(ps[1..]), p);
        assert PairUids(ps, p) == PairUids(ps[1..], p);
      }
    }
  }

  predicate NoDuplicates(us: seq<UInt32>) {
    us == [] || (us[0] !in us[1..] && NoDuplicates(us[1..]))
  }

  /** GetUids on a canonical store lists exactly the uids that have the policy, each once. */
  lemma {:induction false} UidsExactlyOnce(ps: seq<Pair>, p: Int32, v: UInt32)
    requires Canonical(ps)
    ensures NoDuplicates(PairUids(ps, p))
    ensures v in PairUids(ps, p) <==> p != NET_POLICY_NONE && PolicyIn(ps, v) == p
  {
    if ps != [] {
      var q, rest := ps[0], ps[1..];
      assert ps == [q] + rest;
      UidsExactlyOnce(rest, p, v);
      UidsExactlyOnce(rest, p, q.uid);
      PolicyInCons(q, rest, v);
      MapOfPolicies(rest, q.uid);
      if q.policy == p {
        assert PairUids(ps, p)[1..] == PairUids(rest, p);
      } else {
        assert PairUids(ps, p) == PairUids(rest, p);
      }
    }
  }

  // Whole runs: memory, file, restarts.

  datatype Store = Store(entries: seq<UidPolicy>, version: string, file: File)

  datatype Op = SetPolicy(uid: UInt32, policy: Int32, writeOk: bool) | Restart

  /** SetUidPolicy; when the file cannot be opened the memory has changed all the same. */
  function SetStep(st: Store, uid: UInt32, p: Int32, writeOk: bool): (Store, Code) {
    var (es, code) := AfterSet(st.entries, uid, p);
    if code != ERR_NONE then (st, code)
    else if writeOk then (Store(es, st.version, Doc(RootJson(es, st.version))), ERR_NONE)
    else (st.(entries := es), ERR_INTERNAL_ERROR)
  }

  /** InitPolicy of a new process; None if parsing throws. */
  function RestartStep(st: Store): Option<Store> {
    match st.file
    case Doc(root) => (var r := Parse(root); if r.None? then None else Some(Store(r.value.0, r.value.1, st.file)))
    case Unparsable => Some(Store([], "", Unparsable))
    case _ => Some(Store([], "", Empty))
  }

  function RunOps(st: Store, ops: seq<Op>): Option<Store>
    decreases |ops|
  {
    if ops == [] then Some(st)
    else
      match ops[0]
      case SetPolicy(uid, p, writeOk) => RunOps(SetStep(st, uid, p, writeOk).0, ops[1..])
      case Restart => (var r := RestartStep(st); if r.None? then None else RunOps(r.value, ops[1..]))
  }

  // What a run means for one uid, in the numbers of the policies: 0 none, 1 allow in metered background,
  // 2 temporarily allow metered, 4 reject in metered background, 32 allow all, 64 reject all.

  predicate Accepted(p: Int32) {
    p == 0 || p == 1 || p == 2 || p == 4 || p == 32 || p == 64
  }

  /** For one uid: its policy in memory and the one a restart would bring back. */
  datatype Policies = Policies(memory: Int32, saved: Int32)

  /** An accepted set replaces the policy in memory; a write that succeeds saves it, but for the temporary one. */
  function PoliciesAfter(x: Policies, ops: seq<Op>, uid: UInt32): Policies
    decreases |ops|
  {
    if ops == [] then x
    else
      match ops[0]
      case SetPolicy(u, p, writeOk) =>
        if !Accepted(p) then PoliciesAfter(x, ops[1..], uid)
        else
          var memory := if u == uid then p else x.memory;
          var saved := if !writeOk then x.saved else if memory == 2 then 0 else memory;
          PoliciesAfter(Policies(memory, saved), ops[1..], uid)
      case Restart => PoliciesAfter(Policies(x.saved, x.saved), ops[1..], uid)
  }

  /** Memory holds ps and a restart would load saved; both are canonical. */
  ghost predicate Holds(st: Store, ps: seq<Pair>, saved: seq<Pair>) {
    && st.entries == Render(ps) && Canonical(ps) && Canonical(saved)
    && RestartStep(st).Some? && RestartStep(st).value.entries == Render(saved)
  }

  lemma WriteThenRestart(es: seq<UidPolicy>, version: string)
    ensures var r := RestartStep(Store(es, version, Doc(RootJson(es, version))));
      r.Some? && r.value.entries == Kept(es)
  {
    WriteThenLoad(es, version);
  }

  lemma SetKeeps(st: Store, ps: seq<Pair>, saved: seq<Pair>, uid: UInt32, p: Int32, writeOk: bool)
    requires Holds(st, ps, saved)
    ensures Holds(SetStep(st, uid, p, writeOk).0, PairsSet(ps, uid, p),
                  if writeOk && IsPolicyValid(p) then PairsKept(PairsSet(ps, uid, p)) else saved)
    ensures SetStep(st, uid, p, writeOk).1
         == if !IsPolicyValid(p) then ERR_INVALID_POLICY else if writeOk then ERR_NONE else ERR_INTERNAL_ERROR
  {
    SetOnCanonical(ps, uid, p);
    SetMeans(ps, uid, p, uid);
    var after := PairsSet(ps, uid, p);
    RenderKept(after);
    KeptMeans(after, uid);
    WriteThenRestart(Render(after), st.version);
  }

  /**
   Over any run of sets and restarts, with writes that succeed or fail, from any canonical store: no
   lookup throws, the store stays canonical, and for every uid it holds exactly the policy that the
   run gives that uid.
   */
  lemma {:induction false} RunRefinesMap(st: Store, ps: seq<Pair>, saved: seq<Pair>, ops: seq<Op>)
    returns (ps': seq<Pair>, saved': seq<Pair>)
    requires Holds(st, ps, saved)
    ensures RunOps(st, ops).Some? && Holds(RunOps(st, ops).value, ps', saved')
    ensures forall v :: Policies(PolicyIn(ps', v), PolicyIn(saved', v))
                     == PoliciesAfter(Policies(PolicyIn(ps, v), PolicyIn(saved, v)), ops, v)
    decreases |ops|
  {
    if ops == [] {
      return ps, saved;
    }
    match ops[0]
    case SetPolicy(uid, p, writeOk) =>
      SetKeeps(st, ps, saved, uid, p, writeOk);
      var now := PairsSet(ps, uid, p);
      var onFile := if writeOk && IsPolicyValid(p) then PairsKept(now) else saved;
      forall v
        ensures PolicyIn(now, v) == (if v == uid && IsPolicyValid(p) then p else PolicyIn(ps, v))
        ensures PolicyIn(PairsKept(now), v) == Survives(PolicyIn(now, v))
      {
        SetMeans(ps, uid, p, v);
        KeptMeans(now, v);
      }
      ps', saved' := RunRefinesMap(SetStep(st, uid, p, writeOk).0, now, onFile, ops[1..]);
    case Restart =>
      var st' := RestartStep(st).value;
      ps', saved' := RunRefinesMap(st', saved, saved, ops[1..]);
  }

  /**
   The answers after a run: with p0 the uid's policies before it, GetUidPolicy is the policy the run leaves
   in memory, the parsing lookup finds the uid iff that policy is not NONE, and GetUids lists exactly the
   uids with the policy asked for, each once.
   */
  lemma AnswersAfterRun(st: Store, ps: seq<Pair>, saved: seq<Pair>, ops: seq<Op>, uid: UInt32, p: Int32)
    requires Holds(st, ps, saved)
    ensures RunOps(st, ops).Some?
    ensures var l := RunOps(st, ops).value.entries;
      var left := PoliciesAfter(Policies(PolicyIn(ps, uid), PolicyIn(saved, uid)), ops, uid).memory;
      && PolicyOf(l, uid) == Some(left)
      && ParsedUidExists(l, uid) == Some(left != NET_POLICY_NONE)
      && UidsWith(l, p).Some? && NoDuplicates(UidsWith(l, p).value)
      && (uid in UidsWith(l, p).value <==> p != NET_POLICY_NONE && left == p)
  {
    var ps', saved' := RunRefinesMap(st, ps, saved, ops);
    assert Policies(PolicyIn(ps', uid), PolicyIn(saved', uid))
        == PoliciesAfter(Policies(PolicyIn(ps, uid), PolicyIn(saved, uid)), ops, uid);
    ComparedLookup(ps', uid);
    LookupsAgree(ps', uid);
    UidsOfCanonical(ps', p);
    UidsExactlyOnce(ps', p, uid);
  }

  /** Bits 0, 1 and 5: NET_POLICY_ALLOW_MASK. */
  predicate Allows(p: UInt32) {
    p % 2 == 1 || p / 2 % 2 == 1 || p / 32 % 2 == 1
  }

  /** IsUidNetAccess; None if a lookup throws. */
  function NetAccess(l: seq<UidPolicy>, uid: UInt32): Option<bool> {
    match PolicyOf(l, uid)
    case None => None
    case Some(p) => Some(p == NET_POLICY_NONE || Allows(ToUInt32(p)))
  }

  lemma AllowsMeans(p: Int32)
    requires IsPolicyValid(p) && p != NET_POLICY_NONE
    ensures Allows(ToUInt32(p)) <==> p != NET_POLICY_REJECT_METERED_BACKGROUND && p != NET_POLICY_REJECT_ALL
  {
  }

  lemma AccessOfPolicy(ps: seq<Pair>, uid: UInt32)
    requires Canonical(ps)
    ensures NetAccess(Render(ps), uid) == Some(PolicyIn(ps, uid) != 4 && PolicyIn(ps, uid) != 64)
  {
    ComparedLookup(ps, uid);
    MapOfPolicies(ps, uid);
    var p := PolicyIn(ps, uid);
    if p != NET_POLICY_NONE {
      AllowsMeans(p);
    }
  }

  const NEW_STORE := Store([], "", Missing)

  /** From a fresh installation, access is refused exactly when the surviving policy rejects. */
  lemma AccessAfterRun(ops: seq<Op>, uid: UInt32)
    ensures RunOps(NEW_STORE, ops).Some?
    ensures var p := PoliciesAfter(Policies(0, 0), ops, uid).memory;
      NetAccess(RunOps(NEW_STORE, ops).value.entries, uid)
      == Some(p != 4 && p != 64)
  {
    var ps, saved := RunRefinesMap(NEW_STORE, [], [], ops);
    AccessOfPolicy(ps, uid);
    assert PolicyIn([], uid) == NET_POLICY_NONE;
    assert Policies(PolicyIn(ps, uid), PolicyIn(saved, uid))
        == PoliciesAfter(Policies(PolicyIn([], uid), PolicyIn([], uid)), ops, uid);
  }
}

/** The objects: a file that owns the entries, the traffic object that edits it, and the service. */
module NetPolicy {
  import opened Machine
  import opened Decimal
  import opened PolicyStore

  datatype OpType = ADD | DELETE | UPDATE

  class NetPolicyFile {
    var uidPolicys: seq<UidPolicy>
    var hosVersion: string
    var file: File                    // the policy file on disk, shared by successive processes

    function Current(): Store
      reads this
    {
      Store(uidPolicys, hosVersion, file)
    }

    constructor (file: File)
      ensures Current() == Store([], "", file)
    {
      uidPolicys, hosVersion, this.file := [], "", file;
    }

    /**
     Appends the parsed entries to this object, and sets the version. If the library throws, `ok` is false,
     and what had been read until then stays.
     */
    method Json2Obj(root: Json) returns (ok: bool)
      modifies this`uidPolicys, this`hosVersion
      ensures ok <==> Parse(root).Some?
      ensures ok ==> uidPolicys == old(uidPolicys) + Parse(root).value.0 && hosVersion == Parse(root).value.1
      ensures !ok ==>
        var version, list := StringField(root, "hosVersion"), Field(root, "uidPolicy");
        && uidPolicys == old(uidPolicys)
             + (if version.Some? && list.Some? && list.value.Arr? then ReadBefore(list.value.items) else [])
        && hosVersion == (if version.Some? && list.Some? then VersionOf(version.value) else old(hosVersion))
    {
      var version, list := StringField(root, "hosVersion"), Field(root, "uidPolicy");
      assert uidPolicys + [] == uidPolicys;
      if version.None? || list.None? {
        return false;
      }
      hosVersion := VersionOf(version.value);
      match list.value {
        case Arr(items) => ok := ReadEntries(items);
        case Obj(fields) => return fields == map[];
        case _ => return true;
      }
    }

    /** The loop over the array. */
    method ReadEntries(items: seq<Json>) returns (ok: bool)
      modifies this`uidPolicys
      ensures ok <==> ParseEntries(items).Some?
      ensures ok ==> uidPolicys == old(uidPolicys) + ParseEntries(items).value
      ensures uidPolicys == old(uidPolicys) + ReadBefore(items)
    {
      AllRead(items);
      var i := 0;
      while i < |items|
        invariant 0 <= i <= |items|
        invariant ParseEntries(items[i..]).Some? <==> ParseEntries(items).Some?
        invariant uidPolicys + ReadBefore(items[i..]) == old(uidPolicys) + ReadBefore(items)
      {
        assert items[i..][1..] == items[i + 1..];
        var entry := ParseEntry(items[i]);
        if entry.None? {
          assert uidPolicys + [] == uidPolicys;
          return false;
        }
        Regroup(uidPolicys, [entry.value], ReadBefore(items[i + 1..]));
        uidPolicys := uidPolicys + [entry.value];
        i := i + 1;
      }
      assert uidPolicys + [] == uidPolicys;
      return true;
    }

    /**
     `creates` says whether a missing file can be created; None if parsing throws. What the file holds is
     appended, so a second call on the same object duplicates the entries; on a fresh object the result
     is a restart.
     */
    method InitPolicy(creates: bool) returns (r: Option<bool>)
      modifies this
      ensures old(file) == Missing ==> r == Some(creates) && Current() == old(Current()).(file := file)
                                       && file == (if creates then Empty else Missing)
      ensures old(file) == Empty || old(file) == Unparsable ==> r == Some(true) && Current() == old(Current())
      ensures old(file).Doc? ==> file == old(file) && (r == None <==> Parse(file.root).None?)
      ensures old(file).Doc? && r != None ==>
        && r == Some(true)
        && uidPolicys == old(uidPolicys) + Parse(file.root).value.0 && hosVersion == Parse(file.root).value.1
      ensures old(uidPolicys) == [] && old(hosVersion) == "" && (old(file) == Missing ==> creates) && r != None ==>
        RestartStep(old(Current())) == Some(Current())
    {
      match file {
        case Missing =>
          if !creates {
            return Some(false);
          }
          file := Empty;
          return Some(true);
        case Empty => return Some(true);
        case Unparsable => return Some(true);
        case Doc(root) =>
          var ok := Json2Obj(root);
          assert ok ==> [] + Parse(root).value.0 == Parse(root).value.0;
          return if ok then Some(true) else None;
      }
    }

    /** `opens` says whether the file can be opened for writing. */
    method WriteFile(opens: bool) returns (ok: bool)
      modifies this`file
      ensures ok == opens
      ensures file == if ok then Doc(RootJson(uidPolicys, hosVersion)) else old(file)
    {
      if !opens {
        return false;
      }
      var items: seq<Json> := [];
      var i := 0;
      while i < |uidPolicys|
        invariant 0 <= i <= |uidPolicys|
        invariant items + EntriesJson(Kept(uidPolicys[i..])) == EntriesJson(Kept(uidPolicys))
      {
        var e := uidPolicys[i];
        assert uidPolicys[i..] == [e] + uidPolicys[i + 1..];
        KeptCons(e, uidPolicys[i + 1..]);
        if e.policy != PolicyString(NET_POLICY_TEMPORARY_ALLOW_METERED) {
          EntriesJsonCons(e, Kept(uidPolicys[i + 1..]));
          Regroup(items, [EntryJson(e)], EntriesJson(Kept(uidPolicys[i + 1..])));
          items := items + [EntryJson(e)];
        } else {
          assert Kept(uidPolicys[i..]) == Kept(uidPolicys[i + 1..]);
        }
        i := i + 1;
      }
      assert items == EntriesJson(Kept(uidPolicys));
      file := Doc(Obj(if items == [] then map["hosVersion" := Str(hosVersion)]
                      else map["hosVersion" := Str(hosVersion), "uidPolicy" := Arr(items)]));
      return true;
    }

    method UpdateEntry(uid: UInt32, policy: Int32)
      modifies this`uidPolicys
      ensures uidPolicys == Updated(old(uidPolicys), uid, policy)
    {
      ghost var l := uidPolicys;
      var i := 0;
      while i < |uidPolicys|
        invariant 0 <= i <= |uidPolicys| && uidPolicys == l
        invariant Updated(l, uid, policy) == l[..i] + Updated(l[i..], uid, policy)
      {
        var e := uidPolicys[i];
        Around(l, i);
        UpdatedCons(e, l[i + 1..], uid, policy);
        if e.uid == ToString(uid) {
          Replaced(l, i, UidPolicy(e.uid, PolicyString(policy)));
          uidPolicys := uidPolicys[i := UidPolicy(e.uid, PolicyString(policy))];
          return;
        }
        Regroup(l[..i], [e], Updated(l[i + 1..], uid, policy));
        i := i + 1;
      }
    }

    method EraseEntry(uid: UInt32)
      modifies this`uidPolicys
      ensures uidPolicys == Erased(old(uidPolicys), uid)
    {
      ghost var l := uidPolicys;
      var i := 0;
      while i < |uidPolicys|
        invariant 0 <= i <= |uidPolicys| && uidPolicys == l
        invariant Erased(l, uid) == l[..i] + Erased(l[i..], uid)
      {
        var e := uidPolicys[i];
        Around(l, i);
        ErasedCons(e, l[i + 1..], uid);
        if e.uid == ToString(uid) {
          uidPolicys := uidPolicys[..i] + uidPolicys[i + 1..];
          return;
        }
        Regroup(l[..i], [e], Erased(l[i + 1..], uid));
        i := i + 1;
      }
    }

    /** Edits the entries and writes the file; on a failed write the edit stays in memory. */
    method EditAndWrite(op: OpType, uid: UInt32, policy: Int32, opens: bool) returns (ok: bool)
      modifies this`uidPolicys, this`file
      ensures ok == opens
      ensures uidPolicys == match op
                            case UPDATE => Updated(old(uidPolicys), uid, policy)
                            case DELETE => Erased(old(uidPolicys), uid)
                            case ADD => old(uidPolicys) + [UidPolicy(ToString(uid), PolicyString(policy))]
      ensures file == if ok then Doc(RootJson(uidPolicys, hosVersion)) else old(file)
    {
      match op {
        case UPDATE => UpdateEntry(uid, policy);
        case DELETE => EraseEntry(uid);
        case ADD => uidPolicys := uidPolicys + [UidPolicy(ToString(uid), PolicyString(policy))];
      }
      ok := WriteFile(opens);
    }

    /** None if std::stol throws. */
    method IsUidPolicyExist(uid: UInt32) returns (r: Option<bool>)
      ensures r == ParsedUidExists(uidPolicys, uid)
    {
      var i := 0;
      while i < |uidPolicys|
        invariant 0 <= i <= |uidPolicys|
        invariant ParsedUidExists(uidPolicys, uid) == ParsedUidExists(uidPolicys[i..], uid)
      {
        assert uidPolicys[i..][1..] == uidPolicys[i + 1..];
        var parsed := Stol(uidPolicys[i].uid);
        if parsed.None? {
          return None;
        }
        if ToUInt32(parsed.value) == uid {
          return Some(true);
        }
        i := i + 1;
      }
      return Some(false);
    }

    method GetUidPolicy(uid: UInt32) returns (r: Option<Int32>)
      ensures r == PolicyOf(uidPolicys, uid)
    {
      var i := 0;
      while i < |uidPolicys|
        invariant 0 <= i <= |uidPolicys|
        invariant PolicyOf(uidPolicys, uid) == PolicyOf(uidPolicys[i..], uid)
      {
        assert uidPolicys[i..][1..] == uidPolicys[i + 1..];
        if uidPolicys[i].uid == ToString(uid) {
          var parsed := Stol(uidPolicys[i].policy);
          return if parsed.None? then None else Some(ToInt32(parsed.value));
        }
        i := i + 1;
      }
      return Some(NET_POLICY_NONE);
    }

    /** Appends to the caller's vector. */
    method GetUids(policy: Int32, uids: seq<UInt32>) returns (r: Option<seq<UInt32>>)
      ensures r == match UidsWith(uidPolicys, policy) case None => None case Some(us) => Some(uids + us)
    {
      var found := uids;
      var i := 0;
      while i < |uidPolicys|
        invariant 0 <= i <= |uidPolicys|
        invariant match UidsWith(uidPolicys[i..], policy)
                  case None => UidsWith(uidPolicys, policy) == None
                  case Some(us) =>
                    UidsWith(uidPolicys, policy).Some? && found + us == uids + UidsWith(uidPolicys, policy).value
      {
        assert uidPolicys[i..][1..] == uidPolicys[i + 1..];
        if uidPolicys[i].policy == PolicyString(policy) {
          var parsed := Stol(uidPolicys[i].uid);
          if parsed.None? {
            return None;
          }
          found := found + [ToUInt32(parsed.value)];
        }
        i := i + 1;
      }
      assert uidPolicys[i..] == [] && found + [] == found;
      return Some(found);
    }
  }

  lemma Replaced<T>(l: seq<T>, i: nat, x: T)
    requires i < |l|
    ensures l[i := x] == l[..i] + ([x] + l[i + 1..])
  {
  }

  lemma UpdatedCons(e: UidPolicy, rest: seq<UidPolicy>, uid: UInt32, p: Int32)
    ensures Updated([e] + rest, uid, p)
         == if e.uid == ToString(uid) then [UidPolicy(e.uid, PolicyString(p))] + rest else [e] + Updated(rest, uid, p)
  {
    assert ([e] + rest)[1..] == rest;
  }

  lemma ErasedCons(e: UidPolicy, rest: seq<UidPolicy>, uid: UInt32)
    ensures Erased([e] + rest, uid) == if e.uid == ToString(uid) then rest else [e] + Erased(rest, uid)
  {
    assert ([e] + rest)[1..] == rest;
  }

  lemma EntriesJsonCons(e: UidPolicy, rest: seq<UidPolicy>)
    ensures EntriesJson([e] + rest) == [EntryJson(e)] + EntriesJson(rest)
  {
    assert ([e] + rest)[1..] == rest;
  }

  class NetPolicyTraffic {
    const netPolicyFile: NetPolicyFile

    constructor (netPolicyFile: NetPolicyFile)
      ensures this.netPolicyFile == netPolicyFile
    {
      this.netPolicyFile := netPolicyFile;
    }

    /** AddUidPolicy, SetUidPolicy and DeleteUidPolicy: they differ in the operation they pass on. */
    method Edit(op: OpType, uid: UInt32, policy: Int32, opens: bool) returns (code: Code)
      modifies netPolicyFile`uidPolicys, netPolicyFile`file
      ensures code == if !IsPolicyValid(policy) then ERR_INVALID_POLICY
                      else if opens then ERR_NONE else ERR_INTERNAL_ERROR
      ensures !IsPolicyValid(policy) ==> netPolicyFile.Current() == old(netPolicyFile.Current())
      ensures IsPolicyValid(policy) ==>
        && netPolicyFile.uidPolicys == (match op
             case UPDATE => Updated(old(netPolicyFile.uidPolicys), uid, policy)
             case DELETE => Erased(old(netPolicyFile.uidPolicys), uid)
             case ADD => old(netPolicyFile.uidPolicys) + [UidPolicy(ToString(uid), PolicyString(policy))])
        && netPolicyFile.file == (if opens then Doc(RootJson(netPolicyFile.uidPolicys, netPolicyFile.hosVersion))
                                  else old(netPolicyFile.file))
    {
      if !IsPolicyValid(policy) {
        return ERR_INVALID_POLICY;
      }
      var ok := netPolicyFile.EditAndWrite(op, uid, policy, opens);
      return if ok then ERR_NONE else ERR_INTERNAL_ERROR;
    }
  }

  class NetPolicyService {
    const netPolicyFile: NetPolicyFile
    const netPolicyTraffic: NetPolicyTraffic

    constructor (netPolicyFile: NetPolicyFile)
      ensures this.netPolicyFile == netPolicyFile && netPolicyTraffic.netPolicyFile == netPolicyFile
    {
      this.netPolicyFile := netPolicyFile;
      netPolicyTraffic := new NetPolicyTraffic(netPolicyFile);
    }

    /** One step of the run that RunRefinesMap is about. */
    method SetUidPolicy(uid: UInt32, policy: Int32, opens: bool) returns (code: Code)
      requires netPolicyTraffic.netPolicyFile == netPolicyFile
      modifies netPolicyFile`uidPolicys, netPolicyFile`file
      ensures (netPolicyFile.Current(), code) == SetStep(old(netPolicyFile.Current()), uid, policy, opens)
    {
      if policy == NET_POLICY_NONE {
        code := netPolicyTraffic.Edit(DELETE, uid, policy, opens);
        return;
      }
      var known := netPolicyFile.IsUidPolicyExist(uid);
      match known {
        case None => return THROWN;
        case Some(false) => code := netPolicyTraffic.Edit(ADD, uid, policy, opens);
        case Some(true) => code := netPolicyTraffic.Edit(UPDATE, uid, policy, opens);
      }
    }

    method IsUidNetAccess(uid: UInt32) returns (r: Option<bool>)
      ensures r == NetAccess(netPolicyFile.uidPolicys, uid)
    {
      var policy := netPolicyFile.GetUidPolicy(uid);
      match policy {
        case None => return None;
        case Some(p) =>
          if p == NET_POLICY_NONE {
            return Some(true);
          }
          return Some(Allows(ToUInt32(p)));
      }
    }
  }
}
