/**
 * Account records (`Zmbr.getUser`'s clean-up of a raw directory entry).  A
 * record maps attribute names to values; a value is a single string when the
 * directory held exactly one, and the whole list otherwise.  Every requested
 * attribute the entry lacks is filled with the empty string, and `dn` holds
 * the entry's DN.
 */
module Records {
  import opened Ldap

  /** A record value: one unwrapped string, or a list kept as it came. */
  datatype Value = Str(s: string) | List(vs: seq<string>)

  type Record = map<string, Value>

  /** The attributes `getUser` asks the directory for. */
  const RetAttrs: seq<string> := [
    "zimbraMailDeliveryAddress",
    "zimbraMailAlias", "cn",
    "description", "sn",
    "displayName", "givenName",
    "userPassword", "zimbraId"
  ]

  /** The requested attributes, as a set. */
  const Requested: set<string> := set a | a in RetAttrs

  /** The directory values a record value stands for. */
  function Listed(v: Value): seq<string>
  {
    match v
    case Str(s) => [s]
    case List(vs) => vs
  }

  /** Record values as `getUser` produces them: a list never has exactly one element. */
  predicate Canonical(v: Value)
  {
    v.List? ==> |v.vs| != 1
  }

  /** A list of exactly one value becomes that value; any other list is kept.  Nothing is lost. */
  function Unwrap(vs: seq<string>): (v: Value)
    ensures Listed(v) == vs
    ensures Canonical(v)
  {
    if |vs| == 1 then Str(vs[0]) else List(vs)
  }

  /** A canonical value is the unwrapping of the directory values it stands for. */
  lemma UnwrapListed(v: Value)
    requires Canonical(v)
    ensures Unwrap(Listed(v)) == v
  {
  }

  /** A record as `getUser` returns it: every requested attribute and `dn` are keys. */
  predicate IsRecord(r: Record)
  {
    Requested + {"dn"} <= r.Keys
  }

  /** The record `getUser` builds from the first entry it finds. */
  function Normalize(e: RawEntry): (r: Record)
    ensures IsRecord(r)
    ensures r.Keys == e.attrs.Keys + Requested + {"dn"}
    ensures forall k :: k in e.attrs && k != "dn" ==> r[k] == Unwrap(e.attrs[k])
    ensures forall a :: a in RetAttrs && a !in e.attrs ==> r[a] == Str("")
    ensures r["dn"] == Str(e.dn)
  {
    var found := map k | k in e.attrs :: Unwrap(e.attrs[k]);
    var filled := map k | k in found.Keys + Requested :: if k in found then found[k] else Str("");
    filled["dn" := Str(e.dn)]
  }

  /** The clean-up of `getUser`: unwrap what the entry holds, fill what it lacks, add `dn`. */
  method Cleanup(e: RawEntry) returns (ret: Record)
    ensures ret == Normalize(e)
  {
    ret := UnwrapAll(e.attrs);
    ret := FillMissing(ret, e.attrs);
    ret := ret["dn" := Str(e.dn)];
    NormalizeUnique(e, ret);
  }

  /** First loop of the clean-up: every attribute of the entry, unwrapped. */
  method UnwrapAll(attrs: map<string, seq<string>>) returns (ret: Record)
    ensures ret.Keys == attrs.Keys
    ensures forall k :: k in ret ==> ret[k] == Unwrap(attrs[k])
  {
    ret := map[];
    var todo := attrs.Keys;
    while todo != {}
      invariant todo <= attrs.Keys
      invariant ret.Keys == attrs.Keys - todo
      invariant forall k :: k in ret ==> ret[k] == Unwrap(attrs[k])
      decreases |todo|
    {
      var k :| k in todo;
      ret := ret[k := Unwrap(attrs[k])];
      todo := todo - {k};
    }
  }

  /** Second loop of the clean-up: every requested attribute not yet present becomes empty. */
  method FillMissing(found: Record, attrs: map<string, seq<string>>) returns (ret: Record)
    requires found.Keys == attrs.Keys
    ensures ret.Keys == attrs.Keys + Requested
    ensures forall k :: k in found ==> ret[k] == found[k]
    ensures forall k :: k in ret && k !in found ==> ret[k] == Str("")
  {
    ret := found;
    var i := 0;
    while i < |RetAttrs|
      invariant 0 <= i <= |RetAttrs|
      invariant ret.Keys == found.Keys + (set a | a in RetAttrs[..i])
      invariant forall k :: k in found ==> ret[k] == found[k]
      invariant forall k :: k in ret && k !in found ==> ret[k] == Str("")
    {
      var chk := RetAttrs[i];
      if chk !in ret.Keys {
        ret := ret[chk := Str("")];
      }
      assert RetAttrs[..i + 1] == RetAttrs[..i] + [chk];
      i := i + 1;
    }
    assert RetAttrs[..i] == RetAttrs;
  }

  /** A record with Normalize's keys and Normalize's values is Normalize's record. */
  lemma NormalizeUnique(e: RawEntry, r: Record)
    requires r.Keys == e.attrs.Keys + Requested + {"dn"}
    requires forall k :: k in e.attrs && k != "dn" ==> r[k] == Unwrap(e.attrs[k])
    requires forall k :: k in r && k !in e.attrs && k != "dn" ==> r[k] == Str("")
    requires r["dn"] == Str(e.dn)
    ensures r == Normalize(e)
  {
    var n := Normalize(e);
    assert r.Keys == n.Keys;
    forall k | k in r
      ensures r[k] == n[k]
    {
    }
  }
}
