/**
 * One Zimbra system (`Zmbr`), source or target, with its remote state held in
 * memory.  The directory side answers searches for a delivery address with a
 * stream of result pages and stores each entry's `userPassword` by DN; the
 * admin side stores account attributes by `zimbraId` and creates accounts.
 * Every verb is addressed by what the record it is given holds: `zimbraId` for
 * admin attributes, `dn` for the password.
 */
module Zmbr {
  import opened Wrappers
  import opened Ldap
  import opened Records

  /** The fixed password an account is created with, before its digest is written. */
  const TempPassword: string := "TemPhoraryPWDD--"

  /** The record attributes `createUser` forwards, as the source spells them. */
  const ForwardedNamesAsWritten: seq<string> := ["sn", "givenName", "diplayName", "description"]

  /** The record attributes `createUser` is meant to forward. */
  const ForwardedNames: seq<string> := ["sn", "givenName", "displayName", "description"]

  const StatusAttr: string := "zimbraAccountStatus"
  const TransportAttr: string := "zimbraMailTransport"

  /** The transport value `setMailTransport` writes for a host. */
  function Transport(host: string): (t: string)
    ensures |t| == |host| + 10
    ensures t[..5] == "lmtp:" && t[5..|t| - 5] == host && t[|t| - 5..] == ":7025"
  {
    "lmtp:" + host + ":7025"
  }

  /** The host a transport value points at, if it has the `lmtp:<host>:7025` form. */
  function TransportHost(t: string): Option<string>
  {
    if |t| >= 10 && t[..5] == "lmtp:" && t[|t| - 5..] == ":7025" then Some(t[5..|t| - 5]) else None
  }

  /** Reading the host back out of a transport value gives the host it was made from. */
  lemma TransportRoundTrip(host: string)
    ensures TransportHost(Transport(host)) == Some(host)
  {
  }

  /** Distinct hosts give distinct transports. */
  lemma TransportInjective(a: string, b: string)
    requires Transport(a) == Transport(b)
    ensures a == b
  {
    TransportRoundTrip(a);
    TransportRoundTrip(b);
  }

  /** A value as it appears when formatted into a search filter or an account name. */
  function Text(v: Value): string
  {
    match v
    case Str(s) => s
    case List(vs) => "[" + Quoted(vs) + "]"
  }

  /** The elements of a list, each in single quotes, separated by ", ". */
  function Quoted(vs: seq<string>): string
  {
    if vs == [] then ""
    else "'" + vs[0] + "'" + (if |vs| == 1 then "" else ", " + Quoted(vs[1..]))
  }

  /** The admin request `createUser` sends: account name, password and forwarded attributes. */
  datatype Creation = Creation(name: Value, password: string, attrs: map<string, Value>)

  /**
   * The remote state of one system.
   *   directory:  the page stream a search for each delivery address is answered with
   *   refused:    account names the admin endpoint rejects by policy
   *   passwords:  the userPassword of each directory entry, by DN
   *   admin:      the admin attributes of each account, by zimbraId
   *   created:    the account-creation requests the admin endpoint accepted, in order
   */
  datatype Sys = Sys(
    directory: map<string, seq<Page>>,
    refused: set<string>,
    passwords: map<Value, Value>,
    admin: map<Value, map<string, string>>,
    created: seq<Creation>)

  /** The response to a search for `email`: an address the directory does not know yields only the final empty page. */
  function Response(s: Sys, email: string): seq<Page>
  {
    if email in s.directory then s.directory[email] else [Page(SearchResult, [])]
  }

  /** The keys the verbs and the cutover read from a record: delivery address, DN, digest and zimbraId. */
  predicate Keyed(rec: Record)
  {
    "zimbraMailDeliveryAddress" in rec && "dn" in rec && "userPassword" in rec && "zimbraId" in rec
  }

  /** `getUser`: the normalised first entry found for `email`, or nothing. */
  function Lookup(s: Sys, email: string): (r: Option<Record>)
    ensures r.None? <==> Drain(Response(s, email)) == []
    ensures r.Some? ==> IsRecord(r.value) && Keyed(r.value)
    ensures r.Some? ==> Drain(Response(s, email))[0] != [] && r.value == Normalize(Drain(Response(s, email))[0][0])
  {
    var found := Drain(Response(s, email));
    DrainNonEmpty(Response(s, email));
    if found == [] then None else NormalizeKeyed(found[0][0]); Some(Normalize(found[0][0]))
  }

  /** A cleaned-up entry holds every key the verbs read. */
  lemma NormalizeKeyed(e: RawEntry)
    ensures Keyed(Normalize(e))
  {
    var r := Normalize(e);
    assert IsRecord(r);
  }

  /** The value of admin attribute `name` of account `id`, if set. */
  function Attr(s: Sys, id: Value, name: string): Option<string>
  {
    if id in s.admin && name in s.admin[id] then Some(s.admin[id][name]) else None
  }

  /** `r` differs from `s` in at most admin attribute `name` of account `id`. */
  ghost predicate OnlyAttrChanged(s: Sys, r: Sys, id: Value, name: string)
  {
    r.directory == s.directory && r.refused == s.refused && r.passwords == s.passwords && r.created == s.created &&
    (forall i, n {:trigger Attr(r, i, n)} :: (i != id || n != name) ==> Attr(r, i, n) == Attr(s, i, n))
  }

  /** `ma(id, name, v)`: set one admin attribute of one account. */
  function SetAttr(s: Sys, id: Value, name: string, v: string): Sys
  {
    var cur := if id in s.admin then s.admin[id] else map[];
    s.(admin := s.admin[id := cur[name := v]])
  }

  /** `lock`: the account named by the record's zimbraId becomes locked. */
  function Locked(s: Sys, rec: Record): Sys
    requires "zimbraId" in rec
  {
    SetAttr(s, rec["zimbraId"], StatusAttr, "locked")
  }

  /** `unlock`: the account named by the record's zimbraId becomes active. */
  function Unlocked(s: Sys, rec: Record): Sys
    requires "zimbraId" in rec
  {
    SetAttr(s, rec["zimbraId"], StatusAttr, "active")
  }

  /** `setMailTransport`: mail for the record's zimbraId is delivered to `host` over LMTP. */
  function WithTransport(s: Sys, rec: Record, host: string): Sys
    requires "zimbraId" in rec
  {
    SetAttr(s, rec["zimbraId"], TransportAttr, Transport(host))
  }

  /** `setHashPwd`: the entry at the record's dn gets the record's digest as its only userPassword. */
  function WithHash(s: Sys, rec: Record): Sys
    requires "dn" in rec && "userPassword" in rec
  {
    s.(passwords := s.passwords[rec["dn"] := rec["userPassword"]])
  }

  /** `ma` writes exactly the one attribute it names. */
  lemma SetAttrSpec(s: Sys, id: Value, name: string, v: string)
    ensures Attr(SetAttr(s, id, name, v), id, name) == Some(v)
    ensures OnlyAttrChanged(s, SetAttr(s, id, name, v), id, name)
  {
  }

  /** `lock` sets the status of the record's account to locked and changes nothing else. */
  lemma LockSpec(s: Sys, rec: Record)
    requires "zimbraId" in rec
    ensures Attr(Locked(s, rec), rec["zimbraId"], StatusAttr) == Some("locked")
    ensures OnlyAttrChanged(s, Locked(s, rec), rec["zimbraId"], StatusAttr)
  {
    SetAttrSpec(s, rec["zimbraId"], StatusAttr, "locked");
  }

  /** `unlock` sets the status of the record's account to active and changes nothing else. */
  lemma UnlockSpec(s: Sys, rec: Record)
    requires "zimbraId" in rec
    ensures Attr(Unlocked(s, rec), rec["zimbraId"], StatusAttr) == Some("active")
    ensures OnlyAttrChanged(s, Unlocked(s, rec), rec["zimbraId"], StatusAttr)
  {
    SetAttrSpec(s, rec["zimbraId"], StatusAttr, "active");
  }

  /** `setMailTransport` points the record's account at `lmtp:<host>:7025` and changes nothing else. */
  lemma TransportSpec(s: Sys, rec: Record, host: string)
    requires "zimbraId" in rec
    ensures Attr(WithTransport(s, rec, host), rec["zimbraId"], TransportAttr) == Some(Transport(host))
    ensures TransportHost(Attr(WithTransport(s, rec, host), rec["zimbraId"], TransportAttr).value) == Some(host)
    ensures OnlyAttrChanged(s, WithTransport(s, rec, host), rec["zimbraId"], TransportAttr)
  {
    SetAttrSpec(s, rec["zimbraId"], TransportAttr, Transport(host));
    TransportRoundTrip(host);
  }

  /** `setHashPwd` replaces the userPassword at the record's dn by the record's digest, verbatim, and changes nothing else. */
  lemma HashSpec(s: Sys, rec: Record)
    requires "dn" in rec && "userPassword" in rec
    ensures var r := WithHash(s, rec);
      rec["dn"] in r.passwords && r.passwords[rec["dn"]] == rec["userPassword"]
    ensures var r := WithHash(s, rec);
      forall dn :: dn != rec["dn"] ==> ((dn in r.passwords <==> dn in s.passwords) &&
        (dn in s.passwords ==> r.passwords[dn] == s.passwords[dn]))
    ensures var r := WithHash(s, rec);
      r.directory == s.directory && r.refused == s.refused && r.admin == s.admin && r.created == s.created
  {
  }

  /** The attributes of `rec` whose names are listed in `names`. */
  function Forwarded(rec: Record, names: seq<string>): (m: map<string, Value>)
    ensures forall k :: k in m <==> k in rec && k in names
    ensures forall k :: k in m ==> m[k] == rec[k]
  {
    map k | k in rec && k in names :: rec[k]
  }

  /** The search response for an account the admin endpoint has just created from `rec`. */
  function CreatedResponse(rec: Record, attrs: map<string, Value>): seq<Page>
    requires "zimbraMailDeliveryAddress" in rec && "dn" in rec
  {
    var stored := map k | k in attrs :: Listed(attrs[k]);
    var entry := RawEntry(Text(rec["dn"]), stored["zimbraMailDeliveryAddress" := Listed(rec["zimbraMailDeliveryAddress"])]);
    [Page(SearchEntry, [entry]), Page(SearchResult, [])]
  }

  /**
   * `createUser`: ask the admin endpoint for an account named by the record's
   * delivery address, with the fixed temporary password and the forwarded
   * attributes.  The endpoint refuses an address that already exists or that
   * its policy rejects; then nothing changes and the result is false.
   */
  function Create(s: Sys, rec: Record): (bool, Sys)
    requires "zimbraMailDeliveryAddress" in rec && "dn" in rec
  {
    var mail := rec["zimbraMailDeliveryAddress"];
    var name := Text(mail);
    if Lookup(s, name).Some? || name in s.refused then (false, s)
    else
      var attrs := Forwarded(rec, ForwardedNamesAsWritten);
      (true, s.(directory := s.directory[name := CreatedResponse(rec, attrs)],
                created := s.created + [Creation(mail, TempPassword, attrs)]))
  }

  /**
   * Creation succeeds exactly when the address is unknown and not refused; a
   * refused creation changes nothing, a successful one records the request
   * with the fixed temporary password.  Passwords, admin attributes and the
   * answers for other addresses never change.
   */
  lemma CreateSpec(s: Sys, rec: Record)
    requires "zimbraMailDeliveryAddress" in rec && "dn" in rec
    ensures var name := Text(rec["zimbraMailDeliveryAddress"]);
      Create(s, rec).0 <==> Lookup(s, name).None? && name !in s.refused
    ensures !Create(s, rec).0 ==> Create(s, rec).1 == s
    ensures Create(s, rec).0 ==> Create(s, rec).1.created == s.created + [Creation(rec["zimbraMailDeliveryAddress"], TempPassword, Forwarded(rec, ForwardedNamesAsWritten))]
    ensures Create(s, rec).0 ==> "displayName" !in Create(s, rec).1.created[|s.created|].attrs
    ensures Create(s, rec).1.passwords == s.passwords && Create(s, rec).1.admin == s.admin && Create(s, rec).1.refused == s.refused
    ensures forall e :: e != Text(rec["zimbraMailDeliveryAddress"]) ==> Response(Create(s, rec).1, e) == Response(s, e)
  {
  }

  /** Setting an admin attribute to the value it already has changes nothing. */
  lemma SetAttrIdempotent(s: Sys, id: Value, name: string, v: string)
    ensures SetAttr(SetAttr(s, id, name, v), id, name, v) == SetAttr(s, id, name, v)
  {
    var once := SetAttr(s, id, name, v);
    var cur := if id in s.admin then s.admin[id] else map[];
    assert once.admin[id] == cur[name := v];
    assert cur[name := v][name := v] == cur[name := v];
  }

  /** Locking twice leaves the system as locking once. */
  lemma LockIdempotent(s: Sys, rec: Record)
    requires "zimbraId" in rec
    ensures Locked(Locked(s, rec), rec) == Locked(s, rec)
  {
    SetAttrIdempotent(s, rec["zimbraId"], StatusAttr, "locked");
  }

  /** Unlocking twice leaves the system as unlocking once. */
  lemma UnlockIdempotent(s: Sys, rec: Record)
    requires "zimbraId" in rec
    ensures Unlocked(Unlocked(s, rec), rec) == Unlocked(s, rec)
  {
    SetAttrIdempotent(s, rec["zimbraId"], StatusAttr, "active");
  }

  /** Setting the same transport twice leaves the system as setting it once. */
  lemma TransportIdempotent(s: Sys, rec: Record, host: string)
    requires "zimbraId" in rec
    ensures WithTransport(WithTransport(s, rec, host), rec, host) == WithTransport(s, rec, host)
  {
    SetAttrIdempotent(s, rec["zimbraId"], TransportAttr, Transport(host));
  }

  /** Writing the same digest twice leaves the system as writing it once. */
  lemma HashIdempotent(s: Sys, rec: Record)
    requires "dn" in rec && "userPassword" in rec
    ensures WithHash(WithHash(s, rec), rec) == WithHash(s, rec)
  {
  }

  /**
   * Provisioning round trip: after a successful `createUser`, a search for the
   * address finds the account, with the address and every forwarded attribute
   * equal to what the record held.
   */
  lemma {:induction false} CreateThenLookup(s: Sys, rec: Record)
    requires "zimbraMailDeliveryAddress" in rec && "dn" in rec
    requires rec["zimbraMailDeliveryAddress"].Str?
    requires forall k :: k in rec ==> Canonical(rec[k])
    requires Create(s, rec).0
    ensures var found := Lookup(Create(s, rec).1, Text(rec["zimbraMailDeliveryAddress"]));
      found.Some? &&
      found.value["zimbraMailDeliveryAddress"] == rec["zimbraMailDeliveryAddress"] &&
      forall k :: k in Forwarded(rec, ForwardedNamesAsWritten) && k != "zimbraMailDeliveryAddress" ==> k in found.value && found.value[k] == rec[k]
  {
    var name := Text(rec["zimbraMailDeliveryAddress"]);
    var attrs := Forwarded(rec, ForwardedNamesAsWritten);
    var t := Create(s, rec).1;
    var pages := CreatedResponse(rec, attrs);
    assert Response(t, name) == pages;
    DrainStops([pages[0]], pages[1], []);
    assert [pages[0]] + [pages[1]] + [] == pages;
    assert Entries([pages[0]]) == Entries([]) + [pages[0].data];
    var entry := pages[0].data[0];
    assert Drain(pages)[0][0] == entry;
    forall k | k in attrs && k != "zimbraMailDeliveryAddress"
      ensures Normalize(entry)[k] == rec[k]
    {
      assert entry.attrs[k] == Listed(rec[k]);
    }
  }

  /** As written, `createUser` never forwards `displayName`, whatever the record holds. */
  lemma DisplayNameNotForwardedAsWritten(rec: Record)
    ensures "displayName" !in Forwarded(rec, ForwardedNamesAsWritten)
  {
  }

  /** With the intended names, `displayName` is forwarded exactly when the record has it. */
  lemma DisplayNameForwarded(rec: Record)
    ensures "displayName" in Forwarded(rec, ForwardedNames) <==> "displayName" in rec
    ensures "displayName" in rec ==> Forwarded(rec, ForwardedNames)["displayName"] == rec["displayName"]
  {
  }

  /** The remote calls of a cutover, with the keys and values they are sent. */
  datatype Verb =
    | CreateUser(name: Value)
    | SetHashPwd(dn: Value, digest: Value)
    | Unlock(id: Value)
    | Lock(id: Value)
    | SetMailTransport(id: Value, transport: string)

  /** A remote system as the migration sees it: its state, changed only through the verbs below. */
  class System {
    var directory: map<string, seq<Page>>
    const refused: set<string>
    var passwords: map<Value, Value>
    var admin: map<Value, map<string, string>>
    var created: seq<Creation>

    function State(): Sys
      reads this
    {
      Sys(directory, refused, passwords, admin, created)
    }

    constructor (directory: map<string, seq<Page>>, refused: set<string>,
                 passwords: map<Value, Value>, admin: map<Value, map<string, string>>)
      ensures State() == Sys(directory, refused, passwords, admin, [])
    {
      this.directory := directory;
      this.refused := refused;
      this.passwords := passwords;
      this.admin := admin;
      this.created := [];
    }

    /** `getUser`: search for the address, drain the pages, clean up the first entry. */
    method GetUser(email: string) returns (r: Option<Record>)
      ensures r == Lookup(State(), email)
    {
      var user := LSearch(Response(State(), email));
      if user == [] {
        return None;
      }
      var ret := Cleanup(user[0][0]);
      r := Some(ret);
    }

    /** `ma(id, name, v)` on this system. */
    method ModifyAccount(id: Value, name: string, v: string)
      modifies this
      ensures State() == SetAttr(old(State()), id, name, v)
    {
      var cur := if id in admin then admin[id] else map[];
      admin := admin[id := cur[name := v]];
    }

    /** `lock`; the call it makes is returned. */
    method Lock(rec: Record) returns (v: Verb)
      requires "zimbraId" in rec
      modifies this
      ensures v == Verb.Lock(rec["zimbraId"])
      ensures State() == Locked(old(State()), rec)
    {
      ModifyAccount(rec["zimbraId"], StatusAttr, "locked");
      v := Verb.Lock(rec["zimbraId"]);
    }

    /** `unlock`; the call it makes is returned. */
    method Unlock(rec: Record) returns (v: Verb)
      requires "zimbraId" in rec
      modifies this
      ensures v == Verb.Unlock(rec["zimbraId"])
      ensures State() == Unlocked(old(State()), rec)
    {
      ModifyAccount(rec["zimbraId"], StatusAttr, "active");
      v := Verb.Unlock(rec["zimbraId"]);
    }

    /** `setMailTransport`; the call it makes is returned. */
    method SetMailTransport(rec: Record, host: string) returns (v: Verb)
      requires "zimbraId" in rec
      modifies this
      ensures v == Verb.SetMailTransport(rec["zimbraId"], Transport(host))
      ensures State() == WithTransport(old(State()), rec, host)
    {
      var transport := "lmtp:" + host + ":7025";
      ModifyAccount(rec["zimbraId"], TransportAttr, transport);
      v := Verb.SetMailTransport(rec["zimbraId"], transport);
    }

    /** `setHashPwd`: a REPLACE modify of `userPassword` at the record's dn; the call it makes is returned. */
    method SetHashPwd(rec: Record) returns (v: Verb)
      requires "dn" in rec && "userPassword" in rec
      modifies this
      ensures v == Verb.SetHashPwd(rec["dn"], rec["userPassword"])
      ensures State() == WithHash(old(State()), rec)
    {
      passwords := passwords[rec["dn"] := rec["userPassword"]];
      v := Verb.SetHashPwd(rec["dn"], rec["userPassword"]);
    }

    /** `createUser`; whether it succeeded and the call it makes are returned. */
    method CreateUser(rec: Record) returns (ok: bool, v: Verb)
      requires "zimbraMailDeliveryAddress" in rec && "dn" in rec
      modifies this
      ensures v == Verb.CreateUser(rec["zimbraMailDeliveryAddress"])
      ensures (ok, State()) == Create(old(State()), rec)
    {
      var mail := rec["zimbraMailDeliveryAddress"];
      v := Verb.CreateUser(mail);
      var attrs := Forwarded(rec, ForwardedNamesAsWritten);
      var existing := GetUser(Text(mail));
      if existing.Some? || Text(mail) in refused {
        return false, v;
      }
      directory := directory[Text(mail) := CreatedResponse(rec, attrs)];
      created := created + [Creation(mail, TempPassword, attrs)];
      ok := true;
    }
  }
}
