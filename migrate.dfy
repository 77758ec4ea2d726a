/**
 * The migration (`Migrate`): load the list of addresses, resolve every one on
 * the source before anything changes, and cut each account over from the
 * source system to the target system in a fixed order, stopping the whole run
 * at the first account the target refuses to create.
 */
module Migrate {
  import opened Wrappers
  import opened Strings
  import opened Records
  import opened Zmbr
  import opened ZmzConf

  /** Why a run stops early; each is a one-line message and exit status 1 in the source. */
  datatype Failure =
    | ListFileNotFound
    | EmptyList
    | EmailNotFound(email: string)
    | CannotCreate(mail: Value)

  // ---------------------------------------------------------------------------
  // The list of addresses (`__init__`)

  /** The migrate list: every line of the file stripped, blank lines included; a missing or empty file aborts. */
  function LoadList(file: Option<string>): (r: Result<seq<string>, Failure>)
    ensures file.None? ==> r == Err(ListFileNotFound)
    ensures file.Some? ==> (r == Err(EmptyList) <==> file.value == "")
    ensures file.Some? && file.value != "" ==> r.Ok?
    ensures r.Ok? ==> (file.Some? && |r.value| == |ReadLines(file.value)| > 0 &&
                       forall k :: 0 <= k < |r.value| ==> r.value[k] == Strip(ReadLines(file.value)[k]))
  {
    match file
    case None => Err(ListFileNotFound)
    case Some(text) =>
      var lines := ReadLines(text);
      var list := seq(|lines|, k requires 0 <= k < |lines| => Strip(lines[k]));
      if list == [] then Err(EmptyList) else Ok(list)
  }

  /** No address of a loaded list contains a newline, so the list joins and splits back on `,` cleanly. */
  lemma LoadedAddressesSingleLine(file: Option<string>)
    requires LoadList(file).Ok?
    ensures forall k :: 0 <= k < |LoadList(file).value| ==> '\n' !in LoadList(file).value[k]
  {
    var list := LoadList(file).value;
    var lines := ReadLines(file.value);
    forall k | 0 <= k < |list|
      ensures '\n' !in list[k]
    {
      StripLineNoNewline(lines[k]);
    }
  }

  /** An address of the list is empty exactly when its line of the file is blank, so blank lines are kept, not dropped. */
  lemma BlankLinesKept(text: string, k: nat)
    requires k < |ReadLines(text)|
    ensures LoadList(Some(text)).Ok?
    ensures LoadList(Some(text)).value[k] == "" <==> AllSpace(ReadLines(text)[k])
  {
    StripEmpty(ReadLines(text)[k]);
  }

  // ---------------------------------------------------------------------------
  // Resolving every address on the source (first half of `run`)

  /** What the source answers for each address of the list. */
  function Lookups(s: Sys, emails: seq<string>): (found: seq<Option<Record>>)
    ensures |found| == |emails|
    ensures forall i :: 0 <= i < |emails| ==> found[i] == Lookup(s, emails[i])
  {
    seq(|emails|, i requires 0 <= i < |emails| => Lookup(s, emails[i]))
  }

  /** The records found, in order, or a failure naming the first address with none. */
  function Collect(found: seq<Option<Record>>, emails: seq<string>): Result<seq<Record>, Failure>
    requires |found| == |emails|
    decreases |emails|
  {
    if emails == [] then Ok([])
    else
      match found[0]
      case None => Err(EmailNotFound(emails[0]))
      case Some(user) => Prefixed([user], Collect(found[1..], emails[1..]))
  }

  /** Resolving the list on the source (the lookup loop of `run`). */
  function ResolveAll(s: Sys, emails: seq<string>): (r: Result<seq<Record>, Failure>)
    ensures r.Ok? ==> forall i :: 0 <= i < |r.value| ==> IsRecord(r.value[i]) && Keyed(r.value[i])
  {
    CollectSpec(Lookups(s, emails), emails);
    Collect(Lookups(s, emails), emails)
  }

  /** Collecting succeeds exactly when every address was found, and then keeps the records in order. */
  lemma {:induction false} CollectSpec(found: seq<Option<Record>>, emails: seq<string>)
    requires |found| == |emails|
    ensures var r := Collect(found, emails);
      (r.Ok? <==> forall i :: 0 <= i < |found| ==> found[i].Some?) &&
      (r.Ok? ==> (|r.value| == |found| && forall i :: 0 <= i < |found| ==> found[i] == Some(r.value[i]))) &&
      (r.Err? ==> (exists i :: 0 <= i < |found| && r.error == EmailNotFound(emails[i]) &&
                               found[i].None? && forall j :: 0 <= j < i ==> found[j].Some?))
    decreases |emails|
  {
    if emails != [] && found[0].Some? {
      var tf, te := found[1..], emails[1..];
      CollectSpec(tf, te);
      assert forall i :: 1 <= i < |found| ==> found[i] == tf[i - 1];
      var rest := Collect(tf, te);
      if rest.Err? {
        var i :| 0 <= i < |tf| && rest.error == EmailNotFound(te[i]) &&
          tf[i].None? && forall j :: 0 <= j < i ==> tf[j].Some?;
        assert found[i + 1] == tf[i] && emails[i + 1] == te[i];
      } else {
        assert forall i :: 0 <= i < |tf| ==> tf[i].Some?;
      }
    }
  }

  /**
   * Resolution succeeds exactly when the source knows every address, and then
   * yields each address's record in list order; otherwise it names the first
   * address the source does not know.
   */
  lemma ResolveAllSpec(s: Sys, emails: seq<string>)
    ensures var r := ResolveAll(s, emails);
      (r.Ok? <==> forall i :: 0 <= i < |emails| ==> Lookup(s, emails[i]).Some?) &&
      (r.Ok? ==> (|r.value| == |emails| &&
                  forall i :: 0 <= i < |emails| ==> Lookup(s, emails[i]) == Some(r.value[i]))) &&
      (r.Err? ==> (exists i :: 0 <= i < |emails| && r.error == EmailNotFound(emails[i]) &&
                               Lookup(s, emails[i]).None? && forall j :: 0 <= j < i ==> Lookup(s, emails[j]).Some?))
  {
    CollectSpec(Lookups(s, emails), emails);
  }

  /** `prefix` followed by the outcome `r` of the rest. */
  function Prefixed(prefix: seq<Record>, r: Result<seq<Record>, Failure>): Result<seq<Record>, Failure>
  {
    if r.Ok? then Ok(prefix + r.value) else r
  }

  lemma PrefixedAppend(prefix: seq<Record>, user: Record, r: Result<seq<Record>, Failure>)
    ensures Prefixed(prefix, Prefixed([user], r)) == Prefixed(prefix + [user], r)
  {
    if r.Ok? {
      assert prefix + ([user] + r.value) == prefix + [user] + r.value;
    }
  }

  /** Collecting from the `i`-th address: a failure naming it if it was not found, else its record before the rest. */
  lemma CollectFrom(found: seq<Option<Record>>, emails: seq<string>, i: nat)
    requires |found| == |emails| && i < |emails|
    ensures Collect(found[i..], emails[i..]) ==
      match found[i]
      case None => Err(EmailNotFound(emails[i]))
      case Some(user) => Prefixed([user], Collect(found[i + 1..], emails[i + 1..]))
  {
    assert found[i..][0] == found[i] && emails[i..][0] == emails[i];
    assert found[i..][1..] == found[i + 1..] && emails[i..][1..] == emails[i + 1..];
  }

  /** The lookup loop of `run`: stop at the first address the source does not know. */
  method Resolve(src: System, emails: seq<string>) returns (r: Result<seq<Record>, Failure>)
    ensures r == ResolveAll(src.State(), emails)
  {
    var migrateme: seq<Record> := [];
    var i := 0;
    ghost var found := Lookups(src.State(), emails);
    assert found[0..] == found && emails[0..] == emails;
    assert Collect(found, emails).Ok? ==> [] + Collect(found, emails).value == Collect(found, emails).value;
    while i < |emails|
      invariant 0 <= i <= |emails|
      invariant Collect(found, emails) == Prefixed(migrateme, Collect(found[i..], emails[i..]))
    {
      var user := src.GetUser(emails[i]);
      assert found[i] == user;
      CollectFrom(found, emails, i);
      if user.None? {
        return Err(EmailNotFound(emails[i]));
      }
      PrefixedAppend(migrateme, user.value, Collect(found[i + 1..], emails[i + 1..]));
      migrateme := migrateme + [user.value];
      i := i + 1;
    }
    assert found[i..] == [] && emails[i..] == [];
    assert migrateme + [] == migrateme;
    r := Ok(migrateme);
  }

  // ---------------------------------------------------------------------------
  // The cutover (`switchAccounts`)

  datatype Side = Source | Target

  datatype Call = Call(side: Side, verb: Verb)

  /**
   * Where a sequence of cutovers ends: both systems' states, the calls made in
   * order, how many accounts were switched, and the failure that stopped it.
   */
  datatype Cut = Cut(src: Sys, tgt: Sys, trace: seq<Call>, done: nat, failure: Option<Failure>)

  /** The five calls that switch an account once it exists on the target, in order. */
  function Steps(rec: Record, host: string): seq<Call>
    requires Keyed(rec)
  {
    var id := rec["zimbraId"];
    [ Call(Target, SetHashPwd(rec["dn"], rec["userPassword"])),
      Call(Target, Unlock(id)),
      Call(Source, Lock(id)),
      Call(Source, SetMailTransport(id, Transport(host))),
      Call(Target, SetMailTransport(id, Transport(host))) ]
  }

  /** The effect of one call on the system it is sent to.  A creation is applied by `Create`, which also decides whether it succeeds. */
  function Apply(s: Sys, verb: Verb): Sys
  {
    match verb
    case CreateUser(_) => s
    case SetHashPwd(dn, digest) => s.(passwords := s.passwords[dn := digest])
    case Unlock(id) => SetAttr(s, id, StatusAttr, "active")
    case Lock(id) => SetAttr(s, id, StatusAttr, "locked")
    case SetMailTransport(id, t) => SetAttr(s, id, TransportAttr, t)
  }

  /** The two systems once `calls` are applied in order, each to the side it names. */
  function Exec(src: Sys, tgt: Sys, calls: seq<Call>): (Sys, Sys)
    decreases |calls|
  {
    if calls == [] then (src, tgt)
    else if calls[0].side == Source then Exec(Apply(src, calls[0].verb), tgt, calls[1..])
    else Exec(src, Apply(tgt, calls[0].verb), calls[1..])
  }

  /**
   * The five steps, applied in order, are `setHashPwd`, `unlock` and
   * `setMailTransport` on the target and `lock` and `setMailTransport` on the
   * source, each given the source record.
   */
  lemma ExecSteps(src: Sys, tgt: Sys, rec: Record, host: string)
    requires Keyed(rec)
    ensures Exec(src, tgt, Steps(rec, host)) ==
      (WithTransport(Locked(src, rec), rec, host), WithTransport(Unlocked(WithHash(tgt, rec), rec), rec, host))
  {
    var steps := Steps(rec, host);
    var t1 := WithHash(tgt, rec);
    var t2 := Unlocked(t1, rec);
    var s1 := Locked(src, rec);
    var s2 := WithTransport(s1, rec, host);
    var t3 := WithTransport(t2, rec, host);
    assert steps[1..][1..][1..][1..][1..] == [];
    assert Exec(s2, t2, steps[1..][1..][1..][1..]) == (s2, t3);
    assert Exec(s1, t2, steps[1..][1..][1..]) == (s2, t3);
    assert Exec(src, t2, steps[1..][1..]) == (s2, t3);
    assert Exec(src, t1, steps[1..]) == (s2, t3);
  }

  /** The account of `rec` is switched: active with the source digest on target, locked on source, both delivering to `host`. */
  ghost predicate Switched(src: Sys, tgt: Sys, rec: Record, host: string)
    requires Keyed(rec)
  {
    var id := rec["zimbraId"];
    Attr(tgt, id, StatusAttr) == Some("active") &&
    Attr(src, id, StatusAttr) == Some("locked") &&
    Attr(src, id, TransportAttr) == Some(Transport(host)) &&
    Attr(tgt, id, TransportAttr) == Some(Transport(host)) &&
    rec["dn"] in tgt.passwords && tgt.passwords[rec["dn"]] == rec["userPassword"]
  }

  /** One iteration of `switchAccounts`; every call is keyed by the source record. */
  function Cutover(src: Sys, tgt: Sys, rec: Record, host: string): Cut
    requires Keyed(rec)
  {
    var mail := rec["zimbraMailDeliveryAddress"];
    var absent := Lookup(tgt, Text(mail)).None?;
    var (ok, t0) := if absent then Create(tgt, rec) else (true, tgt);
    var attempt := if absent then [Call(Target, CreateUser(mail))] else [];
    if !ok then Cut(src, tgt, attempt, 0, Some(CannotCreate(mail)))
    else
      var (s2, t2) := Exec(src, t0, Steps(rec, host));
      Cut(s2, t2, attempt + Steps(rec, host), 1, None)
  }

  /**
   * One account's cutover: the target account is created only when a search
   * on the target finds none, and a refused creation stops with neither
   * system changed; otherwise the five steps follow in their fixed order and
   * leave the account switched.
   */
  lemma CutoverSpec(src: Sys, tgt: Sys, rec: Record, host: string)
    requires Keyed(rec)
    ensures var c := Cutover(src, tgt, rec, host);
      var mail := rec["zimbraMailDeliveryAddress"];
      var absent := Lookup(tgt, Text(mail)).None?;
      (c.failure.Some? ==> (absent && c.failure == Some(CannotCreate(mail)) && c.done == 0 &&
                            c.src == src && c.tgt == tgt && c.trace == [Call(Target, CreateUser(mail))])) &&
      (c.failure.None? ==> (c.done == 1 && Switched(c.src, c.tgt, rec, host) &&
                            c.trace == (if absent then [Call(Target, CreateUser(mail))] else []) + Steps(rec, host))) &&
      (!absent ==> c.failure.None?)
  {
    var mail := rec["zimbraMailDeliveryAddress"];
    var absent := Lookup(tgt, Text(mail)).None?;
    var (ok, t0) := if absent then Create(tgt, rec) else (true, tgt);
    if ok {
      ExecSteps(src, t0, rec, host);
      StepsSwitch(src, t0, rec, host);
    }
  }

  /** Once the account exists on the target, the five steps leave it switched. */
  lemma StepsSwitch(src: Sys, tgt: Sys, rec: Record, host: string)
    requires Keyed(rec)
    ensures Switched(WithTransport(Locked(src, rec), rec, host), WithTransport(Unlocked(WithHash(tgt, rec), rec), rec, host), rec, host)
  {
    var id := rec["zimbraId"];
    var t1 := WithHash(tgt, rec);
    var t2 := Unlocked(t1, rec);
    var s1 := Locked(src, rec);
    UnlockSpec(t1, rec);
    LockSpec(src, rec);
    TransportSpec(s1, rec, host);
    TransportSpec(t2, rec, host);
    HashSpec(tgt, rec);
  }

  /** `switchAccounts` over a list: each account in turn, stopping at the first failure. */
  function SwitchAll(src: Sys, tgt: Sys, recs: seq<Record>, host: string): (c: Cut)
    requires forall i :: 0 <= i < |recs| ==> Keyed(recs[i])
    ensures c.done <= |recs|
    ensures c.failure.None? <==> c.done == |recs|
    decreases |recs|
  {
    if recs == [] then Cut(src, tgt, [], 0, None)
    else
      var c := Cutover(src, tgt, recs[0], host);
      if c.failure.Some? then c
      else
        var r := SwitchAll(c.src, c.tgt, recs[1..], host);
        Cut(r.src, r.tgt, c.trace + r.trace, 1 + r.done, r.failure)
  }

  /** Calls `trace` already made, then the run `c` of the remaining accounts. */
  function Then(trace: seq<Call>, done: nat, c: Cut): Cut
  {
    Cut(c.src, c.tgt, trace + c.trace, done + c.done, c.failure)
  }

  /** A run over a non-empty list: the first account's cutover, then the rest unless it failed. */
  lemma SwitchAllCons(src: Sys, tgt: Sys, recs: seq<Record>, host: string)
    requires |recs| > 0 && forall i :: 0 <= i < |recs| ==> Keyed(recs[i])
    ensures var c := Cutover(src, tgt, recs[0], host);
      SwitchAll(src, tgt, recs, host) ==
        if c.failure.Some? then c else Then(c.trace, 1, SwitchAll(c.src, c.tgt, recs[1..], host))
  {
  }

  lemma ThenThen(a: seq<Call>, i: nat, b: seq<Call>, j: nat, c: Cut)
    ensures Then(a, i, Then(b, j, c)) == Then(a + b, i + j, c)
  {
    assert a + (b + c.trace) == a + b + c.trace;
  }

  /** Whether a cutover of `rec` writes admin attribute `name` of account `id`. */
  predicate Touched(rec: Record, id: Value, name: string)
    requires Keyed(rec)
  {
    id == rec["zimbraId"] && (name == StatusAttr || name == TransportAttr)
  }

  /**
   * What one cutover leaves alone: the source's directory, passwords and
   * creations; the target's refused names and its passwords at other DNs; and
   * every admin attribute other than the status and transport of the record's
   * own zimbraId, on both systems.
   */
  lemma CutoverFrame(src: Sys, tgt: Sys, rec: Record, host: string)
    requires Keyed(rec)
    ensures var c := Cutover(src, tgt, rec, host);
      c.src.directory == src.directory && c.src.refused == src.refused &&
      c.src.passwords == src.passwords && c.src.created == src.created && c.tgt.refused == tgt.refused
    ensures var c := Cutover(src, tgt, rec, host);
      forall dn :: dn != rec["dn"] ==>
        (dn in c.tgt.passwords <==> dn in tgt.passwords) && (dn in tgt.passwords ==> c.tgt.passwords[dn] == tgt.passwords[dn])
    ensures var c := Cutover(src, tgt, rec, host);
      forall id, name :: !Touched(rec, id, name) ==>
        Attr(c.src, id, name) == Attr(src, id, name) && Attr(c.tgt, id, name) == Attr(tgt, id, name)
  {
    var mail := rec["zimbraMailDeliveryAddress"];
    var absent := Lookup(tgt, Text(mail)).None?;
    if absent {
      CreateSpec(tgt, rec);
    }
    var (ok, t0) := if absent then Create(tgt, rec) else (true, tgt);
    var c := Cutover(src, tgt, rec, host);
    if ok {
      ExecSteps(src, t0, rec, host);
      assert c.src == WithTransport(Locked(src, rec), rec, host);
      assert c.tgt == WithTransport(Unlocked(WithHash(t0, rec), rec), rec, host);
      StepsFrame(src, t0, rec, host);
    } else {
      assert c.src == src && c.tgt == tgt;
    }
  }

  /** The frame of the five steps, from the source and the target as they stand once the account exists. */
  lemma StepsFrame(src: Sys, tgt: Sys, rec: Record, host: string)
    requires Keyed(rec)
    ensures var s := WithTransport(Locked(src, rec), rec, host);
      s.directory == src.directory && s.refused == src.refused && s.passwords == src.passwords && s.created == src.created
    ensures var t := WithTransport(Unlocked(WithHash(tgt, rec), rec), rec, host);
      t.directory == tgt.directory && t.refused == tgt.refused &&
      forall dn :: dn != rec["dn"] ==>
        (dn in t.passwords <==> dn in tgt.passwords) && (dn in tgt.passwords ==> t.passwords[dn] == tgt.passwords[dn])
    ensures var s := WithTransport(Locked(src, rec), rec, host);
      var t := WithTransport(Unlocked(WithHash(tgt, rec), rec), rec, host);
      forall id, name :: !Touched(rec, id, name) ==>
        Attr(s, id, name) == Attr(src, id, name) && Attr(t, id, name) == Attr(tgt, id, name)
  {
    var t1 := WithHash(tgt, rec);
    var t2 := Unlocked(t1, rec);
    var s1 := Locked(src, rec);
    HashSpec(tgt, rec);
    UnlockSpec(t1, rec);
    TransportSpec(t2, rec, host);
    LockSpec(src, rec);
    TransportSpec(s1, rec, host);
    forall i, n | !Touched(rec, i, n)
      ensures Attr(t1, i, n) == Attr(tgt, i, n)
    {
    }
  }

  /** A switched account stays switched through the cutover of any record that agrees with it on a shared DN's digest. */
  lemma SwitchedAfterCutover(src: Sys, tgt: Sys, rec: Record, other: Record, host: string)
    requires Keyed(rec) && Keyed(other)
    requires Switched(src, tgt, rec, host)
    requires other["dn"] == rec["dn"] ==> other["userPassword"] == rec["userPassword"]
    ensures var c := Cutover(src, tgt, other, host);
      Switched(c.src, c.tgt, rec, host)
  {
    CutoverSpec(src, tgt, other, host);
    CutoverFrame(src, tgt, other, host);
    var id := rec["zimbraId"];
    var c := Cutover(src, tgt, other, host);
    assert Attr(c.tgt, id, StatusAttr) == Some("active");
    assert Attr(c.src, id, StatusAttr) == Some("locked");
    assert Attr(c.src, id, TransportAttr) == Some(Transport(host));
    assert Attr(c.tgt, id, TransportAttr) == Some(Transport(host));
  }

  /** A switched account stays switched through a run over records that agree with it on a shared DN's digest. */
  lemma {:induction false} SwitchedAfterAll(src: Sys, tgt: Sys, rec: Record, recs: seq<Record>, host: string)
    requires Keyed(rec) && forall i :: 0 <= i < |recs| ==> Keyed(recs[i])
    requires Switched(src, tgt, rec, host)
    requires forall i :: 0 <= i < |recs| && Keyed(recs[i]) && recs[i]["dn"] == rec["dn"] ==>
      recs[i]["userPassword"] == rec["userPassword"]
    ensures var c := SwitchAll(src, tgt, recs, host);
      Switched(c.src, c.tgt, rec, host)
    decreases |recs|
  {
    if recs != [] {
      SwitchedAfterCutover(src, tgt, rec, recs[0], host);
      var c := Cutover(src, tgt, recs[0], host);
      if c.failure.None? {
        SwitchedAfterAll(c.src, c.tgt, rec, recs[1..], host);
      }
    }
  }

  /** Records that agree on the digest of every DN they share, as records read from one directory do. */
  predicate SameDnSameDigest(recs: seq<Record>)
    requires forall i :: 0 <= i < |recs| ==> Keyed(recs[i])
  {
    forall i, j ::
      (0 <= i < |recs| && 0 <= j < |recs| && Keyed(recs[i]) && Keyed(recs[j]) && recs[i]["dn"] == recs[j]["dn"]) ==>
      recs[i]["userPassword"] == recs[j]["userPassword"]
  }

  /**
   * End state of `switchAccounts`: every account it got through is active on
   * the target with the source digest, locked on the source, and both systems
   * deliver its mail to the target host.
   */
  lemma {:induction false} SwitchAllEnd(src: Sys, tgt: Sys, recs: seq<Record>, host: string)
    requires forall i :: 0 <= i < |recs| ==> Keyed(recs[i])
    requires SameDnSameDigest(recs)
    ensures var c := SwitchAll(src, tgt, recs, host);
      forall i :: 0 <= i < c.done ==> Switched(c.src, c.tgt, recs[i], host)
    decreases |recs|
  {
    if recs != [] {
      var c := Cutover(src, tgt, recs[0], host);
      SwitchAllCons(src, tgt, recs, host);
      assert c.failure.Some? ==> c.done == 0 by {
        CutoverSpec(src, tgt, recs[0], host);
      }
      if c.failure.None? {
        var rest := recs[1..];
        var r := SwitchAll(c.src, c.tgt, rest, host);
        assert Switched(c.src, c.tgt, recs[0], host) by {
          CutoverSpec(src, tgt, recs[0], host);
        }
        DigestTail(recs);
        SwitchAllEnd(c.src, c.tgt, rest, host);
        SwitchedAfterAll(c.src, c.tgt, recs[0], rest, host);
        SwitchedCons(r.src, r.tgt, recs, r.done, host);
      }
    }
  }

  /** The accounts after the first agree with each other, and with the first, on shared DNs' digests. */
  lemma DigestTail(recs: seq<Record>)
    requires |recs| > 0 && forall i :: 0 <= i < |recs| ==> Keyed(recs[i])
    requires SameDnSameDigest(recs)
    ensures SameDnSameDigest(recs[1..])
    ensures forall i :: 0 <= i < |recs[1..]| && Keyed(recs[1..][i]) && recs[1..][i]["dn"] == recs[0]["dn"] ==>
      recs[1..][i]["userPassword"] == recs[0]["userPassword"]
  {
    var rest := recs[1..];
    forall i, j | 0 <= i < |rest| && 0 <= j < |rest|
      ensures rest[i] == recs[i + 1] && rest[j] == recs[j + 1]
    {
    }
  }

  /** The first account and the accounts after it switched: the accounts of the whole prefix are. */
  lemma SwitchedCons(s: Sys, t: Sys, recs: seq<Record>, n: nat, host: string)
    requires forall i :: 0 <= i < |recs| ==> Keyed(recs[i])
    requires n < |recs| && Switched(s, t, recs[0], host)
    requires forall i :: 0 <= i < n ==> Switched(s, t, recs[1..][i], host)
    ensures forall i :: 0 <= i < n + 1 ==> Switched(s, t, recs[i], host)
  {
    forall i | 0 < i < n + 1
      ensures Switched(s, t, recs[i], host)
    {
      assert recs[i] == recs[1..][i - 1];
    }
  }

  /**
   * A run that stops does so at the account the target refuses to create: the
   * failure names its address, and that refused creation is the last call of
   * the run, so nothing is done for it or for any account after it.
   */
  lemma {:induction false} SwitchAllFailure(src: Sys, tgt: Sys, recs: seq<Record>, host: string)
    requires forall i :: 0 <= i < |recs| ==> Keyed(recs[i])
    ensures var c := SwitchAll(src, tgt, recs, host);
      c.failure.Some? ==>
        var mail := recs[c.done]["zimbraMailDeliveryAddress"];
        c.failure == Some(CannotCreate(mail)) &&
        |c.trace| > 0 && c.trace[|c.trace| - 1] == Call(Target, CreateUser(mail))
    decreases |recs|
  {
    if recs != [] {
      var c0 := Cutover(src, tgt, recs[0], host);
      SwitchAllCons(src, tgt, recs, host);
      if c0.failure.Some? {
        CutoverSpec(src, tgt, recs[0], host);
      } else {
        var rest := recs[1..];
        var r := SwitchAll(c0.src, c0.tgt, rest, host);
        if r.failure.Some? {
          SwitchAllFailure(c0.src, c0.tgt, rest, host);
          assert recs[1 + r.done] == rest[r.done];
          LastOfThen(c0.trace, r);
        }
      }
    }
  }

  /** Calls made before a run keep that run's last call last. */
  lemma LastOfThen(trace: seq<Call>, r: Cut)
    requires |r.trace| > 0
    ensures var c := Then(trace, 1, r);
      |c.trace| > 0 && c.trace[|c.trace| - 1] == r.trace[|r.trace| - 1]
  {
  }

  /**
   * Every call a cutover makes on the source is a lock or a transport change
   * of an account that an earlier call has already activated on the target.
   */
  predicate ActivatedFirst(trace: seq<Call>)
  {
    forall k :: 0 <= k < |trace| && trace[k].side == Source ==>
      (trace[k].verb.Lock? || trace[k].verb.SetMailTransport?) &&
      exists j :: 0 <= j < k && trace[j] == Call(Target, Unlock(trace[k].verb.id))
  }

  lemma ActivatedFirstAppend(a: seq<Call>, b: seq<Call>)
    requires ActivatedFirst(a) && ActivatedFirst(b)
    ensures ActivatedFirst(a + b)
  {
    forall k | 0 <= k < |a + b| && (a + b)[k].side == Source
      ensures (a + b)[k].verb.Lock? || (a + b)[k].verb.SetMailTransport?
      ensures exists j :: 0 <= j < k && (a + b)[j] == Call(Target, Unlock((a + b)[k].verb.id))
    {
      if k < |a| {
        var j :| 0 <= j < k && a[j] == Call(Target, Unlock(a[k].verb.id));
        assert (a + b)[j] == a[j];
      } else {
        var kb := k - |a|;
        assert (a + b)[k] == b[kb];
        var j :| 0 <= j < kb && b[j] == Call(Target, Unlock(b[kb].verb.id));
        assert (a + b)[j + |a|] == b[j];
      }
    }
  }

  /** In a whole run, the source never locks or redirects an account before the target has activated it. */
  lemma {:induction false} SwitchAllActivatedFirst(src: Sys, tgt: Sys, recs: seq<Record>, host: string)
    requires forall i :: 0 <= i < |recs| ==> Keyed(recs[i])
    ensures ActivatedFirst(SwitchAll(src, tgt, recs, host).trace)
    decreases |recs|
  {
    if recs != [] {
      var rec := recs[0];
      var c := Cutover(src, tgt, rec, host);
      CutoverSpec(src, tgt, rec, host);
      var steps := Steps(rec, host);
      assert steps[1] == Call(Target, Unlock(rec["zimbraId"]));
      assert ActivatedFirst(steps);
      var attempt := if Lookup(tgt, Text(rec["zimbraMailDeliveryAddress"])).None?
        then [Call(Target, CreateUser(rec["zimbraMailDeliveryAddress"]))] else [];
      assert ActivatedFirst(attempt);
      ActivatedFirstAppend(attempt, steps);
      if c.failure.None? {
        SwitchAllActivatedFirst(c.src, c.tgt, recs[1..], host);
        ActivatedFirstAppend(c.trace, SwitchAll(c.src, c.tgt, recs[1..], host).trace);
      }
    }
  }

  /** No record of `recs` is a cutover of account `id` writing attribute `name`. */
  predicate UntouchedBy(recs: seq<Record>, id: Value, name: string)
    requires forall i :: 0 <= i < |recs| ==> Keyed(recs[i])
  {
    forall i :: 0 <= i < |recs| ==> !Touched(recs[i], id, name)
  }

  /** `b` holds every admin attribute of `a` that no cutover of `recs` writes. */
  ghost predicate AttrsKept(a: Sys, b: Sys, recs: seq<Record>)
    requires forall i :: 0 <= i < |recs| ==> Keyed(recs[i])
  {
    forall id, name :: UntouchedBy(recs, id, name) ==> Attr(b, id, name) == Attr(a, id, name)
  }

  /** Attributes kept by the first cutover and by the rest of the run are kept by the whole run. */
  lemma AttrsKeptCons(a: Sys, b: Sys, c: Sys, recs: seq<Record>)
    requires |recs| > 0 && forall i :: 0 <= i < |recs| ==> Keyed(recs[i])
    requires forall id, name :: !Touched(recs[0], id, name) ==> Attr(b, id, name) == Attr(a, id, name)
    requires AttrsKept(b, c, recs[1..])
    ensures AttrsKept(a, c, recs)
  {
    forall id, name | UntouchedBy(recs, id, name)
      ensures Attr(c, id, name) == Attr(a, id, name)
    {
      assert !Touched(recs[0], id, name);
      assert UntouchedBy(recs[1..], id, name) by {
        forall i | 0 <= i < |recs[1..]|
          ensures !Touched(recs[1..][i], id, name)
        {
          assert recs[1..][i] == recs[i + 1];
        }
      }
    }
  }

  /** Whether `rec` is the entry at `dn`. */
  predicate AtDn(rec: Record, dn: Value)
    requires Keyed(rec)
  {
    rec["dn"] == dn
  }

  /** `b` holds the password of `a` at every DN that no record of `recs` has. */
  ghost predicate PasswordsKept(a: Sys, b: Sys, recs: seq<Record>)
    requires forall i :: 0 <= i < |recs| ==> Keyed(recs[i])
  {
    forall dn :: (forall i :: 0 <= i < |recs| ==> !AtDn(recs[i], dn)) ==>
      (dn in b.passwords <==> dn in a.passwords) && (dn in a.passwords ==> b.passwords[dn] == a.passwords[dn])
  }

  /** Passwords kept by the first cutover and by the rest of the run are kept by the whole run. */
  lemma PasswordsKeptCons(a: Sys, b: Sys, c: Sys, recs: seq<Record>)
    requires |recs| > 0 && forall i :: 0 <= i < |recs| ==> Keyed(recs[i])
    requires forall dn :: !AtDn(recs[0], dn) ==>
      (dn in b.passwords <==> dn in a.passwords) && (dn in a.passwords ==> b.passwords[dn] == a.passwords[dn])
    requires PasswordsKept(b, c, recs[1..])
    ensures PasswordsKept(a, c, recs)
  {
    forall dn | forall i :: 0 <= i < |recs| ==> !AtDn(recs[i], dn)
      ensures (dn in c.passwords <==> dn in a.passwords) && (dn in a.passwords ==> c.passwords[dn] == a.passwords[dn])
    {
      assert !AtDn(recs[0], dn);
      assert forall i :: 0 <= i < |recs[1..]| ==> !AtDn(recs[1..][i], dn) by {
        forall i | 0 <= i < |recs[1..]|
          ensures !AtDn(recs[1..][i], dn)
        {
          assert recs[1..][i] == recs[i + 1];
        }
      }
    }
  }

  /** A whole run writes the target's passwords only at the DNs of the listed records. */
  lemma {:induction false} SwitchAllPasswords(src: Sys, tgt: Sys, recs: seq<Record>, host: string)
    requires forall i :: 0 <= i < |recs| ==> Keyed(recs[i])
    ensures PasswordsKept(tgt, SwitchAll(src, tgt, recs, host).tgt, recs)
    decreases |recs|
  {
    if recs != [] {
      var c := Cutover(src, tgt, recs[0], host);
      SwitchAllCons(src, tgt, recs, host);
      CutoverFrame(src, tgt, recs[0], host);
      if c.failure.Some? {
        assert PasswordsKept(c.tgt, c.tgt, recs[1..]);
        PasswordsKeptCons(tgt, c.tgt, c.tgt, recs);
      } else {
        var r := SwitchAll(c.src, c.tgt, recs[1..], host);
        SwitchAllPasswords(c.src, c.tgt, recs[1..], host);
        PasswordsKeptCons(tgt, c.tgt, r.tgt, recs);
      }
    }
  }

  /**
   * What a whole run leaves alone: the source's directory, passwords and
   * creations, the target's passwords at DNs no listed record has, and on
   * both systems every admin attribute other than the status and transport
   * of the accounts in the list.
   */
  lemma {:induction false} SwitchAllFrame(src: Sys, tgt: Sys, recs: seq<Record>, host: string)
    requires forall i :: 0 <= i < |recs| ==> Keyed(recs[i])
    ensures var c := SwitchAll(src, tgt, recs, host);
      c.src.directory == src.directory && c.src.refused == src.refused &&
      c.src.passwords == src.passwords && c.src.created == src.created && c.tgt.refused == tgt.refused
    ensures var c := SwitchAll(src, tgt, recs, host);
      AttrsKept(src, c.src, recs) && AttrsKept(tgt, c.tgt, recs)
    ensures var c := SwitchAll(src, tgt, recs, host);
      forall dn :: (forall i :: 0 <= i < |recs| ==> recs[i]["dn"] != dn) ==>
        (dn in c.tgt.passwords <==> dn in tgt.passwords) && (dn in tgt.passwords ==> c.tgt.passwords[dn] == tgt.passwords[dn])
    decreases |recs|
  {
    SwitchAllPasswords(src, tgt, recs, host);
    if recs != [] {
      var c := Cutover(src, tgt, recs[0], host);
      var whole := SwitchAll(src, tgt, recs, host);
      SwitchAllCons(src, tgt, recs, host);
      CutoverFrame(src, tgt, recs[0], host);
      if c.failure.Some? {
        assert whole == c;
        assert AttrsKept(c.src, c.src, recs[1..]) && AttrsKept(c.tgt, c.tgt, recs[1..]);
        AttrsKeptCons(src, c.src, c.src, recs);
        AttrsKeptCons(tgt, c.tgt, c.tgt, recs);
      } else {
        var r := SwitchAll(c.src, c.tgt, recs[1..], host);
        assert whole == Then(c.trace, 1, r);
        SwitchAllFrame(c.src, c.tgt, recs[1..], host);
        AttrsKeptCons(src, c.src, r.src, recs);
        AttrsKeptCons(tgt, c.tgt, r.tgt, recs);
      }
    }
  }

  /** The body of `switchAccounts`' loop for one account, on the two systems. */
  method SwitchOne(src: System, tgt: System, migrate: Record, host: string)
    returns (failure: Option<Failure>, calls: seq<Call>)
    requires src != tgt
    requires Keyed(migrate)
    modifies src, tgt
    ensures var c := Cutover(old(src.State()), old(tgt.State()), migrate, host);
      failure == c.failure && calls == c.trace && src.State() == c.src && tgt.State() == c.tgt
  {
    var mail := migrate["zimbraMailDeliveryAddress"];
    ghost var s0, t0 := src.State(), tgt.State();
    ghost var step := Cutover(s0, t0, migrate, host);
    var account := tgt.GetUser(Text(mail));
    calls := [];
    if account.None? {
      var ok, v := tgt.CreateUser(migrate);
      calls := [Call(Target, v)];
      if !ok {
        assert step == Cut(s0, t0, calls, 0, Some(CannotCreate(mail)));
        return Some(CannotCreate(mail)), calls;
      }
    }
    ghost var t1 := tgt.State();
    var steps := SwitchSteps(src, tgt, migrate, host);
    ExecSteps(s0, t1, migrate, host);
    calls := calls + steps;
    failure := None;
  }

  /** The five steps of a cutover on the two systems, each call recorded right after it is made. */
  method SwitchSteps(src: System, tgt: System, migrate: Record, host: string) returns (steps: seq<Call>)
    requires src != tgt
    requires Keyed(migrate)
    modifies src, tgt
    ensures steps == Steps(migrate, host)
    ensures src.State() == WithTransport(Locked(old(src.State()), migrate), migrate, host)
    ensures tgt.State() == WithTransport(Unlocked(WithHash(old(tgt.State()), migrate), migrate), migrate, host)
  {
    var v := tgt.SetHashPwd(migrate);
    steps := [Call(Target, v)];
    v := tgt.Unlock(migrate);
    steps := steps + [Call(Target, v)];
    v := src.Lock(migrate);
    steps := steps + [Call(Source, v)];
    v := src.SetMailTransport(migrate, host);
    steps := steps + [Call(Source, v)];
    v := tgt.SetMailTransport(migrate, host);
    steps := steps + [Call(Target, v)];
  }

  /** The loop of `switchAccounts`, on the two systems. */
  method SwitchAccounts(src: System, tgt: System, recs: seq<Record>, host: string)
    returns (failure: Option<Failure>, trace: seq<Call>)
    requires src != tgt
    requires forall i :: 0 <= i < |recs| ==> Keyed(recs[i])
    modifies src, tgt
    ensures var c := SwitchAll(old(src.State()), old(tgt.State()), recs, host);
      failure == c.failure && trace == c.trace && src.State() == c.src && tgt.State() == c.tgt
  {
    ghost var whole := SwitchAll(src.State(), tgt.State(), recs, host);
    failure := None;
    trace := [];
    var i := 0;
    assert recs[0..] == recs;
    assert whole == Then(trace, i, whole);
    while i < |recs|
      invariant 0 <= i <= |recs|
      invariant failure.None?
      invariant whole == Then(trace, i, SwitchAll(src.State(), tgt.State(), recs[i..], host))
    {
      SwitchStep(whole, trace, i, src.State(), tgt.State(), recs, host);
      var calls;
      failure, calls := SwitchOne(src, tgt, recs[i], host);
      trace := trace + calls;
      if failure.Some? {
        return;
      }
      i := i + 1;
    }
    assert recs[i..] == [];
    assert trace + [] == trace;
  }

  /** One turn of the loop of `switchAccounts`: the run so far, then the `i`-th cutover, then the rest unless it failed. */
  lemma SwitchStep(whole: Cut, trace: seq<Call>, i: nat, src: Sys, tgt: Sys, recs: seq<Record>, host: string)
    requires i < |recs| && forall j :: 0 <= j < |recs| ==> Keyed(recs[j])
    requires whole == Then(trace, i, SwitchAll(src, tgt, recs[i..], host))
    ensures var c := Cutover(src, tgt, recs[i], host);
      if c.failure.Some? then whole == Then(trace, i, c)
      else whole == Then(trace + c.trace, i + 1, SwitchAll(c.src, c.tgt, recs[i + 1..], host))
  {
    var c := Cutover(src, tgt, recs[i], host);
    SwitchAllFrom(src, tgt, recs, i, host);
    ThenStep(whole, trace, i, c, SwitchAll(c.src, c.tgt, recs[i + 1..], host), SwitchAll(src, tgt, recs[i..], host));
  }

  /** The run so far followed by a run that is one cutover `c` and then `rest` unless `c` failed. */
  lemma ThenStep(whole: Cut, trace: seq<Call>, i: nat, c: Cut, rest: Cut, run: Cut)
    requires run == if c.failure.Some? then c else Then(c.trace, 1, rest)
    requires whole == Then(trace, i, run)
    ensures if c.failure.Some? then whole == Then(trace, i, c) else whole == Then(trace + c.trace, i + 1, rest)
  {
    if c.failure.None? {
      ThenThen(trace, i, c.trace, 1, rest);
    }
  }

  /** The run from the `i`-th account: its cutover, then the run from the next one unless it failed. */
  lemma SwitchAllFrom(src: Sys, tgt: Sys, recs: seq<Record>, i: nat, host: string)
    requires i < |recs| && forall j :: 0 <= j < |recs| ==> Keyed(recs[j])
    ensures var c := Cutover(src, tgt, recs[i], host);
      SwitchAll(src, tgt, recs[i..], host) ==
        if c.failure.Some? then c else Then(c.trace, 1, SwitchAll(c.src, c.tgt, recs[i + 1..], host))
  {
    assert recs[i..][0] == recs[i] && recs[i..][1..] == recs[i + 1..];
    SwitchAllCons(src, tgt, recs[i..], host);
  }

  // ---------------------------------------------------------------------------
  // The main routine (`run`)

  /** How a run ends: stopped with a failure, declined at the confirmation, or finished with the generated configuration. */
  datatype Outcome = Aborted(failure: Failure) | Declined | Finished(conf: string)

  /**
   * `run` on a loaded list: resolve every address on the source, stopping at
   * the first unknown one before anything changes; then, once confirmed,
   * switch the accounts to the target host and generate the transfer tool's
   * configuration for the whole list.
   */
  method Run(src: System, tgt: System, emails: seq<string>, confirmed: bool,
             sconf: ServerConf, tconf: ServerConf, z: ZmzSettings)
    returns (out: Outcome, trace: seq<Call>)
    requires src != tgt
    modifies src, tgt
    ensures var res := ResolveAll(old(src.State()), emails);
      res.Err? ==> out == Aborted(res.error) && trace == [] &&
                   src.State() == old(src.State()) && tgt.State() == old(tgt.State())
    ensures var res := ResolveAll(old(src.State()), emails);
      res.Ok? && !confirmed ==> out == Declined && trace == [] &&
                                src.State() == old(src.State()) && tgt.State() == old(tgt.State())
    ensures var res := ResolveAll(old(src.State()), emails);
      res.Ok? && confirmed ==>
        var c := SwitchAll(old(src.State()), old(tgt.State()), res.value, tconf.host);
        src.State() == c.src && tgt.State() == c.tgt && trace == c.trace &&
        out == if c.failure.Some? then Aborted(c.failure.value) else Finished(Render(Pairs(sconf, tconf, z, emails)))
  {
    trace := [];
    var migrateme := Resolve(src, emails);
    if migrateme.Err? {
      return Aborted(migrateme.error), trace;
    }
    if !confirmed {
      return Declined, trace;
    }
    var failure;
    failure, trace := SwitchAccounts(src, tgt, migrateme.value, tconf.host);
    if failure.Some? {
      return Aborted(failure.value), trace;
    }
    var conf := GenZmzConf(sconf, tconf, z, emails);
    out := Finished(conf);
  }
}
