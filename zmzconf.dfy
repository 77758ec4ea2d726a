/**
 * The configuration `Migrate.genZmzConf` hands to the bulk mailbox transfer
 * tool: an ordered list of key/value pairs, written one `key=value` line each.
 */
module ZmzConf {
  import opened Wrappers
  import opened Strings

  /** Connection settings of one system, as read from its configuration section. */
  datatype ServerConf = ServerConf(host: string, username: string, password: string)

  /** The settings of the transfer tool's own section; every value is the string the configuration file holds. */
  datatype ZmzSettings = ZmzSettings(threads: string, workingDir: string, logDir: string, keepSuccess: string, domains: string)

  /** The admin port written for both systems. */
  const AdminPort: string := "7071"

  /** The keys of the generated configuration, in the order they are written. */
  const Keys: seq<string> := [
    "SourceZCSServer", "SourceAdminUser", "SourceAdminPwd", "SourceAdminPort",
    "TargetZCSServer", "TargetAdminUser", "TargetAdminPwd", "TargetAdminPort",
    "Threads", "WorkingDirectory", "SuccessDirectory", "LogDirectory",
    "KeepSuccessFiles", "Domains", "Accounts"
  ]

  /** `os.path.join(a, b)` on POSIX paths: an absolute `b` wins; otherwise a single `/` separates them. */
  function PathJoin(a: string, b: string): (r: string)
    ensures |b| > 0 && b[0] == '/' ==> r == b
    ensures !(|b| > 0 && b[0] == '/') ==>
      |r| == |a| + |b| + (if a != "" && a[|a| - 1] != '/' then 1 else 0) &&
      r[..|a|] == a && r[|r| - |b|..] == b &&
      (a != "" ==> r[|r| - |b| - 1] == '/')
  {
    if |b| > 0 && b[0] == '/' then b
    else if a == "" || a[|a| - 1] == '/' then a + b
    else a + "/" + b
  }

  /** The value written for `KeepSuccessFiles`, as written: the setting's Python truth value. */
  function KeepSuccessAsWritten(setting: string): string
  {
    if setting != "" then "TRUE" else "FALSE"
  }

  /** As written, the setting `false` turns success files on. */
  lemma KeepSuccessAsWrittenFalse()
    ensures KeepSuccessAsWritten("false") == "TRUE"
    ensures KeepSuccessAsWritten("0") == "TRUE"
  {
  }

  /** The words a configuration file reader takes for true, in lower case. */
  const TrueWords: seq<string> := ["1", "yes", "true", "on"]

  /** The words a configuration file reader takes for false, in lower case. */
  const FalseWords: seq<string> := ["0", "no", "false", "off"]

  /** The value intended for `KeepSuccessFiles`: TRUE exactly when the setting reads as a true boolean. */
  function KeepSuccessFlag(setting: string): (r: string)
    ensures r == "TRUE" || r == "FALSE"
    ensures r == "TRUE" <==> Lower(setting) in TrueWords
  {
    if Lower(setting) in TrueWords then "TRUE" else "FALSE"
  }

  /** With the intended reading, the usual spellings of false and the empty setting give FALSE. */
  lemma KeepSuccessFlagFalse(setting: string)
    requires Lower(setting) in FalseWords || setting == ""
    ensures KeepSuccessFlag(setting) == "FALSE"
  {
    if setting == "" {
      assert Lower(setting) == "";
    }
  }

  /** The value of the first pair with key `k`. */
  function Get(pairs: seq<(string, string)>, k: string): (r: Option<string>)
    ensures r.Some? <==> exists i :: 0 <= i < |pairs| && pairs[i].0 == k
  {
    if pairs == [] then None
    else if pairs[0].0 == k then Some(pairs[0].1)
    else Get(pairs[1..], k)
  }

  /** The values written for `Keys`, in the same order. */
  function Values(src: ServerConf, tgt: ServerConf, z: ZmzSettings, accounts: seq<string>): seq<string>
  {
    [ src.host, src.username, src.password, AdminPort,
      tgt.host, tgt.username, tgt.password, AdminPort,
      z.threads,
      PathJoin(z.workingDir, "mailboxdumps/"),
      PathJoin(z.workingDir, "successes/"),
      z.logDir,
      KeepSuccessAsWritten(z.keepSuccess),
      z.domains,
      Join(accounts, ',') ]
  }

  /** `genZmzConf`: the pairs of the transfer tool's configuration, in order. */
  function Pairs(src: ServerConf, tgt: ServerConf, z: ZmzSettings, accounts: seq<string>): (r: seq<(string, string)>)
    ensures |r| == |Keys| && forall i :: 0 <= i < |r| ==> r[i] == (Keys[i], Values(src, tgt, z, accounts)[i])
    ensures r[0].1 == src.host && r[1].1 == src.username && r[2].1 == src.password && r[3].1 == AdminPort
    ensures r[4].1 == tgt.host && r[5].1 == tgt.username && r[6].1 == tgt.password && r[7].1 == AdminPort
    ensures r[8].1 == z.threads
    ensures r[9].1 == PathJoin(z.workingDir, "mailboxdumps/") && r[10].1 == PathJoin(z.workingDir, "successes/")
    ensures r[11].1 == z.logDir
    ensures (r[12].1 == "TRUE" || r[12].1 == "FALSE") && (r[12].1 == "TRUE" <==> z.keepSuccess != "")
    ensures r[13].1 == z.domains
    ensures r[14].1 == Join(accounts, ',')
  {
    var v := Values(src, tgt, z, accounts);
    [ (Keys[0], v[0]), (Keys[1], v[1]), (Keys[2], v[2]), (Keys[3], v[3]),
      (Keys[4], v[4]), (Keys[5], v[5]), (Keys[6], v[6]), (Keys[7], v[7]),
      (Keys[8], v[8]), (Keys[9], v[9]), (Keys[10], v[10]), (Keys[11], v[11]),
      (Keys[12], v[12]), (Keys[13], v[13]), (Keys[14], v[14]) ]
  }

  /** Each key of the generated configuration reads back its own value. */
  lemma PairsGet(src: ServerConf, tgt: ServerConf, z: ZmzSettings, accounts: seq<string>)
    ensures var r := Pairs(src, tgt, z, accounts);
      Get(r, "SourceZCSServer") == Some(src.host) && Get(r, "SourceAdminUser") == Some(src.username) &&
      Get(r, "SourceAdminPwd") == Some(src.password) && Get(r, "SourceAdminPort") == Some(AdminPort) &&
      Get(r, "TargetZCSServer") == Some(tgt.host) && Get(r, "TargetAdminUser") == Some(tgt.username) &&
      Get(r, "TargetAdminPwd") == Some(tgt.password) && Get(r, "TargetAdminPort") == Some(AdminPort) &&
      Get(r, "Threads") == Some(z.threads) &&
      Get(r, "WorkingDirectory") == Some(PathJoin(z.workingDir, "mailboxdumps/")) &&
      Get(r, "SuccessDirectory") == Some(PathJoin(z.workingDir, "successes/")) &&
      Get(r, "LogDirectory") == Some(z.logDir) &&
      Get(r, "KeepSuccessFiles") == Some(KeepSuccessAsWritten(z.keepSuccess)) &&
      Get(r, "Domains") == Some(z.domains) &&
      Get(r, "Accounts") == Some(Join(accounts, ','))
  {
    var r := Pairs(src, tgt, z, accounts);
    KeysDistinct();
    for i := 0 to |Keys|
      invariant forall j :: 0 <= j < i ==> Get(r, Keys[j]) == Some(r[j].1)
    {
      GetKey(r, i);
    }
  }

  /** The `Accounts` value splits at `,` back into the list, when no address holds a comma. */
  lemma AccountsSplitBack(src: ServerConf, tgt: ServerConf, z: ZmzSettings, accounts: seq<string>)
    requires |accounts| > 0
    requires forall k :: 0 <= k < |accounts| ==> ',' !in accounts[k]
    ensures Get(Pairs(src, tgt, z, accounts), "Accounts").Some?
    ensures Split(Get(Pairs(src, tgt, z, accounts), "Accounts").value, ',') == accounts
  {
    PairsGet(src, tgt, z, accounts);
    SplitJoin(accounts, ',');
  }

  /** No key is written twice. */
  lemma KeysDistinct()
    ensures forall i, j :: 0 <= i < j < |Keys| ==> Keys[i] != Keys[j]
  {
  }

  /** In pairs laid out along the distinct keys, looking up the i-th key finds the i-th value. */
  lemma {:induction false} GetKey(pairs: seq<(string, string)>, i: nat)
    requires |pairs| <= |Keys| && i < |pairs|
    requires forall j :: 0 <= j < |pairs| ==> pairs[j].0 == Keys[j + |Keys| - |pairs|]
    requires forall a, b :: 0 <= a < b < |Keys| ==> Keys[a] != Keys[b]
    ensures Get(pairs, pairs[i].0) == Some(pairs[i].1)
    decreases i
  {
    if i > 0 {
      assert pairs[0].0 != pairs[i].0 by {
        assert pairs[0].0 == Keys[|Keys| - |pairs|];
        assert pairs[i].0 == Keys[i + |Keys| - |pairs|];
      }
      var tail := pairs[1..];
      assert forall j :: 0 <= j < |tail| ==> tail[j] == pairs[j + 1];
      GetKey(tail, i - 1);
    }
  }

  /** One line of the file. */
  function Line(k: string, v: string): string
  {
    k + "=" + v + "\n"
  }

  /** The file's text: every pair as a line, in order. */
  function Render(pairs: seq<(string, string)>): string
  {
    if pairs == [] then "" else Line(pairs[0].0, pairs[0].1) + Render(pairs[1..])
  }

  /** Read a rendered file back: newline-terminated lines, each split at its first `=`. */
  function Parse(text: string): Option<seq<(string, string)>>
    decreases |text|
  {
    if text == [] then Some([])
    else
      var nl := IndexOf(text, '\n');
      if nl == |text| then None
      else
        var line := text[..nl];
        var eq := IndexOf(line, '=');
        if eq == |line| then None
        else
          match Parse(text[nl + 1..])
          case None => None
          case Some(rest) => Some([(line[..eq], line[eq + 1..])] + rest)
  }

  /** Keys without `=` or newline and values without newline survive rendering. */
  predicate Renderable(pairs: seq<(string, string)>)
  {
    forall i :: 0 <= i < |pairs| ==> '=' !in pairs[i].0 && '\n' !in pairs[i].0 && '\n' !in pairs[i].1
  }

  /** Rendering is faithful: the lines read back as the pairs, in order. */
  lemma {:induction false} ParseRender(pairs: seq<(string, string)>)
    requires Renderable(pairs)
    ensures Parse(Render(pairs)) == Some(pairs)
    decreases |pairs|
  {
    if pairs != [] {
      var (k, v) := pairs[0];
      var rest := Render(pairs[1..]);
      var text := Render(pairs);
      var body := k + "=" + v;
      assert text == body + ['\n'] + rest;
      assert '\n' !in body by {
        assert forall j :: 0 <= j < |k| ==> body[j] == k[j] && k[j] != '\n';
        assert forall j :: |k| < j < |body| ==> body[j] == v[j - |k| - 1] && v[j - |k| - 1] != '\n';
      }
      IndexOfAfter(body, '\n', rest);
      assert text[..|body|] == body;
      assert text[|body| + 1..] == rest;
      IndexOfAfter(k, '=', v);
      assert body == k + ['='] + v;
      assert body[..|k|] == k;
      assert body[|k| + 1..] == v;
      assert Renderable(pairs[1..]) by {
        forall i | 0 <= i < |pairs[1..]|
          ensures '=' !in pairs[1..][i].0 && '\n' !in pairs[1..][i].0 && '\n' !in pairs[1..][i].1
        {
          assert pairs[1..][i] == pairs[i + 1];
        }
      }
      ParseRender(pairs[1..]);
      assert [(k, v)] + pairs[1..] == pairs;
    }
  }

  /** The keys of the generated configuration contain neither `=` nor a newline. */
  lemma KeysRenderable()
    ensures forall i :: 0 <= i < |Keys| ==> '=' !in Keys[i] && '\n' !in Keys[i]
  {
  }

  /** The writing loop of `genZmzConf`: one line per pair, in order. */
  method WriteConf(pairs: seq<(string, string)>) returns (text: string)
    ensures text == Render(pairs)
  {
    text := "";
    var i := 0;
    assert pairs[0..] == pairs;
    while i < |pairs|
      invariant 0 <= i <= |pairs|
      invariant Render(pairs) == text + Render(pairs[i..])
    {
      var (k, v) := pairs[i];
      assert pairs[i..][1..] == pairs[i + 1..];
      assert text + Render(pairs[i..]) == text + Line(k, v) + Render(pairs[i + 1..]);
      text := text + Line(k, v);
      i := i + 1;
    }
    assert text + [] == text;
  }

  /** `genZmzConf`: the configuration text for the two systems, the settings and the list. */
  method GenZmzConf(src: ServerConf, tgt: ServerConf, z: ZmzSettings, accounts: seq<string>) returns (text: string)
    ensures text == Render(Pairs(src, tgt, z, accounts))
  {
    text := WriteConf(Pairs(src, tgt, z, accounts));
  }

  /** A path joined from parts without a newline has none. */
  lemma PathJoinLacksNewline(a: string, b: string)
    requires '\n' !in a && '\n' !in b
    ensures '\n' !in PathJoin(a, b)
  {
    if !(|b| > 0 && b[0] == '/') && a != "" && a[|a| - 1] != '/' {
      assert PathJoin(a, b) == a + "/" + b;
    }
  }

  /** Settings and addresses without newlines give values without newlines. */
  lemma ValuesLackNewline(src: ServerConf, tgt: ServerConf, z: ZmzSettings, accounts: seq<string>)
    requires '\n' !in src.host && '\n' !in src.username && '\n' !in src.password
    requires '\n' !in tgt.host && '\n' !in tgt.username && '\n' !in tgt.password
    requires '\n' !in z.threads && '\n' !in z.workingDir && '\n' !in z.logDir && '\n' !in z.domains
    requires forall k :: 0 <= k < |accounts| ==> '\n' !in accounts[k]
    ensures forall i :: 0 <= i < |Values(src, tgt, z, accounts)| ==> '\n' !in Values(src, tgt, z, accounts)[i]
  {
    PathJoinLacksNewline(z.workingDir, "mailboxdumps/");
    PathJoinLacksNewline(z.workingDir, "successes/");
    JoinLacks(accounts, ',', '\n');
    assert '\n' !in KeepSuccessAsWritten(z.keepSuccess);
  }

  /**
   * Settings and addresses without newlines give a file that reads back as
   * exactly the generated pairs, in order.
   */
  lemma ConfReadsBack(src: ServerConf, tgt: ServerConf, z: ZmzSettings, accounts: seq<string>)
    requires '\n' !in src.host && '\n' !in src.username && '\n' !in src.password
    requires '\n' !in tgt.host && '\n' !in tgt.username && '\n' !in tgt.password
    requires '\n' !in z.threads && '\n' !in z.workingDir && '\n' !in z.logDir && '\n' !in z.domains
    requires forall k :: 0 <= k < |accounts| ==> '\n' !in accounts[k]
    ensures Parse(Render(Pairs(src, tgt, z, accounts))) == Some(Pairs(src, tgt, z, accounts))
  {
    ValuesLackNewline(src, tgt, z, accounts);
    KeysRenderable();
    ParseRender(Pairs(src, tgt, z, accounts));
  }
}
