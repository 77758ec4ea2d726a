# Split-domain account cutover, modelled in Dafny

`split_domain_setup.py` moves a list of Zimbra accounts from a source
system to a target system when a mail domain is split between them.
This project models its core and proves properties of the model:

- **Loading the list.** Every line of the list file is stripped. Blank lines
  are kept. A missing file or a file without any line stops the run.
- **Searching the directory** (`Zmbr._lSearch`). A search is answered by a
  stream of result pages. The wrapper reads pages up to the first empty one
  and keeps the data of the search-entry pages, in order.
- **Looking up an account** (`Zmbr.getUser`). The first entry found for a
  delivery address is cleaned up: one-element value lists are unwrapped,
  every requested attribute the entry lacks becomes `''`, and `dn` is set.
- **The account verbs.** `lock`, `unlock`, `setMailTransport` and
  `setHashPwd` write one admin attribute or the stored password of the
  account the record names. `createUser` asks for an account named by the
  delivery address, with a fixed temporary password.
- **Resolution** (first half of `run`). Every address is looked up on the
  source before anything changes. The run stops at the first address the
  source does not know.
- **The cutover** (`Migrate.switchAccounts`). For each account, the target
  account is created if a search on the target finds none. A refused
  creation stops the run. Then five calls follow, always in this order:
  target digest, target unlock, source lock, source transport, target
  transport.
- **The transfer tool's configuration** (`genZmzConf`). Fifteen key/value
  pairs in a fixed order, written as `key=value` lines.

Module layout:

| file | module | models |
|---|---|---|
| `wrappers.dfy` | `Wrappers` | `Option`, `Result` |
| `strings.dfy` | `Strings` | `join`, `strip`, `readlines`; `split` to read a joined list back; `lower` for the intended reading of a boolean setting |
| `ldap.dfy` | `Ldap` | result pages, `_lSearch` |
| `records.dfy` | `Records` | record values, the clean-up of `getUser` |
| `zmbr.dfy` | `Zmbr` | one remote system: its state, its verbs, and class `System` whose methods update that state |
| `zmzconf.dfy` | `ZmzConf` | `genZmzConf`: the pairs, their text, and reading the text back |
| `migrate.dfy` | `Migrate` | the list, resolution, the cutover, `run` |

Each remote system is a `System` object. Its fields are:

- the page stream the directory answers for each address;
- the names its admin endpoint refuses;
- the stored `userPassword` by DN;
- the admin attributes by `zimbraId`;
- the creation requests it accepted.

The methods `Lock`, `Unlock`, `SetMailTransport`, `SetHashPwd` and
`CreateUser` of `System` update these fields in place. Each also returns the
call it made. `GetUser` changes nothing and returns the cleaned-up record.
The methods `SwitchOne`, `SwitchAccounts` and `Run` of module `Migrate`
drive two `System` objects. Each method is proved equal to a function of the
old state, and the properties are proved about those functions.

## Model

| member | source | states |
|---|---|---|
| `Ldap.LSearch` | split_domain_setup.py:67-86 | The search result is exactly the data of the search-entry pages before the first empty page, in arrival order, and no returned list is empty. |
| `Ldap.FirstEmpty` | split_domain_setup.py:78-81 | The loop stops at the first page with empty data: every earlier page has data. |
| `Ldap.EntriesAppend` | split_domain_setup.py:83-84 | Pages are kept in arrival order: filtering a stream made of two parts gives the filtered first part, then the filtered second part. |
| `Ldap.EntriesMember` | split_domain_setup.py:83-84 | A list is in the result exactly when some search-entry page carries it, so pages of other kinds are dropped. |
| `Ldap.DrainNonEmpty` | split_domain_setup.py:80-84 | Every list a search returns is non-empty. |
| `Ldap.DrainStops` | split_domain_setup.py:78-81 | Pages after the first empty page are never read. |
| `Records.Unwrap` | split_domain_setup.py:166 | Unwrapping loses nothing: the result stands for exactly the directory values it came from. It is canonical: a list is kept only when it does not have exactly one element. |
| `Records.UnwrapListed` | split_domain_setup.py:166 | Every canonical value is the unwrapping of the values it stands for. |
| `Records.Normalize` | split_domain_setup.py:163-173 | The cleaned-up record has every requested attribute and `dn` as keys. Attributes of the entry are unwrapped. Missing requested attributes are `''`. `dn` is the entry's DN. |
| `Records.NormalizeUnique` | split_domain_setup.py:163-173 | Those keys and values determine the record. |
| `Records.Cleanup` | split_domain_setup.py:163-173 | The clean-up method builds exactly `Normalize`'s record. |
| `Records.UnwrapAll` | split_domain_setup.py:164-166 | The first clean-up loop has the entry's keys, each value unwrapped. |
| `Records.FillMissing` | split_domain_setup.py:168-171 | The second loop adds exactly the missing requested attributes, as `''`, and keeps every value already present. |
| `Zmbr.Lookup` | split_domain_setup.py:146-174 | `getUser` finds nothing exactly when the search returns no list. Otherwise it returns the record cleaned up from the first entry of the first list, which holds every key the verbs read. |
| `Zmbr.NormalizeKeyed` | split_domain_setup.py:163-173 | A cleaned-up record holds the delivery address, `dn`, `userPassword` and `zimbraId`, the keys the verbs and the cutover read. |
| `Zmbr.System.GetUser` | split_domain_setup.py:146-174 | The lookup method returns `Lookup` of the system's state. |
| `Zmbr.Transport` | split_domain_setup.py:108 | The transport value is `lmtp:`, then the host, then `:7025`. |
| `Zmbr.TransportRoundTrip` | split_domain_setup.py:108 | The host can be read back out of the transport value. |
| `Zmbr.TransportInjective` | split_domain_setup.py:108 | Distinct hosts give distinct transport values. |
| `Zmbr.SetAttrSpec` | split_domain_setup.py:94 | `ma` sets the named attribute of the named account to the value. Every other attribute and the rest of the state stay as they were. |
| `Zmbr.LockSpec` | split_domain_setup.py:89-94 | `lock` sets `zimbraAccountStatus` of the record's `zimbraId` to `locked` and changes nothing else. |
| `Zmbr.UnlockSpec` | split_domain_setup.py:96-101 | `unlock` sets that status to `active` and changes nothing else. |
| `Zmbr.TransportSpec` | split_domain_setup.py:103-109 | `setMailTransport` sets `zimbraMailTransport` of the record's `zimbraId` to `lmtp:<host>:7025`, from which the host reads back. It changes nothing else. |
| `Zmbr.HashSpec` | split_domain_setup.py:111-121 | `setHashPwd` replaces the password stored at the record's `dn` with the record's digest, verbatim. It leaves other DNs and the rest of the state alone. |
| `Zmbr.SetAttrIdempotent` | split_domain_setup.py:94 | Setting an attribute twice gives the same state as setting it once. |
| `Zmbr.LockIdempotent` | split_domain_setup.py:89-94 | Locking twice is locking once. |
| `Zmbr.UnlockIdempotent` | split_domain_setup.py:96-101 | Unlocking twice is unlocking once. |
| `Zmbr.TransportIdempotent` | split_domain_setup.py:103-109 | Setting the same transport twice is setting it once. |
| `Zmbr.HashIdempotent` | split_domain_setup.py:111-121 | Writing the same digest twice is writing it once. |
| `Zmbr.System.ModifyAccount` | split_domain_setup.py:94 | The `ma` method leaves the state `SetAttr` describes. |
| `Zmbr.System.Lock` | split_domain_setup.py:89-94 | The `lock` method leaves the state `Locked` describes and returns the call it made, keyed by the record's `zimbraId`. |
| `Zmbr.System.Unlock` | split_domain_setup.py:96-101 | The `unlock` method leaves the state `Unlocked` describes and returns the call it made. |
| `Zmbr.System.SetMailTransport` | split_domain_setup.py:103-109 | The `setMailTransport` method builds the transport string and leaves the state `WithTransport` describes. It returns the call it made, with that transport. |
| `Zmbr.System.SetHashPwd` | split_domain_setup.py:111-121 | The `setHashPwd` method leaves the state `WithHash` describes and returns the call it made, with the record's `dn` and digest. |
| `Zmbr.Forwarded` | split_domain_setup.py:128-131 | The forwarded attributes are exactly the record's attributes whose names are listed, with the record's values. |
| `Zmbr.CreateSpec` | split_domain_setup.py:123-144 | Creation succeeds exactly when the address is unknown to the target and not refused. On failure the result is false and nothing changes. On success the request carries the delivery address as the name, the password `TemPhoraryPWDD--` and the attributes forwarded under the names as the source spells them, so never `displayName`. Passwords, admin attributes and the answers for other addresses never change. |
| `Zmbr.CreateThenLookup` | split_domain_setup.py:123-144 | After a successful creation, a search for the address finds the account. Its delivery address and every attribute forwarded under the names as the source spells them are present and equal the record's. |
| `Zmbr.System.CreateUser` | split_domain_setup.py:123-144 | The `createUser` method returns the success flag and the call it made, and leaves the state `Create` describes, with the attribute names as the source spells them. |
| `Zmbr.DisplayNameNotForwardedAsWritten` | split_domain_setup.py:130 | With the attribute names as the source spells them, `displayName` is never forwarded. |
| `Zmbr.DisplayNameForwarded` | split_domain_setup.py:130 | With the intended names, `displayName` is forwarded, with its value, exactly when the record has it. |
| `Strings.Strip` | split_domain_setup.py:196-197 | The stripped line is the line with its leading and trailing whitespace removed. It neither starts nor ends with whitespace. |
| `Strings.StripEmpty` | split_domain_setup.py:196-199 | A line strips to `''` exactly when it is all whitespace. |
| `Strings.ReadLines` | split_domain_setup.py:197 | The lines are non-empty. Only the last may lack its `\n`, and none has another `\n`. A text has no lines exactly when it is empty. |
| `Strings.ReadLinesConcat` | split_domain_setup.py:197 | The lines, joined back together, are the text. |
| `Strings.StripLineNoNewline` | split_domain_setup.py:196-197 | A stripped line has no newline. |
| `Strings.SplitJoin` | split_domain_setup.py:309 | When no piece holds the separator, splitting the comma join gives the pieces back. |
| `Migrate.LoadList` | split_domain_setup.py:191-200 | A missing file stops the run with "list file not found". An empty file stops it with "empty list". Exactly the empty file stops it, because any other text has at least one line. Otherwise the list is the stripped lines, one per line, in order. |
| `Migrate.BlankLinesKept` | split_domain_setup.py:196-200 | A line that is all whitespace stays in the list as `''`, and only such lines become `''`. Blank lines are kept and never alone stop the run. |
| `Migrate.LoadedAddressesSingleLine` | split_domain_setup.py:196-197 | No address of a loaded list contains a newline. |
| `Migrate.ResolveAll` | split_domain_setup.py:326-332 | Every record resolution yields is a full record and holds the keys the cutover reads. |
| `Migrate.CollectSpec` | split_domain_setup.py:326-332 | Collecting succeeds exactly when every lookup found a record, and then keeps them in order. Otherwise it names the first address with none. |
| `Migrate.ResolveAllSpec` | split_domain_setup.py:326-332 | Resolution succeeds exactly when the source knows every address, and then gives each address's record in list order. Otherwise it fails naming the first unknown address. |
| `Migrate.Resolve` | split_domain_setup.py:326-332 | The lookup loop returns `ResolveAll` of the source's state. |
| `Migrate.ExecSteps` | split_domain_setup.py:265-282 | Applying the five calls in order is `setHashPwd` then `unlock` on the target, `lock` then `setMailTransport` on the source, and `setMailTransport` on the target. Each gets the source record. |
| `Migrate.StepsSwitch` | split_domain_setup.py:265-282 | Those five calls leave the account switched. It is active on the target with the source digest at its `dn`, locked on the source, and both systems deliver its mail to `lmtp:<target host>:7025`. |
| `Migrate.CutoverSpec` | split_domain_setup.py:257-282 | One iteration creates the account only when a target search finds none. A refused creation fails naming the address, changes neither system, and leaves the creation attempt as the only call. Otherwise it switches the account. The calls are the optional creation, then the five steps keyed by the record's `zimbraId` and `dn`. An account found on the target never fails. |
| `Migrate.CutoverFrame` | split_domain_setup.py:257-282 | One iteration leaves alone the source's directory, refused names, passwords and creations, and the target's refused names. On the target, passwords at other DNs are unchanged. On both systems, every admin attribute other than the record's own status and transport is unchanged. |
| `Migrate.StepsFrame` | split_domain_setup.py:265-282 | The five calls have the same frame, starting from the systems once the account exists. |
| `Migrate.SwitchAll` | split_domain_setup.py:253-282 | A run switches at most the whole list. It fails exactly when it stops before the end. |
| `Migrate.SwitchAllCons` | split_domain_setup.py:257-263 | A run is the first account's iteration, then the rest unless that iteration failed. |
| `Migrate.SwitchedAfterCutover` | split_domain_setup.py:257-282 | A switched account stays switched through any later iteration whose record agrees on the digest of a shared DN. |
| `Migrate.SwitchedAfterAll` | split_domain_setup.py:257-282 | It stays switched through a whole later run of such records. |
| `Migrate.SwitchAllEnd` | split_domain_setup.py:253-282 | At the end of a run, every account it got through is switched. |
| `Migrate.SwitchAllFailure` | split_domain_setup.py:260-263 | A run that fails stops at the account the target refused to create. The failure names that address, and the refused creation is the run's last call. |
| `Migrate.SwitchAllActivatedFirst` | split_domain_setup.py:265-273 | In a whole run, every call on the source locks or redirects an account that an earlier call already activated on the target. |
| `Migrate.SwitchAllPasswords` | split_domain_setup.py:253-282 | A run changes the target's password only at the DNs of the listed records. |
| `Migrate.SwitchAllFrame` | split_domain_setup.py:253-282 | A run leaves alone the source's directory, refused names, passwords and creations, and the target's refused names. The target's passwords at DNs no listed record has are unchanged. On both systems, every admin attribute except the status and transport of the listed accounts is unchanged. |
| `Migrate.SwitchSteps` | split_domain_setup.py:265-282 | The five verbs run in their fixed order. Each call is recorded as the verb returns it, right after it runs, and the recorded calls are the five steps. The systems end in the states the steps describe. |
| `Migrate.SwitchOne` | split_domain_setup.py:258-282 | The loop body leaves both systems in the state `Cutover` describes and returns its calls and failure. Each call is the one its verb returned, recorded right after the verb ran. |
| `Migrate.SwitchAccounts` | split_domain_setup.py:253-282 | The loop leaves both systems in the state `SwitchAll` describes and returns its calls and failure. |
| `Migrate.Run` | split_domain_setup.py:322-344 | An unknown address aborts the run, naming it, before any call, with both systems unchanged. A declined confirmation changes nothing. A confirmed run performs exactly `SwitchAll` on the resolved records toward the target host. It then either aborts with the cutover's failure or finishes with the configuration text for the whole list. |
| `ZmzConf.PathJoin` | split_domain_setup.py:302-303 | An absolute second part wins. Otherwise the result is the first part, then one `/` exactly when the first part is non-empty and does not already end in `/`, then the second part. |
| `ZmzConf.KeepSuccessAsWrittenFalse` | split_domain_setup.py:305 | As written, the settings `false` and `0` give `TRUE`. |
| `ZmzConf.KeepSuccessFlag` | split_domain_setup.py:305 | The intended value is `TRUE` or `FALSE`, and `TRUE` exactly when the setting reads as a true boolean. |
| `ZmzConf.KeepSuccessFlagFalse` | split_domain_setup.py:305 | With the intended reading, the false spellings and the empty setting give `FALSE`. |
| `ZmzConf.Pairs` | split_domain_setup.py:289-309 | The fifteen keys come in their fixed order. Both hosts are the connection hosts and both admin ports are `7071`. The work and success directories are joined onto the working directory. The user names, passwords, `Threads`, `LogDirectory` and `Domains` are the settings' values. `KeepSuccessFiles` is `TRUE` or `FALSE`, and `TRUE` exactly when the setting is a non-empty string, as written. `Accounts` is the list joined with commas. |
| `ZmzConf.KeysDistinct` | split_domain_setup.py:289-309 | No key is written twice. |
| `ZmzConf.PairsGet` | split_domain_setup.py:293-309 | Reading any of the fifteen keys finds the value above, with `KeepSuccessFiles` as written. |
| `ZmzConf.AccountsSplitBack` | split_domain_setup.py:309 | The `Accounts` value splits at commas back into the list when no address holds a comma. |
| `ZmzConf.KeysRenderable` | split_domain_setup.py:290-309 | No key contains `=` or a newline. |
| `ZmzConf.ParseRender` | split_domain_setup.py:311-313 | The `key=value` lines read back as the pairs, in order, when no key holds `=` or a newline and no value holds a newline. |
| `ZmzConf.ConfReadsBack` | split_domain_setup.py:289-313 | When neither settings nor addresses hold a newline, the generated file reads back as exactly the generated pairs. |
| `ZmzConf.WriteConf` | split_domain_setup.py:311-313 | The writing loop produces one `key=value\n` line per pair, in order. |
| `ZmzConf.GenZmzConf` | split_domain_setup.py:285-313 | `genZmzConf` writes the rendering of the fifteen pairs. |

## Left out

- LDAP and SOAP transport, TLS and binding are not modelled. Each system's directory is a page stream held per address, and its admin endpoint is a state with a set of refused names.
- A page stream that ends without an empty page ends the search. The real library would block instead.
- `doConfirm` becomes the boolean `confirmed`. Its listing of accounts and its prompt loop are I/O. Answering `n` (exit status 0) is the `Declined` outcome.
- Logging, `print`, and the final instructions after `run` are output only and are left out.
- `logExit` and `sys.exit` become the `Aborted` outcome. No process exit is modelled.
- Reading `config.ini` with `ConfigParser` is outside the model. Settings are plain strings in `ServerConf` and `ZmzSettings`.
- The existence test of the list file becomes `None` versus `Some(text)`, and reading the file becomes its text.
- Writing the configuration file and the `chown` to the `zimbra` user are left out. `GenZmzConf` returns the text that would be written.
- Failures of `ma` and `modify_s`, which raise in the source, are not modelled. Each verb always succeeds.
- The `zimbraId` the server assigns to a created account is not modelled. The created entry answers searches but gets no admin attributes of its own. Later calls still address the source record's `zimbraId`, as the source does.
- Only the delivery address and the forwarded attributes are modelled in the entry created for a new account.
- `Zmbr.Text`: values are formatted into the search filter and the account name without LDAP filter escaping. Lists are rendered as a Python list's text, with no escaping of quotes inside values.
- `Migrate.CutoverFrame` does not state that the target's search answers for other addresses stay unchanged. `Zmbr.CreateSpec` states this for creation.
- `Migrate.SwitchAllFrame` likewise does not state that the target's search answers for addresses outside the list stay unchanged.
- `Migrate.SwitchAllFailure` names the failing account and the last call. It does not state that the states equal those left by the run over the accounts before it.
- `Migrate.SwitchAllEnd` requires that records sharing a `dn` carry the same digest, as records read from one directory do. Without that, a later record could overwrite an earlier digest.
- Migrate.SwitchOne, Migrate.SwitchSteps, Migrate.SwitchAccounts and Migrate.Run require two distinct `System` objects. The source and target are assumed to be distinct systems. A run with one system as both sides is not modelled.
- A system's search answers do not depend on its stored passwords, so a later password write is not seen by a search. The lookup round trip is claimed only for creation (`Zmbr.CreateThenLookup`). For the same reason `Migrate.SwitchAllEnd` needs records sharing a `dn` to carry the same digest.
- Reading a key from an account record that lacks it raises an error in the source. The model requires the keys it reads to be present (`Zmbr.Keyed`), and records from `getUser` always hold them.

## Findings

| source | as written | input that shows it | evidently intended | confidence | as-written member | corrected member |
|---|---|---|---|---|---|---|
| split_domain_setup.py:130 | `createUser` forwards the attributes named `sn`, `givenName`, `diplayName` and `description`. `diplayName` is misspelled, so `displayName` is never forwarded. | a record with `displayName` = `Jane Doe` that is not yet on the target: the created account has no display name | forward `displayName` | high, not executed | `Zmbr.DisplayNameNotForwardedAsWritten` | `Zmbr.DisplayNameForwarded` |
| split_domain_setup.py:305 | `KeepSuccessFiles` is `TRUE` whenever the `keep_success` setting is a non-empty string, since `ConfigParser` yields strings | `keep_success = false` in the `zmz` section: the configuration says `KeepSuccessFiles=TRUE` | read the setting as a boolean | medium, not executed | `ZmzConf.KeepSuccessAsWrittenFalse` | `ZmzConf.KeepSuccessFlagFalse` |

The operations follow the code as written: `Zmbr.Create` and
`Zmbr.System.CreateUser` forward `ForwardedNamesAsWritten`, and
`ZmzConf.Pairs` writes `KeepSuccessAsWritten`. The corrected definitions,
`ForwardedNames` and `KeepSuccessFlag`, are proved beside them.
