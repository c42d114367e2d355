# hcloud-keepalived-notify in Dafny

A model of the keepalived notify hook for Hetzner Cloud floating IPs. keepalived
runs the hook on every VRRP state change and passes the new state (`MASTER`,
`BACKUP`, `FAULT`) as the third argument. The hook does four things:

- it reads its configuration from the environment, reporting every problem at once;
- it writes the state to a health check file;
- on `MASTER`, it finds its own server in the Hetzner Cloud API, lists the floating
  IPs, and assigns to itself each floating IP that belongs to one of its configured
  addresses and does not already point to it;
- it writes the state to the health check file a second time.

Modules, one per part of `cmd/cmd.go` and of what it relies on:

- `Wrappers` — Option, Result, Outcome.
- `Net` — Go's `net.IP` as a byte sequence, with `To4`, `Equal` and `IPNet.Contains`.
  `IPNet.Contains` is the masked prefix comparison of section 2.3 of RFC 4291.
- `Strings` — `strings.Split` on one separator character, with `Join` as its inverse.
- `HCloud` — the API records, the `Event` trace of outside calls, and the `World`.
  The `World` bundles four capabilities: write the state file, look up a server by
  name, list floating IPs, assign a floating IP. Each capability is also given the
  events that happened before the call, so its reply may depend on the run so far.
- `Config` — `getEnv`, `getEnvRequired`, the accumulation of configuration errors,
  and `ipSliceToStrSlice`. The environment is a `map<string, string>`.
  `net.ParseIP` is a parameter `parse` about which nothing is assumed.
- `Matcher` — `matchFloatingIP`, as a loop method proved against an existential
  predicate.
- `Reconciler` — the MASTER branch, as specification functions and the methods
  proved against them. This covers the self lookup, the listing and the assignment loop.
- `Notify` — the package-level `config` struct as the class `Notifier`, whose methods
  update its fields in place. `Run` is proved against `RunSpec`; lemmas about
  `RunSpec` state the ordering rules.

Two behaviours of the code are worth stating up front, because the model keeps them:

- **Assignment errors end the run.** The code returns on the first failed `Assign`
  (`cmd/cmd.go:175-184`). It does not attempt the later floating IPs, and it does not
  write the state file a second time. The model does the same.
  `Reconciler.ReconcileStopsAtFirstFailure` and `Notify.RunFailFastExample` state this.
- **Configured addresses are single addresses.** Every entry of `NOTIFY_FLOATING_IPS`
  goes through `net.ParseIP` (`cmd/cmd.go:122-129`), so an entry is whatever `parse`
  says it is, and an entry it rejects is a configuration error. Network containment
  is tested one way only: a configured address inside the network of an IPv6
  floating IP.

## Model

| member | source | states |
|---|---|---|
| `Config.GetEnv` | cmd/cmd.go:37-42 | The variable's value whenever it is set, even when that value is empty; otherwise the fallback |
| `Config.GetEnvRequired` | cmd/cmd.go:30-35 | Fails exactly when the variable is not set, with an error naming it; otherwise returns its value |
| `Config.GetEnvAgreesWithRequired` | cmd/cmd.go:30-42 | For a set variable, the two lookups agree on the value; for a missing one, `getEnv` returns its fallback |
| `Config.ParseIPList` | cmd/cmd.go:122-129 | Each entry contributes exactly one thing, an address or an error |
| `Config.ParseIPListErrorsRejected` | cmd/cmd.go:123-125 | Every error is `invalid IP address` for an entry of the list that does not parse |
| `Config.ParseIPListAddressesParsed` | cmd/cmd.go:123-128 | Every address collected is the parse of some entry |
| `Config.ParseIPListAllValid` | cmd/cmd.go:122-129 | No error exactly when every entry parses; then the addresses are the entries' parses, one for one, in input order |
| `Config.ParseIPListAppend` | cmd/cmd.go:122-129 | Entries are handled in order: parsing `a + b` gives `a`'s addresses and errors, then `b`'s |
| `Config.RequiredErrors` | cmd/cmd.go:107-117 | A required variable adds no error when set and exactly one error naming it when missing |
| `Config.AllMissingReported` | cmd/cmd.go:105-134 | With all three required variables missing, all three errors are reported, in order |
| `Config.ConfigValidIff` | cmd/cmd.go:105-134 | The configuration is error-free iff all three variables are set and every list entry parses. Then there is one address per entry, in order, and at least one |
| `Config.IPSliceToStrSlice` | cmd/cmd.go:89-95 | Output has the input's length, and each position holds that address's text |
| `Config.ParseIPListByEntry` | cmd/cmd.go:122-129 | The addresses are the parses of the accepted entries and the errors are `invalid IP address` for the rejected entries, each in list order |
| `Strings.Split` | cmd/cmd.go:122 | `strings.Split` on one character: the pieces between separators, one more piece than there are separators |
| `Strings.Join` | cmd/cmd.go:122 | The inverse of the split: joining pieces that hold no separator puts exactly one separator between each two |
| `Strings.SplitPiecesAvoidSeparator` | cmd/cmd.go:122 | No piece of a comma split contains a comma |
| `Strings.JoinSplit` | cmd/cmd.go:122 | Joining the pieces with commas gives back the list text |
| `Strings.SplitJoin` | cmd/cmd.go:122 | Splitting a join of comma-free pieces gives back the pieces |
| `Net.To4` | cmd/cmd.go:47 | `IP.To4`: a 4-byte result, present for a 4-byte address and for an IPv4-mapped 16-byte one, which is the mapping prefix followed by the result |
| `Net.Equal` | cmd/cmd.go:47 | `IP.Equal`: bytewise on equal lengths, up to IPv4 mapping otherwise. A 4-byte address equals a 16-byte one only as its mapped form, and equal addresses are of the same family |
| `Net.NetworkNumberAndMask` | cmd/cmd.go:52 | The first step of `IPNet.Contains`: a network number and mask of equal length, the number the canonical form of the network's address, or both empty for a malformed network |
| `Net.Contains` | cmd/cmd.go:52 | `IPNet.Contains`: the canonical address agrees with the network number on every masked bit. An IPv4 address never lies in an IPv6 network, nor the reverse |
| `Net.EqualIffSameCanonical` | cmd/cmd.go:47 | `IP.Equal` holds iff both addresses have the same canonical form (IPv4 given as 4 bytes or IPv4-mapped in 16) |
| `Net.ContainsIPv6Prefix` | cmd/cmd.go:52 | For an IPv6 network with a byte-aligned prefix such as /64: `Contains` holds iff the address is a genuine IPv6 address with the same leading bytes |
| `Matcher.MatchFloatingIP` | cmd/cmd.go:44-58 | The scan with early return is true iff some configured address passes the family-specific test |
| `Matcher.MatchIPv4Iff` | cmd/cmd.go:46-50 | An IPv4 floating IP matches iff some configured address equals its address |
| `Matcher.MatchIPv6Iff` | cmd/cmd.go:51-55 | An IPv6 floating IP matches iff its network is present and contains a configured address. A nil network never matches |
| `Matcher.NoMatchWithoutAddressOrType` | cmd/cmd.go:44-58 | No configured address, or a type other than ipv4/ipv6, never matches |
| `Matcher.MatchesConcat` | cmd/cmd.go:45 | Matching against a concatenated list holds iff it holds against one of the parts |
| `Matcher.ExampleIPv4Match` | cmd/cmd_test.go:16-21 | 1.2.3.4 matches when 1.2.3.4 and 2600::1 are configured |
| `Matcher.ExampleIPv4NoMatch` | cmd/cmd_test.go:23-28 | 1.2.3.5 does not match |
| `Matcher.ExampleIPv6Match` | cmd/cmd_test.go:40-45 | The network 2600::/64 matches (it contains 2600::1) |
| `Matcher.ExampleIPv6NoMatch` | cmd/cmd_test.go:47-52 | The network 2700::/64 does not match |
| `Reconciler.Reconcile` | cmd/cmd.go:163-186 | The loop, with its `continue`s and early return, makes the calls and returns the result `ReconcileSpec` prescribes |
| `Reconciler.PendingMembers` | cmd/cmd.go:166-173 | An entry needs assigning iff it matches and does not already point to this server |
| `Reconciler.ReconcileSucceeds` | cmd/cmd.go:165-186 | When no assignment fails, `Assign` is called exactly for the pending entries, in list order, and nothing else is called |
| `Reconciler.ReconcileStopsAtFirstFailure` | cmd/cmd.go:175-184 | An error comes from the first failing `Assign`: every pending `Assign` before it succeeded, and the error names the IP's name and ID, the server ID and the API error. That call is the last event |
| `Reconciler.ReconcileConverged` | cmd/cmd.go:170-173 | When every matching entry already points to this server, the loop makes no call and succeeds |
| `Reconciler.ReconcileCovers` | cmd/cmd.go:165-186 | After a successful loop, every matching entry pointed to this server or got an `Assign` call |
| `Reconciler.SelfLookupAsWritten` | cmd/cmd.go:150-154 | As written: a lookup error is fatal; a reply without a server dereferences nil |
| `Reconciler.SelfLookupChecked` | cmd/cmd.go:150-154 | As intended: a missing server is an error naming the node. Otherwise it agrees with the code as written |
| `Reconciler.MissingServerDereferenced` | cmd/cmd.go:150-154 | For a name no server has, the code as written dereferences nil where an error is intended |
| `Reconciler.Failover` | cmd/cmd.go:144-189 | The MASTER branch makes the calls and returns the result `FailoverSpec` prescribes |
| `Reconciler.FailoverCallOrder` | cmd/cmd.go:149-160 | Lookup first, then listing, then only `Assign` calls. A failed lookup ends the branch before listing, and a failed listing ends it right after the listing, with its error. Errors are lookup, listing or assignment errors |
| `Notify.Notifier.constructor` | cmd/cmd.go:18-28 | The initial `config`: log and health check paths from the environment or their defaults, other fields empty |
| `Notify.Notifier.LoadConfig` | cmd/cmd.go:105-130 | Returns every configuration error. Stores the token and node name when set, and appends the parsed addresses to the existing list |
| `Notify.Notifier.AppendFloatingIPs` | cmd/cmd.go:122-129 | Appends the parsed addresses in order and returns one error per unparseable entry |
| `Notify.Notifier.Run` | cmd/cmd.go:97-198 | `run` returns and calls what `RunSpec` prescribes. Too few arguments leave the config untouched; otherwise the config is updated as in `LoadConfig` |
| `Notify.RunRejectsBeforeAnyCall` | cmd/cmd.go:100-134 | Fewer than three arguments, or any configuration error, returns that error with no state write and no API call |
| `Notify.RunWritesStateFirst` | cmd/cmd.go:138-142 | The first call writes `args[2]` to the health check path. If that write fails, nothing else is called |
| `Notify.RunOtherStateOnlyWrites` | cmd/cmd.go:138-197 | A state other than MASTER makes no API call and writes the same state twice (once if the first write fails) |
| `Notify.RunMasterCallOrder` | cmd/cmd.go:144-197 | MASTER: write, lookup, listing, then only `Assign` calls, then the second write. A failed lookup ends the run after the lookup, and a failed listing right after the listing. If a remote step fails, the state file is written once; otherwise the run ends with the second write |
| `Notify.RunConvergedMakesNoAssign` | cmd/cmd.go:165-173 | On a converged inventory the run is write, lookup, listing, write: no `Assign` |
| `Notify.RunFailFastExample` | cmd/cmd.go:175-184 | Three floating IPs, the second fails to assign: the run returns that error, never attempts the third, and skips the second write |

## Findings

| source | as written | input that shows it | evidently intended | confidence | as-written member | corrected member |
|---|---|---|---|---|---|---|
| cmd/cmd.go:150-154 | Only the error of `Server.GetByName` is checked, then `server.ID` is read | MASTER with `NOTIFY_NODE_NAME` set to a name no server has, or to the empty string. The hcloud library then returns a nil server and a nil error | Fail with "unable to find myself in the api" | medium (rests on the hcloud library's not-found convention); not executed | `Reconciler.SelfLookupAsWritten` | `Reconciler.SelfLookupChecked` |

`FailoverSpec`, `Failover` and `Run` use the corrected lookup. So where the code
panics, the model returns `SelfNotFound`, and the state file is not written a second time.

## Left out

- Logging: the log-file setup in `init` (cmd/cmd.go:60-76) and every `log.Printf`. These are
  output only. `LogPath` is read and stored but not used further.
- The cobra command, `main` and `main.go` (cmd/cmd.go:78-87, 200-204). They only wire
  the process to `run`.
- The text parsing of `net.ParseIP` and the text produced by `IP.String`. Both are
  parameters of the model.
- The file system behind `ioutil.WriteFile` and the HTTP client behind the hcloud calls.
  Both are `World` capabilities whose replies are arbitrary. So the file's contents after
  two writes (last write wins) are not modelled, only the order and arguments of the writes.
- The API token. It is stored in the config and handed to `hcloud.NewClient`, but the
  modelled replies do not depend on it. The `context.Background()` argument is not modelled either.
- What the `actions` slice holds. It is written but never read. The model fills its slots
  and states nothing about them.
- The commented-out wait for assignment progress (cmd/cmd.go:187-188). The code does not implement it.
- The formatting of error messages (`fmt.Errorf`, `multierror`). Each error is a datatype
  constructor carrying the values the message prints.
- `Net.ContainsIPv6Prefix` covers only prefixes that end on a byte boundary, such as /64. `Contains`
  itself models every mask bit by bit.
