/**
  * Configuration read from the environment: `getEnv`, `getEnvRequired`, the
  * accumulation of configuration errors in `run`, and `ipSliceToStrSlice`.
  * The environment is a map; `net.ParseIP` is a parameter `parse` about which
  * nothing is assumed.
  */
module Config {
  import opened Wrappers
  import opened Net
  import opened Strings

  type Env = map<string, string>

  const LogPathKey := "NOTIFY_LOG_PATH"
  const HealthCheckPathKey := "NOTIFY_HEALTH_CHECK_PATH"
  const HcloudTokenKey := "NOTIFY_HCLOUD_TOKEN"
  const NodeNameKey := "NOTIFY_NODE_NAME"
  const FloatingIPsKey := "NOTIFY_FLOATING_IPS"

  const DefaultLogPath := "/var/run/keepalived.notify.log"
  const DefaultHealthCheckPath := "/var/run/keepalived.state"

  /** The separator of the floating IP list. */
  const ListSeparator: char := ','

  /** "required environment variable missing: KEY" and "invalid IP address: ENTRY". */
  datatype ConfigError = MissingEnv(key: string) | InvalidIP(entry: string)

  /** `getEnv`: the variable's value whenever it is set, even to the empty
      string; the fallback only when it is not set at all. */
  function GetEnv(env: Env, key: string, fallback: string): (value: string)
    ensures key in env ==> value == env[key]
    ensures key !in env ==> value == fallback
  {
    if key in env then env[key] else fallback
  }

  /** `getEnvRequired`: the value when the variable is set (even to ""),
      an error naming the variable exactly when it is not. */
  function GetEnvRequired(env: Env, key: string): (r: Result<string, ConfigError>)
    ensures r.Failure? <==> key !in env
    ensures r.Success? ==> r.value == env[key]
    ensures r.Failure? ==> r.error == MissingEnv(key)
  {
    if key in env then Success(env[key]) else Failure(MissingEnv(key))
  }

  /** The two lookups agree: a required variable that is present has the
      value `getEnv` returns for any fallback, and a missing one makes
      `getEnv` return its fallback. */
  lemma GetEnvAgreesWithRequired(env: Env, key: string, fallback: string)
    ensures GetEnvRequired(env, key).Success? ==>
              GetEnv(env, key, fallback) == GetEnvRequired(env, key).value
    ensures GetEnvRequired(env, key).Failure? ==> GetEnv(env, key, fallback) == fallback
  {
  }

  /** The addresses and errors collected from the entries of the list. */
  datatype ParsedIPs = ParsedIPs(ips: seq<IP>, errs: seq<ConfigError>)

  /** The loop over the comma-separated entries, entry by entry from the
      first: an entry `parse` rejects adds one error, an entry it accepts
      appends its address. */
  function ParseIPList(entries: seq<string>, parse: string -> Option<IP>): (r: ParsedIPs)
    ensures |r.ips| + |r.errs| == |entries|
    decreases |entries|
  {
    if entries == [] then ParsedIPs([], [])
    else
      var done := ParseIPList(entries[..|entries| - 1], parse);
      var entry := entries[|entries| - 1];
      match parse(entry)
      case None => ParsedIPs(done.ips, done.errs + [InvalidIP(entry)])
      case Some(ip) => ParsedIPs(done.ips + [ip], done.errs)
  }

  /** `e` is the error of an entry of `entries` that does not parse. */
  ghost predicate RejectedEntry(entries: seq<string>, parse: string -> Option<IP>, e: ConfigError)
  {
    e.InvalidIP? && e.entry in entries && parse(e.entry).None?
  }

  /** Every error names an entry of the list that does not parse. */
  lemma {:induction false} ParseIPListErrorsRejected(entries: seq<string>, parse: string -> Option<IP>)
    ensures forall k :: 0 <= k < |ParseIPList(entries, parse).errs| ==>
              RejectedEntry(entries, parse, ParseIPList(entries, parse).errs[k])
    decreases |entries|
  {
    if entries != [] {
      ParseIPListErrorsRejected(entries[..|entries| - 1], parse);
      assert entries == entries[..|entries| - 1] + [entries[|entries| - 1]];
    }
  }

  /** `ip` is the parse of some entry of `entries`. */
  ghost predicate ParsedFrom(entries: seq<string>, parse: string -> Option<IP>, ip: IP)
  {
    exists j :: 0 <= j < |entries| && parse(entries[j]) == Some(ip)
  }

  /** Every address collected is the parse of some entry of the list. */
  lemma {:induction false} ParseIPListAddressesParsed(entries: seq<string>, parse: string -> Option<IP>)
    ensures forall k :: 0 <= k < |ParseIPList(entries, parse).ips| ==>
              ParsedFrom(entries, parse, ParseIPList(entries, parse).ips[k])
    decreases |entries|
  {
    if entries != [] {
      var init := entries[..|entries| - 1];
      ParseIPListAddressesParsed(init, parse);
      forall k | 0 <= k < |ParseIPList(entries, parse).ips|
        ensures ParsedFrom(entries, parse, ParseIPList(entries, parse).ips[k])
      {
        if k < |ParseIPList(init, parse).ips| {
          assert ParsedFrom(init, parse, ParseIPList(init, parse).ips[k]);
          var j :| 0 <= j < |init| && parse(init[j]) == Some(ParseIPList(init, parse).ips[k]);
          assert entries[j] == init[j];
        } else {
          assert parse(entries[|entries| - 1]) == Some(ParseIPList(entries, parse).ips[k]);
        }
      }
    }
  }

  /** No error is collected exactly when every entry parses, and then the
      addresses are the entries' parses, one for one and in order. */
  lemma {:induction false} ParseIPListAllValid(entries: seq<string>, parse: string -> Option<IP>)
    ensures var r := ParseIPList(entries, parse);
      && (r.errs == [] <==> forall j :: 0 <= j < |entries| ==> parse(entries[j]).Some?)
      && (r.errs == [] ==> forall j :: 0 <= j < |entries| ==> parse(entries[j]) == Some(r.ips[j]))
    decreases |entries|
  {
    if entries != [] {
      var init := entries[..|entries| - 1];
      var last := entries[|entries| - 1];
      ParseIPListAllValid(init, parse);
      assert forall j :: 0 <= j < |init| ==> entries[j] == init[j];
      if parse(last).None? {
        assert ParseIPList(entries, parse).errs != [];
      }
    }
  }

  /** Entries are processed in order: parsing a list that is made of two parts
      collects the first part's addresses and errors before the second's. */
  lemma {:induction false} ParseIPListAppend(a: seq<string>, b: seq<string>, parse: string -> Option<IP>)
    ensures ParseIPList(a + b, parse) ==
            ParsedIPs(ParseIPList(a, parse).ips + ParseIPList(b, parse).ips,
                      ParseIPList(a, parse).errs + ParseIPList(b, parse).errs)
    decreases |b|
  {
    if b == [] {
      assert a + b == a;
    } else {
      var init := b[..|b| - 1];
      ParseIPListAppend(a, init, parse);
      assert (a + b)[..|a + b| - 1] == a + init;
      assert (a + b)[|a + b| - 1] == b[|b| - 1];
    }
  }

  /** The parses of the entries `parse` accepts, in list order. */
  function AcceptedIPs(entries: seq<string>, parse: string -> Option<IP>): seq<IP>
  {
    if entries == [] then []
    else
      (match parse(entries[0]) case Some(ip) => [ip] case None => []) + AcceptedIPs(entries[1..], parse)
  }

  /** One `InvalidIP` per entry `parse` rejects, in list order. */
  function RejectedEntries(entries: seq<string>, parse: string -> Option<IP>): seq<ConfigError>
  {
    if entries == [] then []
    else
      (if parse(entries[0]).None? then [InvalidIP(entries[0])] else []) + RejectedEntries(entries[1..], parse)
  }

  /** The collected addresses are the parses of the accepted entries and the
      collected errors name the rejected entries, both in list order. */
  lemma {:induction false} ParseIPListByEntry(entries: seq<string>, parse: string -> Option<IP>)
    ensures ParseIPList(entries, parse) ==
            ParsedIPs(AcceptedIPs(entries, parse), RejectedEntries(entries, parse))
    decreases |entries|
  {
    if entries != [] {
      var head := [entries[0]];
      assert entries == head + entries[1..];
      ParseIPListAppend(head, entries[1..], parse);
      ParseIPListByEntry(entries[1..], parse);
      assert head[..0] == [];
    }
  }

  /** The errors of one required variable: none when set, one naming it when not. */
  function RequiredErrors(env: Env, key: string): (errs: seq<ConfigError>)
    ensures errs == [] <==> key in env
    ensures key !in env ==> errs == [MissingEnv(key)]
  {
    match GetEnvRequired(env, key)
    case Success(_) => []
    case Failure(e) => [e]
  }

  /** The entries of NOTIFY_FLOATING_IPS, split at commas. */
  function FloatingIPEntries(env: Env): seq<string>
    requires FloatingIPsKey in env
  {
    Split(env[FloatingIPsKey], ListSeparator)
  }

  /** Every configuration error `run` collects, in the order it collects them:
      the token, the node name, then the floating IP list (missing, or one
      error per entry that does not parse). */
  function ConfigErrors(env: Env, parse: string -> Option<IP>): seq<ConfigError>
  {
    RequiredErrors(env, HcloudTokenKey) + RequiredErrors(env, NodeNameKey) +
    match GetEnvRequired(env, FloatingIPsKey)
    case Failure(e) => [e]
    case Success(list) => ParseIPList(Split(list, ListSeparator), parse).errs
  }

  /** The addresses `run` appends to the configured floating IPs. */
  function ConfiguredIPs(env: Env, parse: string -> Option<IP>): seq<IP>
  {
    match GetEnvRequired(env, FloatingIPsKey)
    case Failure(_) => []
    case Success(list) => ParseIPList(Split(list, ListSeparator), parse).ips
  }

  /** With none of the three required variables set, all three are reported,
      not only the first. */
  lemma AllMissingReported(env: Env, parse: string -> Option<IP>)
    requires HcloudTokenKey !in env && NodeNameKey !in env && FloatingIPsKey !in env
    ensures ConfigErrors(env, parse) ==
            [MissingEnv(HcloudTokenKey), MissingEnv(NodeNameKey), MissingEnv(FloatingIPsKey)]
  {
  }

  /** The configuration is accepted exactly when the three required variables
      are set and every entry of the list parses; it then holds one address
      per entry, in order, and so at least one. */
  lemma ConfigValidIff(env: Env, parse: string -> Option<IP>)
    ensures ConfigErrors(env, parse) == [] <==>
            && HcloudTokenKey in env && NodeNameKey in env && FloatingIPsKey in env
            && forall j :: 0 <= j < |FloatingIPEntries(env)| ==> parse(FloatingIPEntries(env)[j]).Some?
    ensures ConfigErrors(env, parse) == [] ==>
            && |ConfiguredIPs(env, parse)| == |FloatingIPEntries(env)| >= 1
            && forall j :: 0 <= j < |FloatingIPEntries(env)| ==>
                 parse(FloatingIPEntries(env)[j]) == Some(ConfiguredIPs(env, parse)[j])
  {
    if FloatingIPsKey in env {
      ParseIPListAllValid(FloatingIPEntries(env), parse);
    }
  }

  /** `ipSliceToStrSlice`: fills a slice of the same length with each
      address's text, position by position. */
  method IPSliceToStrSlice(ips: seq<IP>, toString: IP -> string) returns (out: seq<string>)
    ensures |out| == |ips|
    ensures forall pos :: 0 <= pos < |ips| ==> out[pos] == toString(ips[pos])
  {
    var buf := new string[|ips|];
    for pos := 0 to |ips|
      invariant forall k :: 0 <= k < pos ==> buf[k] == toString(ips[k])
    {
      buf[pos] := toString(ips[pos]);
    }
    out := buf[..];
  }
}
