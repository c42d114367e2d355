/**
  * `run`, the body of the keepalived notify hook: check the arguments,
  * collect every configuration error, write the VRRP state to the health
  * check file, on MASTER take over the node's floating IPs, and write the
  * state again. The package-level `config` struct is the class `Notifier`,
  * whose fields `run` updates in place.
  */
module Notify {
  import opened Wrappers
  import opened Net
  import opened Strings
  import opened HCloud
  import opened Config
  import opened Matcher
  import opened Reconciler

  /** The state on which the hook takes over the floating IPs. */
  const MasterState := "MASTER"

  /** The second state write (lines 191-197), after the events in `trace`. */
  function FinalWrite(w: World, path: string, state: string, trace: seq<Event>): RunOutcome
  {
    var after := trace + [WriteState(path, state)];
    match w.writeFile(path, state, trace)
    case Fail(e) => RunOutcome(Some(HealthCheckWriteFailed(e)), after)
    case Pass => RunOutcome(None, after)
  }

  /** What `run` returns and which calls it makes, given its arguments, the
      configuration errors it collected, and the configuration it then holds. */
  function RunSpec(args: seq<string>, configErrs: seq<ConfigError>, path: string,
                   nodeName: string, myIPs: seq<IP>, w: World): RunOutcome
  {
    if |args| < 3 then RunOutcome(Some(NotEnoughArgs), [])
    else if configErrs != [] then RunOutcome(Some(ConfigInvalid(configErrs)), [])
    else
      var state := args[2];
      var t1 := [WriteState(path, state)];
      match w.writeFile(path, state, [])
      case Fail(e) => RunOutcome(Some(HealthCheckWriteFailed(e)), t1)
      case Pass =>
        if state == MasterState then
          var failover := FailoverSpec(w, nodeName, myIPs, t1);
          if failover.err.Some? then failover else FinalWrite(w, path, state, failover.trace)
        else FinalWrite(w, path, state, t1)
  }

  /** The package-level configuration and the operations that use it. */
  class Notifier {
    var logPath: string
    var healthCheckPath: string
    var nodeName: string
    var floatingIPs: seq<IP>
    var hcloudToken: string

    /** The initial value of `config`: the two paths from the environment or
        their defaults, everything else empty. */
    constructor (env: Env)
      ensures logPath == GetEnv(env, LogPathKey, DefaultLogPath)
      ensures healthCheckPath == GetEnv(env, HealthCheckPathKey, DefaultHealthCheckPath)
      ensures nodeName == "" && floatingIPs == [] && hcloudToken == ""
    {
      logPath := GetEnv(env, LogPathKey, DefaultLogPath);
      healthCheckPath := GetEnv(env, HealthCheckPathKey, DefaultHealthCheckPath);
      nodeName := "";
      floatingIPs := [];
      hcloudToken := "";
    }

    /** Lines 105-130: read the three required variables, store each one that
        is set, append every address that parses, and return every error. */
    method LoadConfig(env: Env, parse: string -> Option<IP>) returns (configErrs: seq<ConfigError>)
      modifies this`hcloudToken, this`nodeName, this`floatingIPs
      ensures configErrs == ConfigErrors(env, parse)
      ensures hcloudToken == GetEnv(env, HcloudTokenKey, old(hcloudToken))
      ensures nodeName == GetEnv(env, NodeNameKey, old(nodeName))
      ensures floatingIPs == old(floatingIPs) + ConfiguredIPs(env, parse)
    {
      configErrs := [];
      var token := GetEnvRequired(env, HcloudTokenKey);
      if token.Failure? {
        configErrs := configErrs + [token.error];
      } else {
        hcloudToken := token.value;
      }
      var name := GetEnvRequired(env, NodeNameKey);
      if name.Failure? {
        configErrs := configErrs + [name.error];
      } else {
        nodeName := name.value;
      }
      var list := GetEnvRequired(env, FloatingIPsKey);
      if list.Failure? {
        configErrs := configErrs + [list.error];
      } else {
        var invalid := AppendFloatingIPs(Split(list.value, ListSeparator), parse);
        configErrs := configErrs + invalid;
      }
    }

    /** Lines 122-129: parse each entry in turn, appending its address to the
        configured floating IPs or returning an error for it. */
    method AppendFloatingIPs(entries: seq<string>, parse: string -> Option<IP>)
      returns (invalid: seq<ConfigError>)
      modifies this`floatingIPs
      ensures floatingIPs == old(floatingIPs) + ParseIPList(entries, parse).ips
      ensures invalid == ParseIPList(entries, parse).errs
    {
      invalid := [];
      for k := 0 to |entries|
        invariant floatingIPs == old(floatingIPs) + ParseIPList(entries[..k], parse).ips
        invariant invalid == ParseIPList(entries[..k], parse).errs
      {
        var entry := entries[k];
        assert entries[..k + 1][..k] == entries[..k];
        var ip := parse(entry);
        if ip.None? {
          invalid := invalid + [InvalidIP(entry)];
        } else {
          floatingIPs := floatingIPs + [ip.value];
        }
      }
      assert entries[..|entries|] == entries;
    }

    /** `run`. */
    method Run(args: seq<string>, env: Env, parse: string -> Option<IP>, w: World)
      returns (err: Option<RunError>, trace: seq<Event>)
      modifies this
      ensures |args| < 3 ==> unchanged(this)
      ensures |args| >= 3 ==>
                && hcloudToken == GetEnv(env, HcloudTokenKey, old(hcloudToken))
                && nodeName == GetEnv(env, NodeNameKey, old(nodeName))
                && floatingIPs == old(floatingIPs) + ConfiguredIPs(env, parse)
      ensures logPath == old(logPath) && healthCheckPath == old(healthCheckPath)
      ensures RunOutcome(err, trace) ==
              RunSpec(args, if |args| < 3 then [] else ConfigErrors(env, parse),
                      healthCheckPath, nodeName, floatingIPs, w)
    {
      trace := [];
      if |args| < 3 {
        return Some(NotEnoughArgs), trace;
      }
      var state := args[2];
      var configErrs := LoadConfig(env, parse);
      if configErrs != [] {
        return Some(ConfigInvalid(configErrs)), trace;
      }
      var written := w.writeFile(healthCheckPath, state, trace);
      trace := trace + [WriteState(healthCheckPath, state)];
      if written.Fail? {
        return Some(HealthCheckWriteFailed(written.error)), trace;
      }
      assert trace == [WriteState(healthCheckPath, state)];
      assert w.writeFile(healthCheckPath, state, []) == Pass;
      if state == MasterState {
        err, trace := Failover(w, nodeName, floatingIPs, trace);
        assert RunOutcome(err, trace) == FailoverSpec(w, nodeName, floatingIPs, [WriteState(healthCheckPath, state)]);
        if err.Some? {
          return;
        }
      }
      assert RunSpec(args, configErrs, healthCheckPath, nodeName, floatingIPs, w) ==
             FinalWrite(w, healthCheckPath, state, trace);
      written := w.writeFile(healthCheckPath, state, trace);
      trace := trace + [WriteState(healthCheckPath, state)];
      if written.Fail? {
        return Some(HealthCheckWriteFailed(written.error)), trace;
      }
      err := None;
    }
  }

  /** Too few arguments, or any configuration error, ends the run before the
      state file is written or the API is called. */
  lemma RunRejectsBeforeAnyCall(args: seq<string>, configErrs: seq<ConfigError>, path: string,
                                nodeName: string, myIPs: seq<IP>, w: World)
    requires |args| < 3 || configErrs != []
    ensures RunSpec(args, configErrs, path, nodeName, myIPs, w).trace == []
    ensures RunSpec(args, configErrs, path, nodeName, myIPs, w).err ==
            Some(if |args| < 3 then NotEnoughArgs else ConfigInvalid(configErrs))
  {
  }

  /** A valid invocation first writes the state, `args[2]`, to the health check
      file; if that write fails nothing else happens. */
  lemma RunWritesStateFirst(args: seq<string>, path: string, nodeName: string,
                            myIPs: seq<IP>, w: World)
    requires |args| >= 3
    ensures var o := RunSpec(args, [], path, nodeName, myIPs, w);
      && |o.trace| >= 1 && o.trace[0] == WriteState(path, args[2])
      && (w.writeFile(path, args[2], []).Fail? ==>
            o.trace == [WriteState(path, args[2])] && o.err.Some? && o.err.value.HealthCheckWriteFailed?)
  {
    if w.writeFile(path, args[2], []).Pass? && args[2] == MasterState {
      FailoverCallOrder(w, nodeName, myIPs, [WriteState(path, args[2])]);
    }
  }

  /** A state other than MASTER calls nothing remote: the run writes the same
      state twice, or once when the first write fails. */
  lemma RunOtherStateOnlyWrites(args: seq<string>, path: string, nodeName: string,
                                myIPs: seq<IP>, w: World)
    requires |args| >= 3 && args[2] != MasterState
    ensures var o := RunSpec(args, [], path, nodeName, myIPs, w);
      && (forall i :: 0 <= i < |o.trace| ==> o.trace[i] == WriteState(path, args[2]))
      && |o.trace| == (if w.writeFile(path, args[2], []).Pass? then 2 else 1)
  {
  }

  /** On MASTER, after the first write the run looks itself up, then lists,
      then only assigns, and finally writes the state again. When the lookup,
      the listing or an assignment fails, the run ends there: the state file
      is written only once. */
  lemma RunMasterCallOrder(args: seq<string>, path: string, nodeName: string,
                           myIPs: seq<IP>, w: World)
    requires |args| >= 3 && args[2] == MasterState
    requires w.writeFile(path, MasterState, []).Pass?
    ensures var o := RunSpec(args, [], path, nodeName, myIPs, w);
      var t1 := [WriteState(path, MasterState)];
      var t2 := t1 + [GetServerByName(nodeName)];
      && |o.trace| >= 2
      && o.trace[..2] == t2
      && (SelfLookupChecked(nodeName, w.serverByName(nodeName, t1)).Failure? ==>
            o.trace == t2 && o.err.Some? && (o.err.value.SelfLookupFailed? || o.err.value.SelfNotFound?))
      && (SelfLookupChecked(nodeName, w.serverByName(nodeName, t1)).Success? ==>
            && |o.trace| >= 3 && o.trace[2] == ListFloatingIPs
            && (w.allFloatingIPs(t2).Failure? ==>
                  o.trace == t2 + [ListFloatingIPs] && o.err == Some(ListFailed(w.allFloatingIPs(t2).error)))
            && (forall i :: 3 <= i < |o.trace| ==>
                  o.trace[i].Assign? || (i == |o.trace| - 1 && o.trace[i] == WriteState(path, MasterState))))
      && (o.err.None? || o.err.value.HealthCheckWriteFailed? <==>
            o.trace[|o.trace| - 1] == WriteState(path, MasterState))
      && (o.err.Some? && !o.err.value.HealthCheckWriteFailed? ==>
            forall i :: 1 <= i < |o.trace| ==> !o.trace[i].WriteState?)
  {
    var t1 := [WriteState(path, MasterState)];
    FailoverCallOrder(w, nodeName, myIPs, t1);
    var f := FailoverSpec(w, nodeName, myIPs, t1);
    var lookup := SelfLookupChecked(nodeName, w.serverByName(nodeName, t1));
    assert f.trace[..1] == t1;
    if f.err.Some? {
      assert !f.err.value.HealthCheckWriteFailed?;
      forall i | 1 <= i < |f.trace|
        ensures !f.trace[i].WriteState?
      {
        if i == 2 {
          assert lookup.Success?;
        }
      }
    } else {
      var o := FinalWrite(w, path, MasterState, f.trace);
      assert o.trace[..|f.trace|] == f.trace;
      assert lookup.Success?;
      forall i | 3 <= i < |o.trace|
        ensures o.trace[i].Assign? || (i == |o.trace| - 1 && o.trace[i] == WriteState(path, MasterState))
      {
        if i < |f.trace| {
          assert o.trace[i] == f.trace[i];
        }
      }
    }
  }

  /** Idempotence: on MASTER, when every matching floating IP already points
      to this node's server, the run makes no `Assign` call. */
  lemma RunConvergedMakesNoAssign(args: seq<string>, path: string, nodeName: string,
                                  myIPs: seq<IP>, w: World, server: Server, fips: seq<FloatingIP>)
    requires |args| >= 3 && args[2] == MasterState
    requires w.writeFile(path, MasterState, []).Pass?
    requires w.serverByName(nodeName, [WriteState(path, MasterState)]) == Success(Some(server))
    requires w.allFloatingIPs([WriteState(path, MasterState), GetServerByName(nodeName)]) == Success(fips)
    requires forall k :: 0 <= k < |fips| ==> Matches(fips[k], myIPs) ==> PointsTo(fips[k], server)
    ensures var o := RunSpec(args, [], path, nodeName, myIPs, w);
      o.trace == [WriteState(path, MasterState), GetServerByName(nodeName), ListFloatingIPs,
                  WriteState(path, MasterState)]
  {
    var t1 := [WriteState(path, MasterState)];
    var t2 := t1 + [GetServerByName(nodeName)];
    assert t2 == [WriteState(path, MasterState), GetServerByName(nodeName)];
    var t3 := t2 + [ListFloatingIPs];
    ReconcileConverged(w, myIPs, server, fips, t3);
    assert FailoverSpec(w, nodeName, myIPs, t1) == RunOutcome(None, t3);
  }

  /** An example of a node with three floating IPs. */
  const ExampleServer := Server(7, "lb-1")
  const ExampleIPs: seq<IP> := [[10, 0, 0, 1], [10, 0, 0, 2], [10, 0, 0, 3]]
  const ExampleFloatingIPs: seq<FloatingIP> := [
    FloatingIP(1, "fip-a", TypeIPv4, [10, 0, 0, 1], None, None),
    FloatingIP(2, "fip-b", TypeIPv4, [10, 0, 0, 2], None, Some(Server(8, "lb-2"))),
    FloatingIP(3, "fip-c", TypeIPv4, [10, 0, 0, 3], None, None)]

  /** A world in which assigning the second floating IP fails. */
  const FlakyWorld := World(
    (path, state, history) => Pass,
    (name, history) => Success(Some(ExampleServer)),
    history => Success(ExampleFloatingIPs),
    (f: FloatingIP, server, history) => if f.id == 2 then Failure("conflict") else Success(Action(f.id)))

  /** Fail fast: of three floating IPs to take over, the second fails to be
      assigned. The run returns that error at once; the third is never
      attempted and the state file is not written a second time. */
  lemma RunFailFastExample()
    ensures RunSpec(["INSTANCE", "VI_1", MasterState], [], DefaultHealthCheckPath, "lb-1",
                    ExampleIPs, FlakyWorld) ==
            RunOutcome(Some(AssignFailed("fip-b", 2, 7, "conflict")),
                       [WriteState(DefaultHealthCheckPath, MasterState), GetServerByName("lb-1"),
                        ListFloatingIPs, Assign(1, 7), Assign(2, 7)])
  {
    var fips := ExampleFloatingIPs;
    assert MatchesAddress(fips[0], ExampleIPs[0]);
    assert MatchesAddress(fips[1], ExampleIPs[1]);
    var t := [WriteState(DefaultHealthCheckPath, MasterState), GetServerByName("lb-1"), ListFloatingIPs];
    assert fips[1..][1..] == fips[2..];
    calc {
      ReconcileSpec(FlakyWorld, ExampleIPs, ExampleServer, fips, t);
      ReconcileSpec(FlakyWorld, ExampleIPs, ExampleServer, fips[1..], t + [Assign(1, 7)]);
      RunOutcome(Some(AssignFailed("fip-b", 2, 7, "conflict")), t + [Assign(1, 7)] + [Assign(2, 7)]);
    }
  }
}
