/**
  * The MASTER branch of `run`: find this node's server by name, list every
  * floating IP, and assign to this server, in list order, each floating IP
  * that matches a configured address and does not already point to it. The
  * first assignment that fails ends the branch with an error; later floating
  * IPs are not attempted.
  */
module Reconciler {
  import opened Wrappers
  import opened Net
  import opened HCloud
  import opened Config
  import opened Matcher

  /** The errors `run` returns. */
  datatype RunError =
    | NotEnoughArgs
    | ConfigInvalid(errors: seq<ConfigError>)
    | HealthCheckWriteFailed(cause: string)
    | SelfLookupFailed(cause: string)
    | SelfNotFound(nodeName: string)
    | ListFailed(cause: string)
    | AssignFailed(name: string, floatingIPID: int, serverID: int, cause: string)

  /** What a run, or a part of it, returns, with every call it made to the
      outside world, in order. */
  datatype RunOutcome = RunOutcome(err: Option<RunError>, trace: seq<Event>)

  /** The floating IP is already assigned to `server`. */
  predicate PointsTo(f: FloatingIP, server: Server)
  {
    f.server.Some? && f.server.value.id == server.id
  }

  /** The floating IP is one of this node's and is not yet assigned to it. */
  predicate NeedsAssign(f: FloatingIP, myIPs: seq<IP>, server: Server)
  {
    Matches(f, myIPs) && !PointsTo(f, server)
  }

  /** The floating IPs that need assigning, in list order. */
  function Pending(fips: seq<FloatingIP>, myIPs: seq<IP>, server: Server): seq<FloatingIP>
  {
    if fips == [] then []
    else (if NeedsAssign(fips[0], myIPs, server) then [fips[0]] else []) +
         Pending(fips[1..], myIPs, server)
  }

  /** The `Assign` calls for the given floating IPs, in order. */
  function AssignEvents(fips: seq<FloatingIP>, server: Server): seq<Event>
  {
    if fips == [] then [] else [Assign(fips[0].id, server.id)] + AssignEvents(fips[1..], server)
  }

  /** The loop over the listed floating IPs (lines 165-186), from the entry at
      hand to the end, after the events in `trace`. */
  function ReconcileSpec(w: World, myIPs: seq<IP>, server: Server, fips: seq<FloatingIP>,
                         trace: seq<Event>): RunOutcome
    decreases |fips|
  {
    if fips == [] then RunOutcome(None, trace)
    else
      var f := fips[0];
      if !Matches(f, myIPs) || PointsTo(f, server) then
        ReconcileSpec(w, myIPs, server, fips[1..], trace)
      else
        var after := trace + [Assign(f.id, server.id)];
        match w.assign(f, server, trace)
        case Failure(e) => RunOutcome(Some(AssignFailed(f.name, f.id, server.id, e)), after)
        case Success(_) => ReconcileSpec(w, myIPs, server, fips[1..], after)
  }

  /** The reconciliation loop. `actions` is the slice the source fills by
      list position and never reads. */
  method Reconcile(w: World, myIPs: seq<IP>, server: Server, fips: seq<FloatingIP>,
                   trace0: seq<Event>) returns (err: Option<RunError>, trace: seq<Event>)
    ensures RunOutcome(err, trace) == ReconcileSpec(w, myIPs, server, fips, trace0)
  {
    trace := trace0;
    var actions := new Option<Action>[|fips|](_ => None);
    for pos := 0 to |fips|
      invariant ReconcileSpec(w, myIPs, server, fips, trace0) ==
                ReconcileSpec(w, myIPs, server, fips[pos..], trace)
      invariant forall k :: 0 <= k < pos ==> (actions[k].Some? <==> NeedsAssign(fips[k], myIPs, server))
      invariant forall k :: pos <= k < |fips| ==> actions[k].None?
    {
      assert fips[pos..][1..] == fips[pos + 1..];
      var floatingIP := fips[pos];
      var matched := MatchFloatingIP(floatingIP, myIPs);
      if !matched {
        continue;
      }
      if floatingIP.server.Some? && floatingIP.server.value.id == server.id {
        continue;
      }
      var reply := w.assign(floatingIP, server, trace);
      trace := trace + [Assign(floatingIP.id, server.id)];
      match reply {
        case Failure(e) =>
          err := Some(AssignFailed(floatingIP.name, floatingIP.id, server.id, e));
          return;
        case Success(action) =>
          actions[pos] := Some(action);
      }
    }
    err := None;
  }

  /** Exactly the floating IPs that match and do not point to `server` are pending. */
  lemma {:induction false} PendingMembers(fips: seq<FloatingIP>, myIPs: seq<IP>, server: Server)
    ensures forall f :: f in Pending(fips, myIPs, server) <==> f in fips && NeedsAssign(f, myIPs, server)
    decreases |fips|
  {
    if fips != [] {
      PendingMembers(fips[1..], myIPs, server);
      assert fips == [fips[0]] + fips[1..];
    }
  }

  /** The events of an assignment batch are all `Assign` calls, one per floating IP. */
  lemma {:induction false} AssignEventsShape(fips: seq<FloatingIP>, server: Server)
    ensures |AssignEvents(fips, server)| == |fips|
    ensures forall k :: 0 <= k < |fips| ==> AssignEvents(fips, server)[k] == Assign(fips[k].id, server.id)
    decreases |fips|
  {
    if fips != [] {
      AssignEventsShape(fips[1..], server);
    }
  }

  /** When no assignment fails, the loop calls `Assign` exactly for the
      pending floating IPs, in list order, and for nothing else. */
  lemma {:induction false} ReconcileSucceeds(w: World, myIPs: seq<IP>, server: Server,
                                             fips: seq<FloatingIP>, t0: seq<Event>)
    requires ReconcileSpec(w, myIPs, server, fips, t0).err.None?
    ensures ReconcileSpec(w, myIPs, server, fips, t0).trace ==
            t0 + AssignEvents(Pending(fips, myIPs, server), server)
    decreases |fips|
  {
    if fips != [] {
      var f := fips[0];
      if !NeedsAssign(f, myIPs, server) {
        ReconcileSucceeds(w, myIPs, server, fips[1..], t0);
        assert Pending(fips, myIPs, server) == Pending(fips[1..], myIPs, server);
      } else {
        var t1 := t0 + [Assign(f.id, server.id)];
        ReconcileSucceeds(w, myIPs, server, fips[1..], t1);
        var p := Pending(fips[1..], myIPs, server);
        assert ([f] + p)[1..] == p;
        assert AssignEvents([f] + p, server) == [Assign(f.id, server.id)] + AssignEvents(p, server);
      }
    }
  }

  /** The events before the loop reaches position `i`, when every pending
      floating IP before it was assigned successfully. */
  ghost function EventsBefore(w: World, myIPs: seq<IP>, server: Server, fips: seq<FloatingIP>,
                              t0: seq<Event>, i: int): seq<Event>
    requires 0 <= i <= |fips|
  {
    t0 + AssignEvents(Pending(fips[..i], myIPs, server), server)
  }

  /** The loop stopped at the floating IP at position `j`: it needed assigning,
      every pending floating IP before it was assigned without error, then its
      own `Assign` call was made, the world answered with an error, and the
      run's error names that floating IP, this server and the world's error. */
  ghost predicate StoppedAt(w: World, myIPs: seq<IP>, server: Server, fips: seq<FloatingIP>,
                            t0: seq<Event>, j: int, o: RunOutcome)
  {
    && 0 <= j < |fips|
    && (forall i :: 0 <= i < j && NeedsAssign(fips[i], myIPs, server) ==>
          w.assign(fips[i], server, EventsBefore(w, myIPs, server, fips, t0, i)).Success?)
    && NeedsAssign(fips[j], myIPs, server)
    && var before := EventsBefore(w, myIPs, server, fips, t0, j);
    && w.assign(fips[j], server, before).Failure?
    && o.trace == before + [Assign(fips[j].id, server.id)]
    && o.err == Some(AssignFailed(fips[j].name, fips[j].id, server.id, w.assign(fips[j], server, before).error))
  }

  /** Seen from the second floating IP on, the events before position
      `i + 1` start with the first floating IP's `Assign`, if it had one. */
  lemma EventsBeforeShift(w: World, myIPs: seq<IP>, server: Server, fips: seq<FloatingIP>,
                          t0: seq<Event>, i: int)
    requires 0 <= i < |fips|
    ensures EventsBefore(w, myIPs, server, fips, t0, i + 1) ==
            EventsBefore(w, myIPs, server, fips[1..],
                         t0 + (if NeedsAssign(fips[0], myIPs, server) then [Assign(fips[0].id, server.id)] else []), i)
  {
    var f := fips[0];
    var p := Pending(fips[1..][..i], myIPs, server);
    assert fips[..i + 1][1..] == fips[1..][..i];
    if NeedsAssign(f, myIPs, server) {
      assert Pending(fips[..i + 1], myIPs, server) == [f] + p;
      assert ([f] + p)[1..] == p;
      assert AssignEvents([f] + p, server) == [Assign(f.id, server.id)] + AssignEvents(p, server);
    } else {
      assert Pending(fips[..i + 1], myIPs, server) == p;
    }
  }

  /** Putting in front a floating IP that was skipped, or assigned without
      error, shifts the stopping position by one. */
  lemma StoppedAtShift(w: World, myIPs: seq<IP>, server: Server, fips: seq<FloatingIP>,
                       t0: seq<Event>, j: int, o: RunOutcome)
    requires |fips| > 0
    requires NeedsAssign(fips[0], myIPs, server) ==> w.assign(fips[0], server, t0).Success?
    requires StoppedAt(w, myIPs, server, fips[1..],
                       t0 + (if NeedsAssign(fips[0], myIPs, server) then [Assign(fips[0].id, server.id)] else []), j, o)
    ensures StoppedAt(w, myIPs, server, fips, t0, j + 1, o)
  {
    var t1 := t0 + (if NeedsAssign(fips[0], myIPs, server) then [Assign(fips[0].id, server.id)] else []);
    EventsBeforeShift(w, myIPs, server, fips, t0, j);
    assert fips[j + 1] == fips[1..][j];
    forall i | 0 <= i < j + 1 && NeedsAssign(fips[i], myIPs, server)
      ensures w.assign(fips[i], server, EventsBefore(w, myIPs, server, fips, t0, i)).Success?
    {
      if i == 0 {
        assert fips[..0] == [];
        assert EventsBefore(w, myIPs, server, fips, t0, 0) == t0;
      } else {
        EventsBeforeShift(w, myIPs, server, fips, t0, i - 1);
        assert fips[i] == fips[1..][i - 1];
        assert NeedsAssign(fips[1..][i - 1], myIPs, server);
      }
    }
  }

  /** Fail fast: when the loop returns an error, it is the error of the first
      failing `Assign`, and that call is the last event — no later floating
      IP is attempted. */
  lemma {:induction false} ReconcileStopsAtFirstFailure(w: World, myIPs: seq<IP>, server: Server,
                                                        fips: seq<FloatingIP>, t0: seq<Event>)
    requires ReconcileSpec(w, myIPs, server, fips, t0).err.Some?
    ensures exists j :: StoppedAt(w, myIPs, server, fips, t0, j, ReconcileSpec(w, myIPs, server, fips, t0))
    decreases |fips|
  {
    var o := ReconcileSpec(w, myIPs, server, fips, t0);
    var f := fips[0];
    if NeedsAssign(f, myIPs, server) && w.assign(f, server, t0).Failure? {
      assert fips[..0] == [];
      assert EventsBefore(w, myIPs, server, fips, t0, 0) == t0;
      assert StoppedAt(w, myIPs, server, fips, t0, 0, o);
    } else {
      var t1 := t0 + (if NeedsAssign(f, myIPs, server) then [Assign(f.id, server.id)] else []);
      if !NeedsAssign(f, myIPs, server) {
        assert t1 == t0;
      }
      ReconcileStopsAtFirstFailure(w, myIPs, server, fips[1..], t1);
      var j :| StoppedAt(w, myIPs, server, fips[1..], t1, j, o);
      StoppedAtShift(w, myIPs, server, fips, t0, j, o);
    }
  }

  /** Idempotence: when every matching floating IP already points to this
      server, the loop makes no call and succeeds. */
  lemma {:induction false} ReconcileConverged(w: World, myIPs: seq<IP>, server: Server,
                                              fips: seq<FloatingIP>, t0: seq<Event>)
    requires forall k :: 0 <= k < |fips| ==> Matches(fips[k], myIPs) ==> PointsTo(fips[k], server)
    ensures ReconcileSpec(w, myIPs, server, fips, t0) == RunOutcome(None, t0)
    decreases |fips|
  {
    if fips != [] {
      assert forall k :: 0 <= k < |fips[1..]| ==> fips[1..][k] == fips[k + 1];
      ReconcileConverged(w, myIPs, server, fips[1..], t0);
    }
  }

  /** After a successful loop every matching floating IP points to this
      server already or received an `Assign` call for it. */
  lemma ReconcileCovers(w: World, myIPs: seq<IP>, server: Server,
                        fips: seq<FloatingIP>, t0: seq<Event>)
    requires ReconcileSpec(w, myIPs, server, fips, t0).err.None?
    ensures forall k :: 0 <= k < |fips| && Matches(fips[k], myIPs) ==>
              PointsTo(fips[k], server) ||
              Assign(fips[k].id, server.id) in ReconcileSpec(w, myIPs, server, fips, t0).trace
  {
    ReconcileSucceeds(w, myIPs, server, fips, t0);
    PendingMembers(fips, myIPs, server);
    var p := Pending(fips, myIPs, server);
    AssignEventsShape(p, server);
    forall k | 0 <= k < |fips| && NeedsAssign(fips[k], myIPs, server)
      ensures Assign(fips[k].id, server.id) in ReconcileSpec(w, myIPs, server, fips, t0).trace
    {
      assert fips[k] in p;
      var i :| 0 <= i < |p| && p[i] == fips[k];
      assert AssignEvents(p, server)[i] == Assign(fips[k].id, server.id);
      assert (t0 + AssignEvents(p, server))[|t0| + i] == Assign(fips[k].id, server.id);
    }
  }

  /** The self lookup of lines 150-154 as written. The library answers a
      name that no server has with no server and no error; the source then
      reads the missing server's ID and the process dies of a nil pointer
      dereference. */
  datatype SelfLookup = Found(server: Server) | Fatal(err: RunError) | NilDereference

  function SelfLookupAsWritten(reply: Result<Option<Server>, string>): (r: SelfLookup)
    ensures reply.Failure? ==> r == Fatal(SelfLookupFailed(reply.error))
    ensures reply.Success? ==> (r.NilDereference? <==> reply.value.None?)
  {
    match reply
    case Failure(e) => Fatal(SelfLookupFailed(e))
    case Success(None) => NilDereference
    case Success(Some(server)) => Found(server)
  }

  /** The self lookup as evidently intended: a missing server is an error
      that names the node, like a failed lookup; otherwise it agrees with the
      code as written. */
  function SelfLookupChecked(nodeName: string, reply: Result<Option<Server>, string>): (r: Result<Server, RunError>)
    ensures r.Success? <==> reply.Success? && reply.value.Some?
    ensures reply == Success(None) ==> r == Failure(SelfNotFound(nodeName))
    ensures !SelfLookupAsWritten(reply).NilDereference? ==>
              match SelfLookupAsWritten(reply)
              case Found(s) => r == Success(s)
              case Fatal(e) => r == Failure(e)
              case NilDereference => false
  {
    match reply
    case Failure(e) => Failure(SelfLookupFailed(e))
    case Success(None) => Failure(SelfNotFound(nodeName))
    case Success(Some(server)) => Success(server)
  }

  /** The discrepancy: for a node name that no server has, the code as
      written dereferences a nil server, where the intended behaviour is an
      error naming the node. */
  lemma MissingServerDereferenced(nodeName: string)
    ensures SelfLookupAsWritten(Success(None)) == NilDereference
    ensures SelfLookupChecked(nodeName, Success(None)) == Failure(SelfNotFound(nodeName))
  {
  }

  /** The MASTER branch (lines 144-189) after the events in `trace`. */
  function FailoverSpec(w: World, nodeName: string, myIPs: seq<IP>, trace: seq<Event>): RunOutcome
  {
    var t1 := trace + [GetServerByName(nodeName)];
    match SelfLookupChecked(nodeName, w.serverByName(nodeName, trace))
    case Failure(e) => RunOutcome(Some(e), t1)
    case Success(server) =>
      var t2 := t1 + [ListFloatingIPs];
      match w.allFloatingIPs(t1)
      case Failure(e) => RunOutcome(Some(ListFailed(e)), t2)
      case Success(fips) => ReconcileSpec(w, myIPs, server, fips, t2)
  }

  /** The MASTER branch: look up this node, list the floating IPs, reconcile. */
  method Failover(w: World, nodeName: string, myIPs: seq<IP>, trace0: seq<Event>)
    returns (err: Option<RunError>, trace: seq<Event>)
    ensures RunOutcome(err, trace) == FailoverSpec(w, nodeName, myIPs, trace0)
  {
    var reply := w.serverByName(nodeName, trace0);
    trace := trace0 + [GetServerByName(nodeName)];
    var lookup := SelfLookupChecked(nodeName, reply);
    if lookup.Failure? {
      return Some(lookup.error), trace;
    }
    var server := lookup.value;
    var listed := w.allFloatingIPs(trace);
    trace := trace + [ListFloatingIPs];
    if listed.Failure? {
      return Some(ListFailed(listed.error)), trace;
    }
    err, trace := Reconcile(w, myIPs, server, listed.value, trace);
  }

  /** The MASTER branch looks itself up first and lists second; a failure of
      either ends it at once, before any `Assign`, and every later event is
      an `Assign` call. */
  lemma FailoverCallOrder(w: World, nodeName: string, myIPs: seq<IP>, t0: seq<Event>)
    ensures var o := FailoverSpec(w, nodeName, myIPs, t0);
      && |o.trace| > |t0| && o.trace[..|t0|] == t0 && o.trace[|t0|] == GetServerByName(nodeName)
      && (SelfLookupChecked(nodeName, w.serverByName(nodeName, t0)).Failure? ==>
            o.trace == t0 + [GetServerByName(nodeName)] && o.err.Some?)
      && (SelfLookupChecked(nodeName, w.serverByName(nodeName, t0)).Success? ==>
            && |o.trace| > |t0| + 1 && o.trace[|t0| + 1] == ListFloatingIPs
            && (forall i :: |t0| + 2 <= i < |o.trace| ==> o.trace[i].Assign?)
            && (w.allFloatingIPs(t0 + [GetServerByName(nodeName)]).Failure? ==>
                  && o.trace == t0 + [GetServerByName(nodeName), ListFloatingIPs]
                  && o.err == Some(ListFailed(w.allFloatingIPs(t0 + [GetServerByName(nodeName)]).error))))
      && (forall i :: |t0| <= i < |t0| + 2 && i < |o.trace| ==> !o.trace[i].Assign?)
      && (o.err.Some? ==> o.err.value.SelfLookupFailed? || o.err.value.SelfNotFound? ||
                          o.err.value.ListFailed? || o.err.value.AssignFailed?)
  {
    var o := FailoverSpec(w, nodeName, myIPs, t0);
    var t1 := t0 + [GetServerByName(nodeName)];
    var lookup := SelfLookupChecked(nodeName, w.serverByName(nodeName, t0));
    if lookup.Success? {
      var server := lookup.value;
      var t2 := t1 + [ListFloatingIPs];
      match w.allFloatingIPs(t1)
      case Failure(_) =>
      case Success(fips) =>
        var r := ReconcileSpec(w, myIPs, server, fips, t2);
        var batch: seq<FloatingIP>;
        if r.err.None? {
          ReconcileSucceeds(w, myIPs, server, fips, t2);
          batch := Pending(fips, myIPs, server);
          assert r.trace == t2 + AssignEvents(batch, server);
        } else {
          ReconcileStopsAtFirstFailure(w, myIPs, server, fips, t2);
          var j :| StoppedAt(w, myIPs, server, fips, t2, j, r);
          batch := Pending(fips[..j], myIPs, server) + [fips[j]];
          AssignEventsShape(Pending(fips[..j], myIPs, server), server);
          AssignEventsShape(batch, server);
          assert r.trace == t2 + AssignEvents(batch, server);
        }
        AssignEventsShape(batch, server);
        assert |t2| == |t0| + 2;
        forall i | |t0| + 2 <= i < |r.trace|
          ensures r.trace[i].Assign?
        {
          assert r.trace[i] == AssignEvents(batch, server)[i - |t2|];
        }
        assert r.trace[..|t0|] == t0;
    }
  }
}
