/** One breaker per registered service, and the isolation of the services. */
module Registry {
  import opened Common
  import opened CircuitBreaker
  import opened ServiceBreaker
  import BreakerHistory
  import CallSystem

  class CircuitBreakerRegistry {
    const settings: Settings
    const clock: MonotonicClock
    var breakers: map<string, ServiceCircuitBreaker>

    ghost predicate Valid()
      reads this, breakers.Values, clock
    {
      && breakers != map[]
      && (forall name <- breakers ::
            breakers[name].clock == clock && breakers[name].settings == settings && breakers[name].Valid())
      && (forall a, b :: a in breakers && b in breakers && a != b ==> breakers[a] != breakers[b])
    }

    /** What happens to one breaker, and time, leave the registry valid. */
    twostate lemma StaysValid(name: string)
      requires old(Valid()) && unchanged(this) && name in breakers
      requires breakers[name].Valid() && clock.now >= old(clock.now)
      requires forall other <- breakers :: other != name ==> unchanged(breakers[other])
      ensures Valid()
    {
    }

    /** Duplicate names share one breaker, as `dict.fromkeys` keeps the first. */
    constructor (serviceNames: seq<string>, settings: Settings, clock: MonotonicClock)
      requires serviceNames != [] && clock.now >= 0.0
      ensures Valid() && this.settings == settings && this.clock == clock
      ensures forall name :: name in breakers <==> name in serviceNames
      ensures forall name <- breakers :: fresh(breakers[name]) && breakers[name].history == BreakerHistory.Fresh
    {
      this.settings, this.clock := settings, clock;
      breakers := map[];
      new;
      for i := 0 to |serviceNames|
        invariant forall name :: name in breakers <==> name in serviceNames[..i]
        invariant forall name <- breakers ::
            && fresh(breakers[name]) && breakers[name].history == BreakerHistory.Fresh
            && breakers[name].clock == clock && breakers[name].settings == settings && breakers[name].Valid()
        invariant forall a, b :: a in breakers && b in breakers && a != b ==> breakers[a] != breakers[b]
      {
        if serviceNames[i] !in breakers {
          var breaker := new ServiceCircuitBreaker(settings, clock);
          breakers := breakers[serviceNames[i] := breaker];
        }
      }
      assert serviceNames[0] in breakers;
    }

    /** The code raises `ValueError` for an empty list of names. */
    static method Create(serviceNames: seq<string>, settings: Settings, clock: MonotonicClock)
      returns (r: Result<CircuitBreakerRegistry, string>)
      requires clock.now >= 0.0
      ensures r.Ok? <==> serviceNames != []
      ensures r.Ok? ==> r.value.Valid() && fresh(r.value)
                        && forall name :: name in r.value.breakers <==> name in serviceNames
    {
      if serviceNames == [] {
        return Err("At least one upstream service is required.");
      }
      var registry := new CircuitBreakerRegistry(serviceNames, settings, clock);
      return Ok(registry);
    }
  }

  // ---- Interleaved runs over all services --------------------------------------------

  datatype Op = At(service: string, step: CallSystem.Step) | ClockReaches(now: real)

  /** What the run of one service sees of a step of the whole gateway. */
  function Seen(op: Op, service: string): seq<CallSystem.Step> {
    match op
    case At(name, step) => if name == service then [step] else []
    case ClockReaches(now) => [CallSystem.TimePasses(now)]
  }

  function Project(ops: seq<Op>, service: string): seq<CallSystem.Step> {
    if ops == [] then [] else Project(ops[..|ops| - 1], service) + Seen(ops[|ops| - 1], service)
  }

  /** A call to a service that is not registered raises before it touches any breaker. */
  function Next(cfg: CallSystem.Config, r: map<string, CallSystem.System>, op: Op): map<string, CallSystem.System> {
    match op
    case At(name, step) => if name in r then r[name := CallSystem.Next(cfg, r[name], step)] else r
    case ClockReaches(now) => map name | name in r :: CallSystem.Next(cfg, r[name], CallSystem.TimePasses(now))
  }

  function Run(cfg: CallSystem.Config, services: set<string>, ops: seq<Op>): (r: map<string, CallSystem.System>)
    ensures r.Keys == services
  {
    if ops == [] then map name | name in services :: CallSystem.Idle
    else Next(cfg, Run(cfg, services, ops[..|ops| - 1]), ops[|ops| - 1])
  }

  /** In every interleaved run a service's breaker, calls and event log are those of a
      solo run on just its own steps, so no other service can influence them. */
  lemma {:induction false} ServicesAreIsolated(cfg: CallSystem.Config, services: set<string>, ops: seq<Op>,
                                               service: string)
    requires service in services
    ensures Run(cfg, services, ops)[service] == CallSystem.Run(cfg, Project(ops, service))
  {
    if ops != [] {
      var init, last := ops[..|ops| - 1], ops[|ops| - 1];
      ServicesAreIsolated(cfg, services, init, service);
      var steps, seen := Project(init, service), Seen(last, service);
      if seen == [] {
        assert steps + seen == steps;
      } else {
        CallSystem.RunSnoc(cfg, CallSystem.Idle, steps, seen[0]);
      }
    }
  }

  /** In every run over all services, a service's breaker was produced by some run of one
      breaker, and its last opened/recovered event tells whether it is CLOSED. */
  lemma EventLogTellsState(cfg: CallSystem.Config, services: set<string>, ops: seq<Op>, service: string)
    requires service in services
    ensures BreakerHistory.Reachable(cfg.breaker, Run(cfg, services, ops)[service].history)
    ensures BreakerHistory.EventsTellState(Run(cfg, services, ops)[service].history)
  {
    ServicesAreIsolated(cfg, services, ops, service);
    CallSystem.HistoriesAreRuns(cfg, Project(ops, service));
    BreakerHistory.ReachableInv(cfg.breaker, Run(cfg, services, ops)[service].history);
  }
}
