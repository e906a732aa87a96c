/** The service object itself: a map of mutable circuits updated in place
    (src/datasources/circuit-breaker/circuit-breaker.service.ts). Each method is tied to the
    transition of CircuitBreakerModel on the named circuit, with every other circuit unchanged. */
module CircuitBreakerService {
  import opened Wrappers
  import opened CircuitBreakerModel

  class Circuit {
    const name: string
    var state: CircuitState
    var failureCount: nat
    var consecutiveSuccesses: nat
    var halfOpenInFlight: nat
    var lastFailureTime: Option<int>
    var lastActivityTime: Option<int>
    var nextAttemptTime: Option<int>

    constructor (name: string)
      ensures this.name == name && View() == REGISTERED
    {
      this.name := name;
      state := CLOSED;
      failureCount, consecutiveSuccesses, halfOpenInFlight := 0, 0, 0;
      lastFailureTime, lastActivityTime, nextAttemptTime := None, None, None;
    }

    ghost function View(): Metrics
      reads this
    {
      Metrics(state, failureCount, consecutiveSuccesses, halfOpenInFlight,
              lastFailureTime, lastActivityTime, nextAttemptTime)
    }
  }

  class CircuitBreakerService {
    const config: Config
    var circuits: map<string, Circuit>

    ghost predicate Valid()
      reads this, circuits.Values
    {
      forall name :: name in circuits ==> circuits[name].name == name
    }

    ghost function View(): map<string, Metrics>
      reads this, circuits.Values
    {
      map name | name in circuits :: circuits[name].View()
    }

    constructor (config: Config)
      ensures Valid() && View() == map[] && this.config == config
    {
      this.config := config;
      circuits := map[];
    }

    method CanProceed(name: string, now: int) returns (admitted: bool)
      requires Valid()
      modifies circuits.Values
      ensures Valid() && circuits == old(circuits)
      ensures var a := CircuitBreakerModel.CanProceed(config, Lookup(old(View()), name), now);
              admitted == a.admitted && View() == Replace(old(View()), name, a.circuit)
    {
      if !config.enabled || name !in circuits {
        return true;
      }
      var circuit := circuits[name];
      if circuit.state == OPEN {
        admitted := CanProceedInOpenState(circuit, now);
      } else if circuit.state == HALF_OPEN {
        admitted := CanProceedInHalfOpenState(circuit);
      } else {
        admitted := true;
      }
    }

    method CanProceedInOpenState(circuit: Circuit, now: int) returns (admitted: bool)
      modifies circuit
      ensures Admission(admitted, Some(circuit.View())) == ProceedInOpen(config, old(circuit.View()), now)
    {
      if Truthy(circuit.nextAttemptTime) && now >= circuit.nextAttemptTime.value {
        circuit.consecutiveSuccesses := 0;
        circuit.failureCount := 0;
        circuit.halfOpenInFlight := 0;
        circuit.state := HALF_OPEN;
        admitted := CanProceedInHalfOpenState(circuit);
      } else {
        admitted := false;
      }
    }

    method CanProceedInHalfOpenState(circuit: Circuit) returns (admitted: bool)
      modifies circuit
      ensures Admission(admitted, Some(circuit.View())) == ProceedInHalfOpen(config, old(circuit.View()))
    {
      var maxInFlight := GetEffectiveFailureThreshold(circuit);
      if circuit.halfOpenInFlight < maxInFlight {
        circuit.halfOpenInFlight := circuit.halfOpenInFlight + 1;
        return true;
      }
      return false;
    }

    method GetEffectiveFailureThreshold(circuit: Circuit) returns (limit: nat)
      ensures limit == EffectiveFailureThreshold(config, circuit.View())
    {
      if circuit.state == HALF_OPEN {
        return HalfOpenLimit(config);
      }
      return config.threshold;
    }

    method RecordSuccess(name: string, now: int)
      requires Valid()
      modifies this`circuits, circuits.Values
      ensures Valid() && circuits.Values <= old(circuits.Values)
      ensures View() == Replace(old(View()), name,
                          CircuitBreakerModel.RecordSuccess(config, Lookup(old(View()), name), now))
    {
      if !config.enabled || name !in circuits {
        return;
      }
      var circuit := circuits[name];
      circuit.lastActivityTime := Some(now);
      if circuit.state == HALF_OPEN {
        ReleaseHalfOpenProbe(circuit);
        circuit.consecutiveSuccesses := circuit.consecutiveSuccesses + 1;
        if circuit.consecutiveSuccesses >= config.threshold {
          circuits := circuits - {circuit.name};
        }
      }
    }

    method ReleaseHalfOpenProbe(circuit: Circuit)
      modifies circuit
      ensures circuit.View() == ReleaseProbe(old(circuit.View()))
    {
      circuit.halfOpenInFlight := if circuit.halfOpenInFlight - 1 < 0 then 0 else circuit.halfOpenInFlight - 1;
    }

    method GetOrRegisterCircuit(name: string) returns (circuit: Circuit)
      requires Valid()
      modifies this`circuits
      ensures Valid() && name in circuits && circuits[name] == circuit
      ensures name in old(circuits) ==> circuits == old(circuits)
      ensures name !in old(circuits) ==>
                fresh(circuit) && circuit.View() == REGISTERED && circuits == old(circuits)[name := circuit]
      ensures View() == if name in old(circuits) then old(View()) else old(View())[name := REGISTERED]
    {
      if name in circuits {
        return circuits[name];
      }
      circuit := new Circuit(name);
      circuits := circuits[name := circuit];
    }

    method RecordFailure(name: string, now: int)
      requires Valid()
      modifies this`circuits, circuits.Values
      ensures Valid() && fresh(circuits.Values - old(circuits.Values))
      ensures View() == if config.enabled
                        then Replace(old(View()), name,
                               CircuitBreakerModel.RecordFailure(config, Lookup(old(View()), name), now))
                        else old(View())
    {
      if !config.enabled {
        return;
      }
      var circuit := GetOrRegisterCircuit(name);
      RecordFailureIn(name, now);
    }

    /** The rest of recordFailure, once the circuit is registered. */
    method RecordFailureIn(name: string, now: int)
      requires Valid() && config.enabled && name in circuits
      modifies circuits[name]
      ensures Valid() && circuits == old(circuits)
      ensures View() == Replace(old(View()), name,
                          CircuitBreakerModel.RecordFailure(config, Some(old(View())[name]), now))
    {
      if circuits[name].state != OPEN {
        RecordFailureOf(circuits[name], now);
      }
    }

    method RecordFailureOf(circuit: Circuit, now: int)
      requires config.enabled && circuit.state != OPEN
      modifies circuit
      ensures Some(circuit.View()) ==
                CircuitBreakerModel.RecordFailure(config, Some(old(circuit.View())), now)
    {
      if circuit.state == HALF_OPEN {
        ReleaseHalfOpenProbe(circuit);
      } else {
        DiscardOldFailuresOf(circuit, now);
      }
      circuit.failureCount := circuit.failureCount + 1;
      circuit.lastFailureTime := Some(now);
      circuit.lastActivityTime := Some(now);
      circuit.consecutiveSuccesses := 0;
      var effectiveThreshold := GetEffectiveFailureThreshold(circuit);
      if circuit.failureCount >= effectiveThreshold {
        circuit.state := OPEN;
        circuit.halfOpenInFlight := 0;
        circuit.nextAttemptTime := Some(now + config.timeout);
      }
    }

    method DiscardOldFailuresOf(circuit: Circuit, now: int)
      modifies circuit
      ensures circuit.View() == DiscardOldFailures(config, old(circuit.View()), now)
    {
      if Truthy(circuit.lastFailureTime) && now - circuit.lastFailureTime.value > config.rollingWindow {
        circuit.failureCount := 0;
      }
    }

    method Delete(name: string)
      requires Valid()
      modifies this`circuits
      ensures Valid() && circuits.Values <= old(circuits.Values)
      ensures View() == old(View()) - {name}
    {
      circuits := circuits - {name};
    }

    /** The circuits the periodic cleanup keeps. */
    ghost predicate Kept(name: string, now: int)
      reads this, circuits.Values
    {
      name in circuits && !IsStale(config, circuits[name].View(), now)
    }

    /** One pass over the map, deleting while it iterates. */
    method CleanupStaleCircuits(now: int) returns (removed: nat)
      requires Valid()
      modifies this`circuits
      ensures Valid()
      ensures circuits == map name | name in old(circuits) && old(Kept(name, now)) :: old(circuits)[name]
      ensures removed == |old(circuits)| - |circuits|
    {
      removed := 0;
      var all := circuits;
      var pending := all.Keys;
      while pending != {}
        invariant pending <= circuits.Keys <= all.Keys
        invariant forall name :: name in circuits ==> circuits[name] == all[name]
        invariant forall name :: name in all && name !in pending ==>
          (name in circuits <==> !IsStale(config, all[name].View(), now))
        invariant removed == |all.Keys| - |circuits.Keys|
        decreases |pending|
      {
        var name :| name in pending;
        pending := pending - {name};
        var stale := IsStaleCircuit(circuits[name], now);
        if stale {
          ghost var before := circuits.Keys;
          circuits := circuits - {name};
          assert circuits.Keys == before - {name};
          removed := removed + 1;
        }
      }
    }

    method IsStaleCircuit(circuit: Circuit, now: int) returns (stale: bool)
      ensures stale == IsStale(config, circuit.View(), now)
    {
      if !Truthy(circuit.lastActivityTime) {
        return true;
      }
      return now - circuit.lastActivityTime.value > 10 * config.rollingWindow;
    }
  }
}
