/** Which worker accepts the next connections (`kg::net::basic_server_t::get_service`). */
module Scheduler {

  /** A worker and the number of clients it serves. */
  class Service {
    var clients: nat
  }

  ghost function Counts(services: seq<Service>): (counts: seq<nat>)
    reads services
    ensures |counts| == |services|
  {
    seq(|services|, i requires 0 <= i < |services| reads services => services[i].clients)
  }

  /** `k` is the first of the services 1.. with the least count. */
  ghost predicate FirstLeast(counts: seq<nat>, k: nat) {
    && 1 <= k < |counts|
    && (forall i :: 1 <= i < |counts| ==> counts[k] <= counts[i])
    && (forall i :: 1 <= i < k ==> counts[k] < counts[i])
  }

  /**
   * What a switch away from service `from` may choose: the first least loaded of the services 1.. if
   * one of them has fewer clients than `from`, and else service 0.
   */
  ghost predicate Switches(counts: seq<nat>, from: nat, to: nat)
    requires from < |counts|
  {
    if exists i :: 1 <= i < |counts| && counts[i] < counts[from] then FirstLeast(counts, to) else to == 0
  }

  /** The counts settle the choice. */
  lemma SwitchUnique(counts: seq<nat>, from: nat, a: nat, b: nat)
    requires from < |counts| && Switches(counts, from, a) && Switches(counts, from, b)
    ensures a == b
  {
  }

  /** The two fields a run carries from call to call. */
  datatype State = State(flag: nat, pos: nat)

  /** One call, made when the client counts are `counts`. */
  ghost predicate Step(poll: nat, counts: seq<nat>, s: State, s': State) {
    && s.pos < |counts|
    && if s.flag > 0 then s' == State(s.flag - 1, s.pos)
       else s'.flag == poll - 1 && Switches(counts, s.pos, s'.pos)
  }

  class BasicServer {
    const services: seq<Service>
    const poll: nat
    var flag: nat
    var pos: nat

    constructor (services: seq<Service>, poll: nat)
      requires services != []
      ensures Valid() && this.services == services && this.poll == if poll < 1 then 10 else poll
      ensures flag == this.poll && pos == 0
    {
      var p := if poll < 1 then 10 else poll;
      this.services, this.poll := services, p;
      flag, pos := p, 0;
    }

    ghost predicate Valid()
      reads this
    {
      services != [] && poll >= 1 && flag <= poll && pos < |services|
    }

    /** The service for the next connection. */
    method GetService() returns (service: Service)
      requires Valid()
      modifies this
      ensures Valid() && service == services[pos]
      ensures Step(poll, Counts(services), old(State(flag, pos)), State(flag, pos))
    {
      if flag > 0 {
        flag := flag - 1;
        return services[pos];
      }
      ghost var counts, from := Counts(services), pos;
      var min := services[pos].clients;
      pos := 0;
      for i := 1 to |services|
        invariant 0 <= pos < i
        invariant pos == 0 ==> min == counts[from] && forall j :: 1 <= j < i ==> min <= counts[j]
        invariant pos > 0 ==>
          && min == counts[pos] < counts[from]
          && (forall j :: 1 <= j < i ==> min <= counts[j])
          && (forall j :: 1 <= j < pos ==> min < counts[j])
      {
        var n := services[i].clients;
        if n < min {
          min := n;
          pos := i;
        }
      }
      flag := poll - 1;
      return services[pos];
    }
  }

  /**
   * A run of calls: `loads[t]` are the client counts when call `t` is made, `states[t + 1]` the state
   * it leaves, whose position is the service it returns.
   */
  ghost predicate IsRun(poll: nat, loads: seq<seq<nat>>, states: seq<State>) {
    && poll >= 1 && |states| == |loads| + 1 && states[0] == State(poll, 0)
    && forall t :: 0 <= t < |loads| ==> Step(poll, loads[t], states[t], states[t + 1])
  }

  /** Sets the client counts, as connections that come and go do. */
  method SetCounts(services: seq<Service>, counts: seq<nat>)
    requires |counts| == |services|
    requires forall i, j :: 0 <= i < j < |services| ==> services[i] != services[j]
    modifies services
    ensures Counts(services) == counts
  {
    for k := 0 to |services|
      invariant forall i :: 0 <= i < k ==> services[i].clients == counts[i]
    {
      services[k].clients := counts[k];
    }
  }

  /** The services taken are those at the positions the run goes through. */
  ghost predicate Takes(services: seq<Service>, taken: seq<Service>, states: seq<State>) {
    && |states| == |taken| + 1
    && forall t :: 1 <= t < |states| ==> states[t].pos < |services| && taken[t - 1] == services[states[t].pos]
  }

  lemma TakesNone(services: seq<Service>, s: State)
    ensures Takes(services, [], [s])
  {
  }

  lemma TakesNext(services: seq<Service>, taken: seq<Service>, states: seq<State>, s: State)
    requires Takes(services, taken, states) && s.pos < |services|
    ensures Takes(services, taken + [services[s.pos]], states + [s])
  {
  }

  /** Any run of calls on a new server is such a run, and returns the services at its positions. */
  method Replay(server: BasicServer, loads: seq<seq<nat>>) returns (taken: seq<Service>, ghost states: seq<State>)
    requires server.Valid() && server.flag == server.poll && server.pos == 0
    requires forall i, j :: 0 <= i < j < |server.services| ==> server.services[i] != server.services[j]
    requires forall counts <- loads :: |counts| == |server.services|
    modifies server, server.services
    ensures server.Valid() && IsRun(server.poll, loads, states)
    ensures Takes(server.services, taken, states)
  {
    hide Step, Takes;
    TakesNone(server.services, State(server.flag, server.pos));
    taken, states := [], [State(server.flag, server.pos)];
    for t := 0 to |loads|
      invariant server.Valid() && |states| == t + 1 && Takes(server.services, taken, states)
      invariant states[0] == State(server.poll, 0) && states[t] == State(server.flag, server.pos)
      invariant forall k :: 0 <= k < t ==> Step(server.poll, loads[k], states[k], states[k + 1])
    {
      assert loads[t] in loads;
      SetCounts(server.services, loads[t]);
      var service := server.GetService();
      TakesNext(server.services, taken, states, State(server.flag, server.pos));
      taken, states := taken + [service], states + [State(server.flag, server.pos)];
    }
  }

  /**
   * Calls come in blocks of `poll`, each block returning one service; the first block returns service
   * 0, and every later one what the switch chose on the counts at its first call.
   */
  lemma {:induction false} RunInBlocks(poll: nat, loads: seq<seq<nat>>, states: seq<State>, b: nat, r: nat)
    requires IsRun(poll, loads, states) && r < poll && b * poll + r < |loads|
    ensures states[b * poll + r + 1] == State(poll - 1 - r, states[b * poll + 1].pos)
    ensures b == 0 ==> states[b * poll + 1].pos == 0
    ensures b > 0 ==>
      && states[b * poll].pos == states[(b - 1) * poll + 1].pos
      && states[b * poll].pos < |loads[b * poll]|
      && Switches(loads[b * poll], states[b * poll].pos, states[b * poll + 1].pos)
    decreases b, r
  {
    var t := b * poll + r;
    assert Step(poll, loads[t], states[t], states[t + 1]);
    if r > 0 {
      RunInBlocks(poll, loads, states, b, r - 1);
    } else if b > 0 {
      assert (b - 1) * poll + (poll - 1) + 1 == b * poll;
      RunInBlocks(poll, loads, states, b - 1, poll - 1);
    }
  }

  /**
   * A switch takes a service nobody undercuts exactly when: some service other than 0 has no more
   * clients than service 0, if one of them has fewer than the current one; service 0 has no more than
   * the current one, if none has.
   */
  lemma LeastLoaded(counts: seq<nat>, from: nat, to: nat)
    requires from < |counts| && Switches(counts, from, to)
    ensures (forall i :: 0 <= i < |counts| ==> counts[to] <= counts[i]) <==>
      if exists i :: 1 <= i < |counts| && counts[i] < counts[from]
      then exists i :: 1 <= i < |counts| && counts[i] <= counts[0]
      else counts[0] <= counts[from]
  {
  }

  /** From service 0 the switch is always to a least loaded service. */
  lemma LeastLoadedFromZero(counts: seq<nat>, to: nat)
    requires counts != [] && Switches(counts, 0, to)
    ensures forall i :: 0 <= i < |counts| ==> counts[to] <= counts[i]
  {
  }

  /** An idle service 1 is left for a busy service 0. */
  lemma SwitchToBusy(to: nat)
    requires Switches([5, 0, 3], 1, to)
    ensures to == 0
  {
  }
}
