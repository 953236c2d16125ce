// The one default event set of class Benchmark (Benchmark.java).
module Benchmarks {
  import opened Common
  import opened Events
  import opened EventSets
  import opened Registration
  import opened Columns
  import opened Machines
  import opened Results
  import opened Agent

  class Benchmark {
    const agent: Measurement
    var defaultEventSet: int

    constructor (agent: Measurement)
      requires agent.Valid() && agent.View() == []
      ensures Valid() && this.agent == agent && defaultEventSet == -1
    {
      this.agent := agent;
      defaultEventSet := -1;
    }

    // A program that creates sets only by Init never uses a slot beyond slot 0, and the default set is the one
    // live set, if there is one.
    ghost predicate Valid()
      reads this, agent, agent.dataBlocks.Keys, agent.eventBlocks.Keys
    {
      && agent.Valid()
      && |agent.View()| <= 1
      && (defaultEventSet == -1 || defaultEventSet == 0)
      && (defaultEventSet == 0 <==> IsLive(agent.View(), 0))
    }

    // Destroys the previous set, then creates the new one. When the creation throws there is no default set.
    method Init(measurements: int, events: seq<string>, options: seq<int>, luck: Luck) returns (r: Created)
      requires Valid() && -0x4000_0000 <= measurements < 0x4000_0000
      modifies this, agent`slots, agent`logs, agent`dataBlocks, agent`eventBlocks
      ensures Valid()
      ensures r.Failed? ==> defaultEventSet == -1 && !IsLive(agent.View(), 0)
      ensures r.Id? ==>
        && measurements > 0 && r.id == 0 && defaultEventSet == 0
        && Collect(events, ResolutionBy(agent.lookup)).Complete?
        && agent.View() == [Some(NewSet(measurements, Collect(events, ResolutionBy(agent.lookup)).registry))]
        && IsNew(agent.View()[0].value, measurements, events, agent.lookup)
      // The outcome is that of a creation in an empty table, whatever was there before.
      ensures |old(agent.View())| == 1 ==>
        r == CreateOutcome([None], measurements, events, options, luck, ResolutionBy(agent.lookup))
      ensures |old(agent.View())| == 0 ==>
        r == CreateOutcome([], measurements, events, options, luck, ResolutionBy(agent.lookup))
    {
      DropDefault();
      r := agent.Create(measurements, events, options, luck);
      if r.Id? {
        defaultEventSet := r.id;
      }
    }

    // The first half of init.
    method DropDefault()
      requires Valid()
      modifies this, agent`slots, agent`dataBlocks, agent`eventBlocks
      ensures Valid() && defaultEventSet == -1
      ensures agent.View() == if old(agent.View()) == [] then [] else [None]
    {
      if defaultEventSet != -1 {
        var destroyed := agent.Destroy(defaultEventSet);
        assert destroyed.Done?;
        defaultEventSet := -1;
      }
    }

    method Start() returns (r: Outcome)
      requires Valid()
      modifies agent`slots, agent`logs, agent.dataBlocks.Keys, agent.platform`tick
      ensures Valid() && (r.Done? <==> defaultEventSet == 0)
      ensures AllInBounds(old(agent.State()), Action.Start, [defaultEventSet], agent.platform.readings)
      ensures agent.State() == Apply(old(agent.State()), Action.Start, [defaultEventSet], agent.platform.readings).0
    {
      ghost var before := agent.State();
      r := agent.Start([defaultEventSet]);
      OneIdKeepsShape(before, Action.Start, defaultEventSet, agent.platform.readings, agent.State(), r);
    }

    method Stop() returns (r: Outcome)
      requires Valid() && AllInBounds(agent.State(), Action.Stop, [defaultEventSet], agent.platform.readings)
      modifies agent`slots, agent`logs, agent.dataBlocks.Keys, agent.platform`tick
      ensures Valid() && (r.Done? <==> defaultEventSet == 0)
      ensures agent.State() == Apply(old(agent.State()), Action.Stop, [defaultEventSet], agent.platform.readings).0
    {
      ghost var before := agent.State();
      r := agent.Stop([defaultEventSet]);
      OneIdKeepsShape(before, Action.Stop, defaultEventSet, agent.platform.readings, agent.State(), r);
    }

    method Reset() returns (r: Outcome)
      requires Valid()
      modifies agent`slots, agent`logs, agent.dataBlocks.Keys, agent.platform`tick
      ensures Valid() && (r.Done? <==> defaultEventSet == 0)
      ensures AllInBounds(old(agent.State()), Action.Reset, [defaultEventSet], agent.platform.readings)
      ensures agent.State() == Apply(old(agent.State()), Action.Reset, [defaultEventSet], agent.platform.readings).0
    {
      ghost var before := agent.State();
      r := agent.Reset([defaultEventSet]);
      OneIdKeepsShape(before, Action.Reset, defaultEventSet, agent.platform.readings, agent.State(), r);
    }

    method GetResults() returns (r: Option<BenchmarkResultsImpl>)
      requires Valid()
      ensures r.Some? <==> defaultEventSet == 0
      ensures r.Some? ==> r.value.events == EventNames(agent.SetAt(0).events)
      ensures r.Some? ==> r.value.Rows() == EventSets.Results(agent.SetAt(0))
    {
      r := agent.GetResults(defaultEventSet);
    }
  }
}
