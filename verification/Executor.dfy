/** Mapping over a thread pool: whatever order the jobs finish in, the results stand in the order of the jobs. */
module Executor {
  import opened Wrappers

  // ----- the pool, as steps of its jobs -----

  /** Which jobs have not finished, and the messages sent so far. */
  datatype State<R> = State(pending: set<nat>, channel: seq<(nat, R)>)

  /** A job finishes and sends its result, or dies without sending. */
  datatype Event = Finish(job: nat) | Die(job: nat)

  ghost function AllJobs(numJobs: nat): (r: set<nat>)
    ensures forall i :: i in r <==> 0 <= i < numJobs
  {
    if numJobs == 0 then {} else AllJobs(numJobs - 1) + {numJobs - 1}
  }

  ghost function Start<R>(numJobs: nat): State<R> {
    State(AllJobs(numJobs), [])
  }

  ghost function Step<J, R>(f: J -> R, jobs: seq<J>, s: State<R>, e: Event): State<R>
    requires e.job < |jobs|
  {
    State(s.pending - {e.job}, if e.Finish? then s.channel + [(e.job, f(jobs[e.job]))] else s.channel)
  }

  /** Each event is of a job still pending when it happens. */
  ghost predicate Runs<J, R>(f: J -> R, jobs: seq<J>, s: State<R>, events: seq<Event>)
    decreases |events|
  {
    events == [] ||
    (events[0].job < |jobs| && events[0].job in s.pending && Runs(f, jobs, Step(f, jobs, s, events[0]), events[1..]))
  }

  ghost function End<J, R>(f: J -> R, jobs: seq<J>, s: State<R>, events: seq<Event>): State<R>
    requires Runs(f, jobs, s, events)
    decreases |events|
  {
    if events == [] then s else End(f, jobs, Step(f, jobs, s, events[0]), events[1..])
  }

  // ----- gathering -----

  /** The last message for position `i`. */
  ghost function LastFor<R>(messages: seq<(nat, R)>, i: nat): Option<R> {
    if messages == [] then None
    else
      var last := messages[|messages| - 1];
      if last.0 == i then Some(last.1) else LastFor(messages[..|messages| - 1], i)
  }

  /** What the gathered vector must be: complete and in place, or an error. */
  ghost function Gathered<R>(numJobs: nat, messages: seq<(nat, R)>): Result<seq<R>, string> {
    if AllIn(numJobs, messages)
    then Ok(seq(numJobs, i requires 0 <= i < numJobs && AllIn(numJobs, messages) => LastFor(messages, i).value))
    else Err("At least one of the scheduled jobs failed.")
  }

  ghost predicate AllIn<R>(numJobs: nat, messages: seq<(nat, R)>) {
    forall i :: 0 <= i < numJobs ==> LastFor(messages, i).Some?
  }

  lemma GatheredIs<R>(numJobs: nat, messages: seq<(nat, R)>, results: seq<R>)
    requires |results| == numJobs && forall i :: 0 <= i < numJobs ==> LastFor(messages, i) == Some(results[i])
    ensures Gathered(numJobs, messages) == Ok(results)
  {
    hide LastFor;
    assert AllIn(numJobs, messages);
    assert Gathered(numJobs, messages).value == results;
  }

  /** The placeholders that are filled. */
  ghost function Present<R>(slots: seq<Option<R>>): seq<R> {
    if slots == [] then []
    else Present(slots[..|slots| - 1]) + match slots[|slots| - 1] case Some(v) => [v] case None => []
  }

  /** Flattening loses a length for every hole, and shifts nothing when there is none. */
  lemma {:induction false} PresentIs<R>(slots: seq<Option<R>>)
    ensures |Present(slots)| <= |slots|
    ensures |Present(slots)| == |slots| <==> forall i :: 0 <= i < |slots| ==> slots[i].Some?
    ensures |Present(slots)| == |slots| ==> forall i :: 0 <= i < |slots| ==> slots[i] == Some(Present(slots)[i])
  {
    if slots != [] {
      var init := slots[..|slots| - 1];
      PresentIs(init);
      assert forall i :: 0 <= i < |init| ==> init[i] == slots[i];
    }
  }

  method Gather<R>(numJobs: nat, messages: seq<(nat, R)>) returns (r: Result<seq<R>, string>)
    requires forall m :: m in messages ==> m.0 < numJobs
    ensures r == Gathered(numJobs, messages)
  {
    var slots := new Option<R>[numJobs](_ => None);
    for m := 0 to |messages|
      invariant forall i :: 0 <= i < numJobs ==> slots[i] == LastFor(messages[..m], i)
    {
      assert messages[m] in messages && messages[..m + 1][..m] == messages[..m];
      slots[messages[m].0] := Some(messages[m].1);
    }
    assert messages[..|messages|] == messages;
    var results: seq<R> := [];
    for i := 0 to numJobs
      invariant results == Present(slots[..i])
    {
      assert slots[..i + 1][..i] == slots[..i];
      if slots[i].Some? {
        results := results + [slots[i].value];
      }
    }
    assert slots[..numJobs] == slots[..];
    PresentIs(slots[..]);
    if |results| == numJobs {
      GatheredIs(numJobs, messages, results);
    } else {
      assert exists i :: 0 <= i < numJobs && slots[i].None?;
    }
    if |results| != numJobs {
      return Err("At least one of the scheduled jobs failed.");
    }
    r := Ok(results);
  }

  // ----- every run -----

  /** Position `i` holds its own job's result once that job is neither pending nor lost. */
  ghost predicate InPlace<J, R>(f: J -> R, jobs: seq<J>, s: State<R>, lost: set<nat>) {
    && (forall m :: m in s.channel ==> m.0 < |jobs|)
    && (forall i :: i in s.pending ==> i < |jobs| && i !in lost)
    && (forall i: nat :: i < |jobs| ==>
          LastFor(s.channel, i) == if i in s.pending || i in lost then None else Some(f(jobs[i])))
  }

  ghost function Lost(events: seq<Event>): set<nat> {
    set e | e in events && e.Die? :: e.job
  }

  lemma StepInPlace<J, R>(f: J -> R, jobs: seq<J>, s: State<R>, lost: set<nat>, e: Event)
    requires InPlace(f, jobs, s, lost) && e.job in s.pending
    ensures InPlace(f, jobs, Step(f, jobs, s, e), if e.Die? then lost + {e.job} else lost)
  {
    var s' := Step(f, jobs, s, e);
    if e.Finish? {
      assert s'.channel[..|s.channel|] == s.channel;
    }
  }

  lemma {:induction false} RunInPlace<J, R>(f: J -> R, jobs: seq<J>, s: State<R>, lost: set<nat>, events: seq<Event>)
    requires InPlace(f, jobs, s, lost) && Runs(f, jobs, s, events)
    ensures InPlace(f, jobs, End(f, jobs, s, events), lost + Lost(events))
    decreases |events|
  {
    if events == [] {
      assert lost + Lost(events) == lost;
    } else {
      var e, rest := events[0], events[1..];
      var lost' := if e.Die? then lost + {e.job} else lost;
      StepInPlace(f, jobs, s, lost, e);
      RunInPlace(f, jobs, Step(f, jobs, s, e), lost', rest);
      assert events == [e] + rest;
      assert lost' + Lost(rest) == lost + Lost(events);
    }
  }

  /** In every run that empties the pool, gathering gives the sequential map; with a job lost, an error. */
  lemma PoolMatchesSequential<J, R>(f: J -> R, jobs: seq<J>, events: seq<Event>)
    requires Runs(f, jobs, Start<R>(|jobs|), events) && End(f, jobs, Start<R>(|jobs|), events).pending == {}
    ensures var channel := End(f, jobs, Start<R>(|jobs|), events).channel;
            && (forall m :: m in channel ==> m.0 < |jobs|)
            && (Lost(events) == {} ==> Gathered(|jobs|, channel) == Ok(seq(|jobs|, i requires 0 <= i < |jobs| => f(jobs[i]))))
            && (Lost(events) != {} ==> Gathered(|jobs|, channel).Err?)
  {
    hide LastFor, Runs, End;
    var s := Start<R>(|jobs|);
    StartInPlace(f, jobs);
    RunInPlace(f, jobs, s, {}, events);
    var channel := End(f, jobs, s, events).channel;
    assert {} + Lost(events) == Lost(events);
    if Lost(events) == {} {
      GatheredIs(|jobs|, channel, seq(|jobs|, i requires 0 <= i < |jobs| => f(jobs[i])));
    } else {
      LostAreJobs(f, jobs, s, events);
      var i :| i in Lost(events);
      assert LastFor(channel, i) == None;
      assert !AllIn(|jobs|, channel);
    }
  }

  lemma StartInPlace<J, R>(f: J -> R, jobs: seq<J>)
    ensures InPlace(f, jobs, Start<R>(|jobs|), {})
  {
  }

  lemma {:induction false} LostAreJobs<J, R>(f: J -> R, jobs: seq<J>, s: State<R>, events: seq<Event>)
    requires Runs(f, jobs, s, events)
    ensures forall i :: i in Lost(events) ==> i < |jobs|
    decreases |events|
  {
    if events != [] {
      LostAreJobs(f, jobs, Step(f, jobs, s, events[0]), events[1..]);
      assert events == [events[0]] + events[1..];
      assert forall i :: i in Lost(events) ==> i in Lost(events[1..]) || i == events[0].job;
    }
  }
}
