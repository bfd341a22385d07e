/** The once-only agent registration of scripts/register-agents.ts, one pass and any number of passes. */
module AgentRegistry {
  datatype Registration = Registration(agentId: string, registeredAt: int, network: string, txHash: string)

  /** What happens when an app is offered to the chain: the call returns an id and a hash, or throws. */
  datatype Answer = Registered(agentId: string, txHash: string, at: int) | Thrown(message: string)

  datatype Offer = Offer(name: string, answer: Answer)

  datatype Outcome = Outcome(app: string, success: bool)

  /** A successful registration call, as it happened. */
  datatype Event = Event(key: string, registration: Registration)

  function StateKey(network: string, name: string): string {
    network + ":" + name
  }

  lemma FirstColon(network: string, name: string)
    requires ':' !in network
    ensures StateKey(network, name)[|network|] == ':'
    ensures forall i :: 0 <= i < |network| ==> StateKey(network, name)[i] != ':'
  {
    forall i | 0 <= i < |network| ensures StateKey(network, name)[i] != ':' {
      assert network[i] in network;
    }
  }

  /** Keys are unambiguous because network names contain no colon. */
  lemma StateKeyInjective(network: string, name: string, network': string, name': string)
    requires ':' !in network && ':' !in network'
    requires StateKey(network, name) == StateKey(network', name')
    ensures network == network' && name == name'
  {
    var s, s' := StateKey(network, name), StateKey(network', name');
    FirstColon(network, name);
    FirstColon(network', name');
    assert s[..|network|] == network && s'[..|network'|] == network';
    assert s[|network| + 1..] == name && s'[|network'| + 1..] == name';
  }

  /** Events of one pass: no key twice and none that was saved before. */
  ghost predicate OnceOnly(file: map<string, Registration>, events: seq<Event>) {
    && (forall i :: 0 <= i < |events| ==> events[i].key !in file)
    && (forall i, j :: 0 <= i < j < |events| ==> events[i].key != events[j].key)
  }

  predicate Answers(e: Event, network: string, app: Offer) {
    && e.key == StateKey(network, app.name) && app.answer.Registered?
    && e.registration == Registration(app.answer.agentId, app.answer.at, network, app.answer.txHash)
  }

  ghost predicate FromApp(e: Event, network: string, apps: seq<Offer>) {
    exists i :: 0 <= i < |apps| && Answers(e, network, apps[i])
  }

  /** The contract of one pass. */
  ghost predicate PassStep(before: map<string, Registration>, after: map<string, Registration>, network: string,
                           apps: seq<Offer>, events: seq<Event>) {
    && OnceOnly(before, events)
    && AddedBy(before, after, events)
    && (forall i :: 0 <= i < |events| ==> FromApp(events[i], network, apps))
    && (forall i :: 0 <= i < |apps| && apps[i].answer.Registered? ==> StateKey(network, apps[i].name) in after)
  }

  /** The map after is the map before plus exactly the events. */
  ghost predicate AddedBy(before: map<string, Registration>, after: map<string, Registration>, events: seq<Event>) {
    && (forall k :: k in before ==> k in after && after[k] == before[k])
    && (forall i :: 0 <= i < |events| ==> events[i].key in after && after[events[i].key] == events[i].registration)
    && (forall k :: k in after ==> k in before || exists i :: 0 <= i < |events| && events[i].key == k)
  }

  /** What a pass saves for an app: the id and hash the chain answered with, the time of the answer,
      and the network, under network and name. */
  lemma NewEntry(before: map<string, Registration>, after: map<string, Registration>, network: string,
                 apps: seq<Offer>, events: seq<Event>, key: string)
    requires PassStep(before, after, network, apps, events) && key in after && key !in before
    ensures exists i :: 0 <= i < |apps| && key == network + ":" + apps[i].name
                        && match apps[i].answer
                           case Thrown(_) => false
                           case Registered(agentId, txHash, at) =>
                             && after[key].agentId == agentId && after[key].txHash == txHash
                             && after[key].registeredAt == at && after[key].network == network
  {
    var i :| 0 <= i < |events| && events[i].key == key;
    assert FromApp(events[i], network, apps);
  }

  class Registry {
    var file: map<string, Registration>

    constructor ()
      ensures file == map[]
    {
      file := map[];
    }

    /** registerAllApps on the apps whose agent is enabled: state is the map the loop ends with, which
        becomes the file unless writing it throws. */
    method RegisterAllApps(network: string, apps: seq<Offer>, saved: bool)
      returns (ok: bool, results: seq<Outcome>, state: map<string, Registration>, ghost events: seq<Event>)
      modifies this
      ensures PassStep(old(file), state, network, apps, events)
      ensures ResultsMatch(old(file), state, network, apps, results)
      ensures ok == saved && file == if saved then state else old(file)
    {
      state, results, events := RegisterEach(file, network, apps);
      if !saved { return false, results, state, events; }
      file := state;
      ok := true;
    }
  }

  /** The loop over the apps, on the loaded state. */
  method RegisterEach(before: map<string, Registration>, network: string, apps: seq<Offer>)
    returns (state: map<string, Registration>, results: seq<Outcome>, ghost events: seq<Event>)
    ensures PassStep(before, state, network, apps, events)
    ensures ResultsMatch(before, state, network, apps, results)
  {
    state, results, events := before, [], [];
    var k := 0;
    while k < |apps|
      invariant k <= |apps|
      invariant PassStep(before, state, network, apps[..k], events)
      invariant ResultsMatch(before, state, network, apps[..k], results)
    {
      var state', success;
      ghost var more;
      assert apps[..k + 1] == apps[..k] + [apps[k]];
      state', success, more := RegisterOne(before, state, network, apps[..k], events, apps[k]);
      ResultsSnoc(before, state, state', network, apps[..k], results, apps[k], success);
      state, results, events := state', results + [Outcome(apps[k].name, success)], events + more;
      k := k + 1;
    }
    assert apps[..k] == apps;
  }

  /** One result per app, in order: a success means the app is in the saved state afterwards, a
      failure that its call threw and that it was not saved before. */
  ghost predicate ResultsMatch(before: map<string, Registration>, state: map<string, Registration>, network: string,
                               apps: seq<Offer>, results: seq<Outcome>) {
    |results| == |apps| && forall i :: 0 <= i < |apps| ==> ResultMatches(before, state, network, apps[i], results[i])
  }

  predicate ResultMatches(before: map<string, Registration>, state: map<string, Registration>, network: string,
                          app: Offer, result: Outcome) {
    && result.app == app.name
    && (result.success ==> StateKey(network, app.name) in state)
    && (!result.success ==> app.answer.Thrown? && StateKey(network, app.name) !in before)
  }

  lemma ResultsSnoc(before: map<string, Registration>, state: map<string, Registration>,
                    state': map<string, Registration>,
                    network: string, apps: seq<Offer>, results: seq<Outcome>, app: Offer, success: bool)
    requires ResultsMatch(before, state, network, apps, results) && forall k :: k in state ==> k in state'
    requires ResultMatches(before, state', network, app, Outcome(app.name, success))
    ensures ResultsMatch(before, state', network, apps + [app], results + [Outcome(app.name, success)])
  {
  }

  /** The body of the loop: skip what is registered, otherwise try to register. */
  method RegisterOne(ghost file: map<string, Registration>, state: map<string, Registration>, network: string,
                     ghost apps: seq<Offer>, ghost events: seq<Event>, app: Offer)
    returns (state': map<string, Registration>, success: bool, ghost more: seq<Event>)
    requires PassStep(file, state, network, apps, events)
    ensures PassStep(file, state', network, apps + [app], events + more)
    ensures success <==> StateKey(network, app.name) in state || app.answer.Registered?
    ensures success ==> StateKey(network, app.name) in state'
    ensures !success ==> app.answer.Thrown? && StateKey(network, app.name) !in file
    ensures forall k :: k in state ==> k in state'
  {
    var key := StateKey(network, app.name);
    state', success, more := state, true, [];
    if key in state {
      PassUnchanged(file, state, network, apps, events, app);
    } else {
      match app.answer
      case Registered(agentId, txHash, at) =>
        var registration := Registration(agentId, at, network, txHash);
        state' := state[key := registration];
        more := [Event(key, registration)];
        PassRegisters(file, state, network, apps, events, app, more[0]);
      case Thrown(_) =>
        success := false;
        PassUnchanged(file, state, network, apps, events, app);
    }
  }

  lemma FromMoreApps(events: seq<Event>, network: string, apps: seq<Offer>, app: Offer)
    requires forall i :: 0 <= i < |events| ==> FromApp(events[i], network, apps)
    ensures forall i :: 0 <= i < |events| ==> FromApp(events[i], network, apps + [app])
  {
    forall i | 0 <= i < |events| ensures FromApp(events[i], network, apps + [app]) {
      var j :| 0 <= j < |apps| && Answers(events[i], network, apps[j]);
      assert (apps + [app])[j] == apps[j];
    }
  }

  lemma PassUnchanged(file: map<string, Registration>, state: map<string, Registration>, network: string,
                      apps: seq<Offer>,
                      events: seq<Event>, app: Offer)
    requires PassStep(file, state, network, apps, events)
    requires StateKey(network, app.name) in state || app.answer.Thrown?
    ensures PassStep(file, state, network, apps + [app], events + [])
  {
    FromMoreApps(events, network, apps, app);
    assert events + [] == events;
  }

  lemma PassRegisters(file: map<string, Registration>, state: map<string, Registration>, network: string,
                      apps: seq<Offer>,
                      events: seq<Event>, app: Offer, e: Event)
    requires PassStep(file, state, network, apps, events)
    requires Answers(e, network, app) && e.key !in state
    ensures PassStep(file, state[e.key := e.registration], network, apps + [app], events + [e])
  {
    FromMoreApps(events, network, apps, app);
    assert (apps + [app])[|apps|] == app;
    Extend(file, state, state[e.key := e.registration], events, [e]) by {
      assert [e][0] == e;
    }
  }

  // ---------- any number of passes ----------

  /** One pass: what it met, the map and the events its loop ended with, and whether that was saved. */
  datatype Pass = Pass(network: string, apps: seq<Offer>, state: map<string, Registration>,
                        events: seq<Event>, saved: bool)

  ghost predicate IsPass(file: map<string, Registration>, p: Pass) {
    PassStep(file, p.state, p.network, p.apps, p.events)
  }

  ghost predicate IsRun(files: seq<map<string, Registration>>, passes: seq<Pass>) {
    && |files| == |passes| + 1
    && (forall i :: 0 <= i < |passes| ==> IsPass(files[i], passes[i]))
    && (forall i :: 0 <= i < |passes| ==> files[i + 1] == if passes[i].saved then passes[i].state else files[i])
  }

  function AllEvents(passes: seq<Pass>): seq<Event> {
    if passes == [] then [] else AllEvents(passes[..|passes| - 1]) + passes[|passes| - 1].events
  }

  /** No pass registers an app and then fails to save. */
  predicate NothingLost(passes: seq<Pass>) {
    forall i :: 0 <= i < |passes| ==> passes[i].saved || passes[i].events == []
  }

  /** Over any run in which nothing is lost, with any failures of registrations, every key is
      registered at most once, saved entries are never changed or dropped, and the saved map is the
      first one plus the successes. */
  lemma {:induction false} RegisteredOnce(files: seq<map<string, Registration>>, passes: seq<Pass>)
    requires IsRun(files, passes) && NothingLost(passes)
    ensures OnceOnly(files[0], AllEvents(passes))
    ensures AddedBy(files[0], files[|passes|], AllEvents(passes))
    decreases |passes|
  {
    if passes != [] {
      var n := |passes| - 1;
      RegisteredOnce(files[..n + 1], passes[..n]);
      OnceMore(files[0], files[n], AllEvents(passes[..n]), passes[n]);
    }
  }

  lemma OnceMore(first: map<string, Registration>, file: map<string, Registration>, events: seq<Event>, p: Pass)
    requires OnceOnly(first, events) && AddedBy(first, file, events)
    requires IsPass(file, p) && (p.saved || p.events == [])
    ensures OnceOnly(first, events + p.events)
    ensures AddedBy(first, if p.saved then p.state else file, events + p.events)
  {
    if p.saved {
      Extend(first, file, p.state, events, p.events);
    } else {
      assert events + p.events == events;
    }
  }

  ghost predicate NoRepeat(earlier: seq<Event>, later: seq<Event>) {
    forall i, j :: 0 <= i < |earlier| && 0 <= j < |later| ==> earlier[i].key != later[j].key
  }

  /** No pass that could come next, after any part of the run, registers a key of the run again. */
  ghost predicate NeverAgain(files: seq<map<string, Registration>>, passes: seq<Pass>)
    requires |files| == |passes| + 1
  {
    forall k, q :: 0 <= k <= |passes| && IsPass(files[k], q) ==> NoRepeat(AllEvents(passes[..k]), q.events)
  }

  /** Registration is once-only against every possible next pass exactly when nothing is lost. */
  lemma NeverAgainExactly(files: seq<map<string, Registration>>, passes: seq<Pass>)
    requires IsRun(files, passes)
    ensures NeverAgain(files, passes) <==> NothingLost(passes)
  {
    if NothingLost(passes) {
      forall k, q | 0 <= k <= |passes| && IsPass(files[k], q) ensures NoRepeat(AllEvents(passes[..k]), q.events) {
        RegisteredOnce(files[..k + 1], passes[..k]);
      }
    }
    if NeverAgain(files, passes) {
      forall i | 0 <= i < |passes| ensures passes[i].saved || passes[i].events == [] {
        if !passes[i].saved && passes[i].events != [] {
          LostRepeats(files, passes, i);
        }
      }
    }
  }

  /** After a pass that lost registrations the very same pass can come again. */
  lemma LostRepeats(files: seq<map<string, Registration>>, passes: seq<Pass>, i: nat)
    requires IsRun(files, passes) && i < |passes| && !passes[i].saved && passes[i].events != []
    ensures IsPass(files[i + 1], passes[i])
    ensures !NoRepeat(AllEvents(passes[..i + 1]), passes[i].events)
  {
    var before := AllEvents(passes[..i]);
    assert passes[..i + 1][..i] == passes[..i];
    assert AllEvents(passes[..i + 1]) == before + passes[i].events;
    assert AllEvents(passes[..i + 1])[|before|] == passes[i].events[0];
  }

  /** The pass was on this network and was offered an app of this name whose call goes through. */
  ghost predicate SucceededIn(p: Pass, network: string, name: string) {
    p.network == network && exists i :: 0 <= i < |p.apps| && p.apps[i].name == name && p.apps[i].answer.Registered?
  }

  lemma PassSaves(file: map<string, Registration>, p: Pass, network: string, name: string)
    requires IsPass(file, p) && ':' !in network && ':' !in p.network
    ensures StateKey(network, name) in p.state <==> StateKey(network, name) in file || SucceededIn(p, network, name)
  {
    var key := StateKey(network, name);
    if key in p.state && key !in file {
      var i :| 0 <= i < |p.events| && p.events[i].key == key;
      assert FromApp(p.events[i], p.network, p.apps);
      var j :| 0 <= j < |p.apps| && Answers(p.events[i], p.network, p.apps[j]);
      StateKeyInjective(network, name, p.network, p.apps[j].name);
    }
  }

  /** Over any run, on networks without a colon: a name is saved for a network, and so skipped there,
      exactly when it was from the start or a saved pass on that very network registered an app of
      that very name. */
  lemma {:induction false} SavedExactly(files: seq<map<string, Registration>>, passes: seq<Pass>, network: string,
                                        name: string)
    requires IsRun(files, passes) && ':' !in network && forall m :: 0 <= m < |passes| ==> ':' !in passes[m].network
    ensures StateKey(network, name) in files[|passes|]
       <==> || StateKey(network, name) in files[0]
            || exists m :: 0 <= m < |passes| && passes[m].saved && SucceededIn(passes[m], network, name)
    decreases |passes|
  {
    if passes != [] {
      var n := |passes| - 1;
      SavedExactly(files[..n + 1], passes[..n], network, name);
      PassSaves(files[n], passes[n], network, name);
      assert forall m :: 0 <= m < n ==> passes[..n][m] == passes[m];
    }
  }

  lemma Extend(first: map<string, Registration>, mid: map<string, Registration>, last: map<string, Registration>,
               a: seq<Event>, b: seq<Event>)
    requires OnceOnly(first, a) && AddedBy(first, mid, a)
    requires OnceOnly(mid, b) && AddedBy(mid, last, b)
    ensures OnceOnly(first, a + b) && AddedBy(first, last, a + b)
  {
    var c := a + b;
    forall k | k in last ensures k in first || exists i :: 0 <= i < |c| && c[i].key == k {
      if k !in first {
        if k in mid {
          var i :| 0 <= i < |a| && a[i].key == k;
          assert c[i].key == k;
        } else {
          var i :| 0 <= i < |b| && b[i].key == k;
          assert c[|a| + i].key == k;
        }
      }
    }
  }
}
