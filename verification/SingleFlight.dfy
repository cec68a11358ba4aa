/** Client initialisation (`ensureClientInitialized` in src/database.class.ts): any number of
    concurrent callers share one call of the client factory. The code between two awaits runs
    undisturbed, so it is one step; the steps of different callers interleave in any order. */
module SingleFlight {
  datatype Slot = Free | Flight(id: nat)
  // A factory promise is pending, gave a client, resolved without one, or was rejected.
  datatype Outcome = Pending | Succeeded | Empty | Failed
  datatype Caller = Waiting(id: nat) | Owning(id: nat) | Returned | Threw

  // `client` and `slot` are the fields of the database; `flights` are the factory calls so far
  // and `callers` where each caller stands.
  datatype State = State(client: bool, slot: Slot, hasFactory: bool, flights: seq<Outcome>, callers: map<nat, Caller>)

  datatype Step = Call(c: nat) | Settle(outcome: Outcome, id: nat) | Resume(c: nat)

  predicate Enabled(s: State, step: Step) {
    match step
    case Call(c) => c !in s.callers
    case Settle(outcome, id) => outcome != Pending && id < |s.flights| && s.flights[id] == Pending
    case Resume(c) =>
      c in s.callers && (s.callers[c].Waiting? || s.callers[c].Owning?)
      && s.callers[c].id < |s.flights| && s.flights[s.callers[c].id] != Pending
  }

  // A caller runs to its first await or to its end.
  function StartCall(s: State, c: nat): State {
    if s.client then s.(callers := s.callers[c := Returned])
    else if s.slot.Flight? then s.(callers := s.callers[c := Waiting(s.slot.id)])
    else if !s.hasFactory then s.(callers := s.callers[c := Threw])
    else s.(slot := Flight(|s.flights|), flights := s.flights + [Pending],
        callers := s.callers[c := Owning(|s.flights|)])
  }

  // The factory promise settles; what it resolves to, if it resolves, becomes the client.
  function SettleFlight(s: State, outcome: Outcome, id: nat): State
    requires id < |s.flights|
  {
    s.(flights := s.flights[id := outcome], client := if outcome.Failed? then s.client else outcome.Succeeded?)
  }

  // A caller continues after its await; the owner clears the slot on the way out.
  function ResumeCaller(s: State, c: nat): State
    requires Enabled(s, Resume(c))
  {
    var me := s.callers[c];
    var end := if s.flights[me.id] == Failed then Threw else Returned;
    s.(slot := if me.Owning? then Free else s.slot, callers := s.callers[c := end])
  }

  function Apply(s: State, step: Step): State
    requires Enabled(s, step)
  {
    match step
    case Call(c) => StartCall(s, c)
    case Settle(outcome, id) => SettleFlight(s, outcome, id)
    case Resume(c) => ResumeCaller(s, c)
  }

  // A database starts with or without a client, and with or without a factory.
  ghost predicate Initial(s: State) {
    s.slot == Free && s.flights == [] && s.callers == map[]
  }

  ghost predicate Interleaving(ss: seq<State>, steps: seq<Step>) {
    && |ss| == |steps| + 1
    && Initial(ss[0])
    && forall i | 0 <= i < |steps| :: Enabled(ss[i], steps[i]) && ss[i + 1] == Apply(ss[i], steps[i])
  }

  // What every reachable state satisfies; `given` tells whether a client was there from the start.
  ghost predicate Inv(s: State, given: bool) {
    && (given ==> s.flights == [])
    && (s.client <==> given || (|s.flights| > 0 && s.flights[|s.flights| - 1] == Succeeded))
    && (forall i | 0 <= i < |s.flights| - 1 :: s.flights[i] == Failed || s.flights[i] == Empty)
    && (s.slot.Flight?
        ==> s.slot.id == |s.flights| - 1 && exists c :: c in s.callers && s.callers[c] == Owning(s.slot.id))
    && (s.slot.Free? ==> forall i | 0 <= i < |s.flights| :: s.flights[i] != Pending)
    && (forall c | c in s.callers && s.callers[c].Owning? :: s.slot == Flight(s.callers[c].id))
    && (forall c, d | c in s.callers && d in s.callers && s.callers[c].Owning? && s.callers[d].Owning? :: c == d)
    && (forall c | c in s.callers && s.callers[c].Waiting? :: s.callers[c].id < |s.flights|)
    && (forall c | c in s.callers && s.callers[c].Returned? :: s.client || Empty in s.flights)
  }

  lemma CallInv(s: State, c: nat, given: bool)
    requires Inv(s, given) && c !in s.callers
    ensures Inv(StartCall(s, c), given)
  {
    var s' := StartCall(s, c);
    if s.slot.Flight? {
      var o :| o in s.callers && s.callers[o] == Owning(s.slot.id);
      assert s'.callers[o] == Owning(s'.slot.id);
    } else if !s.client && s.hasFactory {
      assert s'.callers[c] == Owning(s'.slot.id);
    }
  }

  lemma SettleInv(s: State, outcome: Outcome, id: nat, given: bool)
    requires Inv(s, given) && Enabled(s, Settle(outcome, id))
    ensures Inv(SettleFlight(s, outcome, id), given)
  {
    EmptyStays(s.flights, id, outcome);
  }

  lemma EmptyStays(flights: seq<Outcome>, id: nat, outcome: Outcome)
    requires id < |flights| && flights[id] == Pending
    ensures Empty in flights ==> Empty in flights[id := outcome]
  {
    if Empty in flights {
      var k :| 0 <= k < |flights| && flights[k] == Empty;
      assert flights[id := outcome][k] == Empty;
    }
  }

  lemma ResumeInv(s: State, c: nat, given: bool)
    requires Inv(s, given) && Enabled(s, Resume(c))
    ensures Inv(ResumeCaller(s, c), given)
  {
    var s' := ResumeCaller(s, c);
    if s'.slot.Flight? {
      var o :| o in s.callers && s.callers[o] == Owning(s.slot.id);
      assert s'.callers[o] == Owning(s'.slot.id);
    }
  }

  lemma StepInv(s: State, step: Step, given: bool)
    requires Inv(s, given) && Enabled(s, step)
    ensures Inv(Apply(s, step), given)
  {
    match step
    case Call(c) => CallInv(s, c, given);
    case Settle(outcome, id) => SettleInv(s, outcome, id, given);
    case Resume(c) => ResumeInv(s, c, given);
  }

  lemma {:induction false} RunInv(ss: seq<State>, steps: seq<Step>, i: nat)
    requires Interleaving(ss, steps) && i < |ss|
    ensures Inv(ss[i], ss[0].client)
  {
    if i > 0 {
      RunInv(ss, steps, i - 1);
      StepInv(ss[i - 1], steps[i - 1], ss[0].client);
    }
  }

  /** In every interleaving at most one factory call is in flight, no call before the last gave a
      client, and none was made if there was a client from the start. */
  lemma AtMostOneInFlight(ss: seq<State>, steps: seq<Step>, i: nat)
    requires Interleaving(ss, steps) && i < |ss|
    ensures forall f, g | 0 <= f < |ss[i].flights| && 0 <= g < |ss[i].flights| && ss[i].flights[f] == Pending
        && ss[i].flights[g] == Pending :: f == g
    ensures forall f | 0 <= f < |ss[i].flights| - 1 :: ss[i].flights[f] == Failed || ss[i].flights[f] == Empty
    ensures ss[0].client ==> ss[i].flights == []
  {
    RunInv(ss, steps, i);
  }

  /** Once the client is set it stays set and no factory call ever starts again. */
  lemma {:induction false} NoneAfterSuccess(ss: seq<State>, steps: seq<Step>, i: nat, j: nat)
    requires Interleaving(ss, steps) && i <= j < |ss| && ss[i].client
    ensures ss[j].client && |ss[j].flights| == |ss[i].flights|
    decreases j
  {
    if i < j {
      NoneAfterSuccess(ss, steps, i, j - 1);
      RunInv(ss, steps, j - 1);
    }
  }

  /** A caller that returned normally finds the client set, then and ever after, unless some
      factory call resolved without a client. */
  lemma ReturnedFindsClient(ss: seq<State>, steps: seq<Step>, i: nat, j: nat, c: nat)
    requires Interleaving(ss, steps) && i <= j < |ss| && c in ss[i].callers && ss[i].callers[c] == Returned
    ensures ss[j].client || Empty in ss[i].flights
  {
    RunInv(ss, steps, i);
    if ss[i].client {
      NoneAfterSuccess(ss, steps, i, j);
    }
  }

  /** That exception is real: after a call without a client its caller returns and finds none. */
  lemma EmptyCallReturns(c: nat)
    ensures var s := State(false, Free, true, [], map[]);
      var called := Apply(s, Call(c));
      && Initial(s) && Enabled(s, Call(c)) && Enabled(called, Settle(Empty, 0))
      && var settled := Apply(called, Settle(Empty, 0));
        && Enabled(settled, Resume(c))
        && Apply(settled, Resume(c)).callers[c] == Returned && !Apply(settled, Resume(c)).client
  {
  }

  /** A caller that is not answered at once joins the latest factory call, and that call is the
      one in the slot. */
  lemma JoinsLatestCall(ss: seq<State>, steps: seq<Step>, i: nat, c: nat)
    requires Interleaving(ss, steps) && i < |steps| && steps[i] == Call(c)
    ensures var s := ss[i + 1];
      && c in s.callers
      && (s.callers[c].Waiting? || s.callers[c].Owning? ==>
          s.callers[c].id == |s.flights| - 1 && s.slot == Flight(s.callers[c].id))
      && (s.callers[c].Owning? <==> |s.flights| > |ss[i].flights|)
  {
    RunInv(ss, steps, i);
  }

  /** Every caller ends as the factory call it joined ended: from the moment it joined until any
      later moment it is still waiting for that very call, or it has returned and the call
      resolved, or it has thrown and the call failed. A settled call stays as it is. */
  lemma {:induction false} SharedOutcome(ss: seq<State>, steps: seq<Step>, i: nat, j: nat, c: nat, id: nat)
    requires Interleaving(ss, steps) && i <= j < |ss|
    requires c in ss[i].callers && (ss[i].callers[c] == Waiting(id) || ss[i].callers[c] == Owning(id))
    ensures c in ss[j].callers && id < |ss[i].flights| <= |ss[j].flights|
    ensures ss[i].flights[id] != Pending ==> ss[j].flights[id] == ss[i].flights[id]
    ensures || ss[j].callers[c] == ss[i].callers[c]
            || (ss[j].callers[c] == Returned && (ss[j].flights[id] == Succeeded || ss[j].flights[id] == Empty))
            || (ss[j].callers[c] == Threw && ss[j].flights[id] == Failed)
    decreases j
  {
    RunInv(ss, steps, i);
    if i < j {
      SharedOutcome(ss, steps, i, j - 1, c, id);
    }
  }

  // Where a caller stands after its first stretch, by what it found.
  lemma CallOutcome(s: State, c: nat)
    requires Enabled(s, Call(c))
    ensures var s' := Apply(s, Call(c));
      && c in s'.callers && s'.client == s.client && s'.hasFactory == s.hasFactory
      && (s'.callers[c] == Returned <==> s.client)
      && (s'.callers[c] == Threw <==> !s.client && s.slot == Free && !s.hasFactory)
      && (s'.callers[c].Waiting? <==> !s.client && s.slot != Free)
      && (s'.callers[c].Waiting? ==> s.slot == Flight(s'.callers[c].id))
      && (s'.callers[c].Owning? <==> !s.client && s.slot == Free && s.hasFactory)
      && (if s'.callers[c].Owning? then
            s'.callers[c].id == |s.flights| && s'.flights == s.flights + [Pending] && s'.slot == Flight(|s.flights|)
          else s'.flights == s.flights && s'.slot == s.slot)
  {
  }

  ghost predicate Finished(s: State, c: nat) {
    c in s.callers && (s.callers[c] == Returned || s.callers[c] == Threw)
  }

  lemma {:induction false} FinishedStays(ss: seq<State>, steps: seq<Step>, i: nat, j: nat, c: nat)
    requires Interleaving(ss, steps) && i <= j < |ss| && Finished(ss[i], c)
    ensures c in ss[j].callers && ss[j].callers[c] == ss[i].callers[c]
    decreases j
  {
    if i < j {
      FinishedStays(ss, steps, i, j - 1, c);
    }
  }

  lemma {:induction false} Arrived(ss: seq<State>, steps: seq<Step>, j: nat, c: nat) returns (i: nat)
    requires Interleaving(ss, steps) && j < |ss| && c in ss[j].callers
    ensures i < j && steps[i] == Call(c)
  {
    i := j - 1;
    if steps[i] != Call(c) {
      i := Arrived(ss, steps, j - 1, c);
    }
  }

  // The caller arrived at step i and joined a factory call that had one of the outcomes by state j.
  ghost predicate Joined(ss: seq<State>, i: nat, j: nat, c: nat, outcomes: set<Outcome>)
    requires i + 1 < |ss| && j < |ss|
  {
    c in ss[i + 1].callers && exists id: nat ::
      && (ss[i + 1].callers[c] == Waiting(id) || ss[i + 1].callers[c] == Owning(id))
      && id < |ss[j].flights| && ss[j].flights[id] in outcomes
  }

  /** Why a caller ended as it did: it threw because it came with no client, a free slot and no
      factory, or because the call it joined failed; it returned because it found a client, or
      because the call it joined resolved. */
  lemma WhyFinished(ss: seq<State>, steps: seq<Step>, j: nat, c: nat)
    requires Interleaving(ss, steps) && j < |ss| && Finished(ss[j], c)
    ensures exists i :: 0 <= i < j && steps[i] == Call(c) &&
              if ss[j].callers[c] == Threw then
                (!ss[i].client && ss[i].slot == Free && !ss[i].hasFactory) || Joined(ss, i, j, c, {Failed})
              else
                ss[i].client || Joined(ss, i, j, c, {Succeeded, Empty})
  {
    var i := Arrived(ss, steps, j, c);
    CallOutcome(ss[i], c);
    var me := ss[i + 1].callers[c];
    if me.Waiting? || me.Owning? {
      RunInv(ss, steps, i + 1);
      SharedOutcome(ss, steps, i + 1, j, c, me.id);
    } else {
      FinishedStays(ss, steps, i + 1, j, c);
    }
  }

  /** When the owner of a failed call resumes, the slot is free, no client is set, and the next
      caller to arrive makes a new factory call. */
  lemma FailureAllowsRetry(ss: seq<State>, steps: seq<Step>, i: nat, c: nat, d: nat)
    requires Interleaving(ss, steps) && i < |steps| && steps[i] == Resume(c)
    requires ss[i].callers[c].Owning? && ss[i].flights[ss[i].callers[c].id] == Failed
    requires d !in ss[i + 1].callers && ss[i].hasFactory
    ensures ss[i + 1].slot == Free && !ss[i + 1].client
    ensures var next := Apply(ss[i + 1], Call(d));
      next.callers[d] == Owning(|ss[i + 1].flights|) && next.flights == ss[i + 1].flights + [Pending]
  {
    RunInv(ss, steps, i);
    RunInv(ss, steps, i + 1);
  }

  // The work left: factory calls in flight and callers that have not finished.

  ghost function InFlight(s: State): set<nat> {
    set f: nat | f < |s.flights| && s.flights[f] == Pending
  }

  ghost function Unfinished(s: State): set<nat> {
    set c | c in s.callers && (s.callers[c].Waiting? || s.callers[c].Owning?)
  }

  ghost function Work(s: State): nat {
    |InFlight(s)| + |Unfinished(s)|
  }

  /** Nobody waits for ever on an abandoned slot: in every reachable state some step other than a
      new call is enabled exactly as long as there is work left. */
  lemma NeverStuck(ss: seq<State>, steps: seq<Step>, i: nat)
    requires Interleaving(ss, steps) && i < |ss|
    ensures (exists step: Step :: !step.Call? && Enabled(ss[i], step)) <==> Work(ss[i]) > 0
  {
    var s := ss[i];
    RunInv(ss, steps, i);
    if f :| f in InFlight(s) {
      assert Enabled(s, Settle(Succeeded, f));
    } else if c :| c in Unfinished(s) {
      assert s.callers[c].id !in InFlight(s);
      assert Enabled(s, Resume(c));
    }
    if step: Step :| !step.Call? && Enabled(s, step) {
      match step
      case Settle(outcome, id) => assert id in InFlight(s);
      case Resume(c) => assert c in Unfinished(s);
    }
  }

  lemma StepWorks(s: State, step: Step)
    requires Enabled(s, step) && !step.Call?
    ensures Work(Apply(s, step)) == Work(s) - 1
  {
    var s' := Apply(s, step);
    match step
    case Settle(outcome, id) =>
      assert InFlight(s') == InFlight(s) - {id} && id in InFlight(s);
      assert Unfinished(s') == Unfinished(s);
    case Resume(c) =>
      assert Unfinished(s') == Unfinished(s) - {c} && c in Unfinished(s);
      assert InFlight(s') == InFlight(s);
  }

  /** From any reachable state, once no new caller arrives, every schedule that goes on as long as
      it can takes exactly as many steps as there is work, and then every caller has finished. */
  lemma {:induction false} EveryScheduleFinishes(ss: seq<State>, steps: seq<Step>, i: nat)
    requires Interleaving(ss, steps) && i < |ss|
    requires forall k | i <= k < |steps| :: !steps[k].Call?
    ensures |steps| - i == Work(ss[i]) - Work(ss[|steps|])
    ensures (!exists step: Step :: !step.Call? && Enabled(ss[|steps|], step)) <==> |steps| - i == Work(ss[i])
    ensures |steps| - i == Work(ss[i]) ==>
              forall c | c in ss[|steps|].callers :: ss[|steps|].callers[c].Returned? || ss[|steps|].callers[c].Threw?
    decreases |steps| - i
  {
    if i < |steps| {
      StepWorks(ss[i], steps[i]);
      EveryScheduleFinishes(ss, steps, i + 1);
    }
    NeverStuck(ss, steps, |steps|);
    if Work(ss[|steps|]) == 0 {
      assert Unfinished(ss[|steps|]) == {};
      assert forall c | c in ss[|steps|].callers :: c !in Unfinished(ss[|steps|]);
    }
  }

  // The fields themselves, each method one undisturbed stretch of the code.
  class Database {
    var client: bool
    var clientInitialization: Slot
    const clientFactory: bool
    var flights: seq<Outcome>
    var callers: map<nat, Caller>

    constructor (client: bool, clientFactory: bool)
      ensures Initial(View()) && View().client == client && View().hasFactory == clientFactory
    {
      this.client, this.clientFactory := client, clientFactory;
      clientInitialization, flights, callers := Free, [], map[];
    }

    ghost function View(): State
      reads this
    {
      State(client, clientInitialization, clientFactory, flights, callers)
    }

    method EnsureClientInitialized(c: nat)
      requires Enabled(View(), Call(c))
      modifies this
      ensures View() == Apply(old(View()), Call(c))
      ensures c in callers && client == old(client)
      ensures callers[c] == Returned <==> old(client)
      ensures callers[c] == Threw <==> !old(client) && old(clientInitialization) == Free && !clientFactory
      ensures callers[c].Waiting? <==> !old(client) && old(clientInitialization) != Free
      ensures callers[c].Waiting? ==> old(clientInitialization) == Flight(callers[c].id)
      ensures callers[c].Owning? <==> |flights| > |old(flights)|
      ensures callers[c].Owning? ==>
          callers[c].id == |old(flights)| && flights == old(flights) + [Pending]
          && clientInitialization == Flight(|old(flights)|)
    {
      if client {
        callers := callers[c := Returned];
        return;
      }
      if clientInitialization.Flight? {
        callers := callers[c := Waiting(clientInitialization.id)];
        return;
      }
      if !clientFactory {
        callers := callers[c := Threw];
        return;
      }
      clientInitialization := Flight(|flights|);
      callers := callers[c := Owning(|flights|)];
      flights := flights + [Pending];
    }

    method FactorySettled(id: nat, outcome: Outcome)
      requires Enabled(View(), Settle(outcome, id))
      modifies this
      ensures View() == Apply(old(View()), Settle(outcome, id))
      ensures client <==> outcome == Succeeded || (outcome == Failed && old(client))
    {
      if !outcome.Failed? {
        client := outcome.Succeeded?;
      }
      flights := flights[id := outcome];
    }

    method AfterAwait(c: nat)
      requires Enabled(View(), Resume(c))
      modifies this
      ensures View() == Apply(old(View()), Resume(c))
      ensures callers[c] == if old(flights[callers[c].id]) == Failed then Threw else Returned
      ensures clientInitialization == if old(callers[c]).Owning? then Free else old(clientInitialization)
    {
      var me := callers[c];
      var failed := flights[me.id] == Failed;
      if me.Owning? {
        clientInitialization := Free;
      }
      callers := callers[c := if failed then Threw else Returned];
    }
  }
}
