/** Processed events over runs of the system: when they were processed, and that they never change. */
module Processing {
  import opened Overrides
  import opened Schedule
  import opened Engine
  import opened Chronicle
  import opened Theorems

  /** People, policies and the queue are as before. */
  ghost predicate Untouched(w: World, after: World) {
    && after.events == w.events && after.people == w.people
    && after.versions == w.versions && after.statuses == w.statuses
  }

  lemma MembersUntouched(w: World, members: set<(int, int)>, group: int, id: int, at: int)
    requires AfterMembers(w, members, group, id, at).Some?
    ensures Untouched(w, AfterMembers(w, members, group, id, at).value)
  {
  }

  lemma AttachmentsUntouched(w: World, group: int, added: set<int>, removed: set<int>, at: int)
    requires AfterGroupPolicies(w, group, added, removed, at).Some?
    ensures Untouched(w, AfterGroupPolicies(w, group, added, removed, at).value)
  {
  }

  lemma OverrideUntouched(w: World, change: OverrideOp, at: int)
    requires AfterOverride(w, change, at).Some?
    ensures Untouched(w, AfterOverride(w, change, at).value)
  {
  }

  lemma QueueUntouched(w: World, op: Op)
    requires Apply(w, op).Some?
    requires op.CreateField? || op.CreateGroup? || op.AddMember? || op.RemoveMember? || op.UpdateGroupPolicies?
             || op.ChangeOverride? || op.RefreshEmployee?
    ensures Untouched(w, Apply(w, op).value)
  {
    match op {
      case AddMember(group, id, at) => MembersUntouched(w, w.members + {(group, id)}, group, id, at);
      case RemoveMember(group, id, at) => MembersUntouched(w, w.members - {(group, id)}, group, id, at);
      case UpdateGroupPolicies(group, added, removed, at) => AttachmentsUntouched(w, group, added, removed, at);
      case ChangeOverride(change, at) => OverrideUntouched(w, change.(at := at), at);
      case _ =>
    }
  }

  /** After every run each processed event was processed between its due instant and the clock. */
  lemma AlwaysPunctual(ops: seq<Op>)
    requires RunTimed(ops)
    ensures Punctual(Engine.Run(ops).events, ClockAfter(ops))
  {
    RunKeeps(ops);
  }

  /** Whatever is done later, rows keep their identities and processed events never change. */
  lemma {:induction false} ProcessedIsTerminal(ops: seq<Op>, more: seq<Op>)
    requires RunTimed(ops + more)
    ensures Evolves(Engine.Run(ops).events, Engine.Run(ops + more).events)
  {
    if more == [] {
      assert ops + more == ops;
    } else {
      var init := more[..|more| - 1];
      LastStep(ops, more);
      ProcessedIsTerminal(ops, init);
      RunKeeps(ops + init);
      StepMoves(Engine.Run(ops + init), ClockAfter(ops + init), more[|more| - 1]);
      EvolvesTwice(Engine.Run(ops).events, Engine.Run(ops + init).events, Engine.Run(ops + more).events);
    }
  }
}
