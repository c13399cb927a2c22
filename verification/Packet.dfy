/** The calls on one packet as they run once they hold its lock: one file change after another. */
module DispatchPacket {
  import opened Wrappers
  import opened DispatchModel

  class Packet {
    const meta: Meta
    var status: Status
    var accepted: string
    var forced: set<string>
    var metaStatus: Status
    var handoff: Option<Document>
    var closeout: Option<Document>
    var history: seq<Archive>
    var sessions: map<string, Record>

    /** Every file change made so far, in order. */
    ghost var trace: seq<Action>

    function Files(): World
      reads this
    {
      World(status, accepted, forced, metaStatus, handoff, closeout, history, sessions)
    }

    constructor (meta: Meta, sessions: map<string, Record>)
      ensures this.meta == meta && trace == []
      ensures Files() == World(Pending, "", {}, Pending, None, None, [], sessions)
    {
      this.meta := meta;
      this.sessions := sessions;
      status, accepted, forced, metaStatus := Pending, "", {}, Pending;
      handoff, closeout, history := None, None, [];
      trace := [];
    }

    /** The status file, then the meta file. */
    method SetStatus(to: Status, session: Option<string>, over: set<string>)
      modifies this
      ensures var plan := [WriteStatus(to, session, over), WriteMeta(to)];
        Files() == ApplyAll(old(Files()), plan) && trace == old(trace) + plan
    {
      ApplyTwo(Files(), WriteStatus(to, session, over), WriteMeta(to));
      status := to;
      if session.Some? { accepted := session.value; }
      if over != {} { forced := over; }
      trace := trace + [WriteStatus(to, session, over)];
      metaStatus := to;
      trace := trace + [WriteMeta(to)];
    }

    lemma ApplyOne(w: World, a: Action)
      ensures ApplyAll(w, [a]) == Apply(w, a)
    {
      assert [a][1..] == [];
    }

    method SessionBind(app: string, session: string, dispatch: string, standing: Standing, verifier: string)
      modifies this
      ensures var a := BindSession(app, session, dispatch, standing, verifier);
        Files() == Apply(old(Files()), a) && trace == old(trace) + [a]
    {
      var file := FileFor(app, session);
      var prior := "";
      if file in sessions { prior := sessions[file].verifier; }
      var kept := verifier;
      if kept == "" { kept := prior; }
      sessions := sessions[file := Record(app, session, dispatch, standing, kept)];
      trace := trace + [BindSession(app, session, dispatch, standing, verifier)];
    }

    /** A missing handoff is a silent no-op. */
    method ArchivePriorHandoff()
      modifies this
      ensures var plan := ArchivePlan(old(Files()));
        Files() == ApplyAll(old(Files()), plan) && trace == old(trace) + plan
    {
      Nothing(Files());
      hide ApplyAll, Bound;
      if handoff.None? { return; }
      ghost var w := Files();
      ghost var rest := if closeout.Some? then [MoveCloseout] else [];
      ApplyAllThen(w, [MakeHistory, MoveHandoff], rest);
      ApplyTwo(w, MakeHistory, MoveHandoff);
      Nothing(ApplyAll(w, [MakeHistory, MoveHandoff]));
      history := history + [Archive(None, None)];
      trace := trace + [MakeHistory];
      var n := |history| - 1;
      history := history[..n] + [history[n].(handoff := handoff)];
      handoff := None;
      trace := trace + [MoveHandoff];
      assert Files() == ApplyAll(w, [MakeHistory, MoveHandoff]);
      if closeout.Some? {
        ApplyOne(Files(), MoveCloseout);
        history := history[..n] + [history[n].(closeout := closeout)];
        closeout := None;
        trace := trace + [MoveCloseout];
      }
    }

    method Accept(app: string, session: string, runner: string) returns (answer: Answer)
      modifies this
      ensures var d := Decide(meta, Request.Accept(app, session, runner), old(Files()));
        answer == d.answer && Files() == ApplyAll(old(Files()), d.plan) && trace == old(trace) + d.plan
    {
      if app != meta.app { return WrongRecipient; }
      if runner != meta.runner { return WrongRunner; }
      if status != Pending && status != Cleared { return InvalidTransition(status); }
      ghost var w := Files();
      ghost var archive := if status == Cleared then ArchivePlan(w) else [];
      ghost var begin := [WriteStatus(Working, Some(session), {}), WriteMeta(Working)];
      ApplyAllThen(w, archive, begin);
      ApplyAllThen(w, archive + begin, BindPlan(meta, session));
      hide Apply, ArchivePlan;
      if status == Cleared { ArchivePriorHandoff(); }
      SetStatus(Working, Some(session), {});
      if session != "" {
        ApplyOne(Files(), BindSession(meta.app, session, meta.id, AtWork, meta.verifier));
        SessionBind(app, session, meta.id, AtWork, meta.verifier);
      }
      answer := Done;
    }

    /** Links the new file into place; an existing one is left alone. */
    method CreateExclusive(doc: Document) returns (created: bool)
      modifies this
      ensures created == old(handoff).None?
      ensures Files() == if created then Apply(old(Files()), CreateHandoff(doc)) else old(Files())
      ensures trace == old(trace) + if created then [CreateHandoff(doc)] else []
    {
      created := handoff.None?;
      if created {
        handoff := Some(doc);
        trace := trace + [CreateHandoff(doc)];
      }
    }

    /** The handoff, its closeout, then the status; nothing at all when the create is lost. */
    method Publish(doc: Document) returns (created: bool)
      modifies this
      ensures created == old(handoff).None?
      ensures var plan := if created then [CreateHandoff(doc), WriteCloseout(doc)] +
              DispatchModel.SetStatus(Complete) else [];
        Files() == ApplyAll(old(Files()), plan) && trace == old(trace) + plan
      ensures !created ==> status == old(status)
    {
      ghost var w := Files();
      ghost var papers := [CreateHandoff(doc), WriteCloseout(doc)];
      ApplyAllThen(w, papers, DispatchModel.SetStatus(Complete));
      ApplyTwo(w, CreateHandoff(doc), WriteCloseout(doc));
      hide ApplyAll;
      created := CreateExclusive(doc);
      if created {
        closeout := Some(doc);
        trace := trace + [WriteCloseout(doc)];
        assert Files() == ApplyAll(w, papers);
        SetStatus(Complete, None, {});
      } else {
        Nothing(w);
      }
    }

    lemma Nothing(w: World)
      ensures ApplyAll(w, []) == w
    {
    }

    method WriteHandoff(app: string, session: string, doc: Document) returns (answer: Answer)
      modifies this
      ensures var d := Decide(meta, Handoff(app, session, doc), old(Files()));
        answer == d.answer && Files() == ApplyAll(old(Files()), d.plan) && trace == old(trace) + d.plan
    {
      Nothing(Files());
      hide ApplyAll, Apply, AcceptPlan, Holding;
      if app != meta.app { return WrongRecipient; }
      if status == Withdrawn { return InvalidTransition(status); }
      if status == Complete || status == Verified || status == Failed { return AlreadyClosed(status); }
      if status != Working { return NotWorking(status); }
      if accepted != "" && accepted != session { return OtherSession; }
      if !doc.acceptable { return BadContent; }
      var created := Publish(doc);
      answer := if created then Done else AlreadyClosed(status);
    }

    /** The status and the handoff are read before the lock; nobody comes in between here. */
    method VerifyHandoff() returns (answer: Answer)
      modifies this
      ensures answer == Done <==> Verifiable(old(Files()))
      ensures old(status) != Complete ==> answer == NotReady(old(status))
      ensures old(status) == Complete && old(handoff).None? ==> answer == NoHandoff
      ensures old(status) == Complete && old(handoff).Some? && !old(handoff).value.verifiable ==> answer == Unverified
      ensures var plan := if answer == Done then Decide(meta, Verify, old(Files())).plan else [];
        Files() == ApplyAll(old(Files()), plan) && trace == old(trace) + plan
    {
      if status != Complete { return NotReady(status); }
      if handoff.None? { return NoHandoff; }
      if !handoff.value.verifiable { return Unverified; }
      SetStatus(Verified, None, {});
      answer := Done;
    }

    /** A named session of the target app is bound idle once the lock is free again. */
    method AgentClear(target: string, session: string) returns (answer: Answer)
      modifies this
      ensures var d := Decide(meta, Clear, old(Files()));
        var w := ApplyAll(old(Files()), d.plan);
        var idle := BindSession(target, session, "", Idle, "");
        && answer == d.answer
        && Files() == (if answer == Done && session != "" then Apply(w, idle) else w)
        && trace == old(trace) + d.plan + if answer == Done && session != "" then [idle] else []
    {
      if status != Complete && status != Verified { return NotReady(status); }
      SetStatus(Cleared, None, {});
      if session != "" { SessionBind(target, session, "", Idle, ""); }
      answer := Done;
    }

    /** The scan over the session files. */
    method SessionsBoundTo() returns (bound: set<string>)
      ensures bound == BoundSessions(meta, sessions)
    {
      bound := {};
      var left := sessions.Keys;
      while left != {}
        invariant left <= sessions.Keys
        invariant bound == set file | file in sessions && file !in left && IsBound(meta, sessions, file) ::
                  sessions[file].session
      {
        var file :| file in left;
        left := left - {file};
        if IsBound(meta, sessions, file) { bound := bound + {sessions[file].session}; }
      }
    }

    method DispatchWithdraw(blankReason: bool, force: bool, orchestrator: bool) returns (answer: Answer)
      modifies this
      ensures var d := Decide(meta, Withdraw(blankReason, force, orchestrator), old(Files()));
        answer == d.answer && Files() == ApplyAll(old(Files()), d.plan) && trace == old(trace) + d.plan
    {
      if blankReason { return ReasonRequired; }
      if status == Withdrawn { return AlreadyWithdrawn; }
      var over := {};
      if status == Working {
        var ids := SessionsBoundTo();
        if accepted != "" && accepted !in ids && FileFor(meta.app, accepted) !in sessions {
          ids := ids + {accepted};
        }
        assert ids == Holding(meta, Files());
        if ids != {} {
          if !(force && orchestrator) { return Busy(ids); }
          over := ids;
        }
      } else if status != Pending {
        return InvalidTransition(status);
      }
      SetStatus(Withdrawn, None, over);
      answer := Done;
    }
  }
}
