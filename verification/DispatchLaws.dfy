/** Who may move a packet, and what each call leaves, said of the files themselves. */
module DispatchLaws {
  import opened Wrappers
  import opened DispatchModel
  import opened DispatchRuns
  import DispatchPacket

  // ---- Who may write ---------------------------------------------------------------------------

  /** The request may make this change to a packet whose accepting session is `accepted`. */
  predicate May(m: Meta, req: Request, accepted: string, a: Action) {
    match req
    case Accept(app, session, runner) =>
      && app == m.app && runner == m.runner
      && (a.MakeHistory? || a.MoveHandoff? || a.MoveCloseout?
          || a == WriteStatus(Working, Some(session), {}) || a == WriteMeta(Working)
          || (session != "" && a == BindSession(m.app, session, m.id, AtWork, m.verifier)))
    case Handoff(app, session, doc) =>
      && app == m.app && (accepted == "" || accepted == session) && doc.acceptable
      && (a == CreateHandoff(doc) || a == WriteCloseout(doc)
          || a == WriteStatus(Complete, None, {}) || a == WriteMeta(Complete))
    case Verify => a == WriteStatus(Verified, None, {}) || a == WriteMeta(Verified)
    case Clear => a == WriteStatus(Cleared, None, {}) || a == WriteMeta(Cleared)
    case Withdraw(blankReason, force, orchestrator) =>
      && !blankReason
      && (a == WriteMeta(Withdrawn)
          || (a.WriteStatus? && a.to == Withdrawn && a.accepted == None
              && (a.forced != {} ==> force && orchestrator)))
  }

  predicate MayAll(m: Meta, req: Request, accepted: string, todo: seq<Action>) {
    forall i :: 0 <= i < |todo| ==> May(m, req, accepted, todo[i])
  }

  /** What completing a packet writes, in order. */
  function Completion(doc: Document): seq<Action> {
    [CreateHandoff(doc), WriteCloseout(doc), WriteStatus(Complete, None, {}), WriteMeta(Complete)]
  }

  /** A completion under way has written its papers before its status. */
  predicate PapersFirst(w: World, doc: Document, todo: seq<Action>) {
    || todo == []
    || todo == Completion(doc)
    || (w.handoff == Some(doc) && todo == [WriteCloseout(doc), WriteStatus(Complete, None, {}), WriteMeta(Complete)])
    || (w.handoff == w.closeout == Some(doc) && todo == [WriteStatus(Complete, None, {}), WriteMeta(Complete)])
    || (w.handoff == w.closeout == Some(doc) && todo == [WriteMeta(Complete)])
  }

  predicate Entitled(m: Meta, s: System) {
    s.holder.Some? ==>
      && MayAll(m, s.holder.value.req, s.w.accepted, s.holder.value.todo)
      && (s.holder.value.req.Handoff? && s.holder.value.todo != [] ==>
            PapersFirst(s.w, s.holder.value.req.doc, s.holder.value.todo))
  }

  lemma PlanMay(m: Meta, req: Request, w: World)
    ensures MayAll(m, req, w.accepted, Decide(m, req, w).plan)
    ensures req.Handoff? && Decide(m, req, w).plan != [] ==> PapersFirst(w, req.doc, Decide(m, req, w).plan)
  {
    hide BoundSessions;
    if req.Handoff? && Decide(m, req, w).plan != [] {
      assert [CreateHandoff(req.doc), WriteCloseout(req.doc)] + SetStatus(Complete) == Completion(req.doc);
    }
  }

  lemma ActKeepsMay(m: Meta, s: System)
    requires Entitled(m, s) && Todo(s) != []
    ensures MayAll(m, s.holder.value.req, Written(m, s).w.accepted, Todo(s)[1..])
  {
    hide FileAt, Bound, PapersFirst;
    var req, todo := s.holder.value.req, s.holder.value.todo;
    assert May(m, req, s.w.accepted, todo[0]);
    forall i | 0 <= i < |todo[1..]| ensures May(m, req, Written(m, s).w.accepted, todo[1..][i]) {
      assert May(m, req, s.w.accepted, todo[i + 1]);
    }
  }

  lemma PapersStayFirst(w: World, doc: Document, todo: seq<Action>)
    requires todo != [] && PapersFirst(w, doc, todo)
    ensures PapersFirst(Apply(w, todo[0]), doc, todo[1..])
  {
    assert Completion(doc)[1..] == [WriteCloseout(doc), WriteStatus(Complete, None, {}), WriteMeta(Complete)];
    assert Completion(doc)[1..][1..] == [WriteStatus(Complete, None, {}), WriteMeta(Complete)];
    assert Completion(doc)[1..][1..][1..] == [WriteMeta(Complete)];
  }

  lemma ActKeepsEntitled(m: Meta, s: System)
    requires Entitled(m, s) && Todo(s) != []
    ensures Entitled(m, Written(m, s))
  {
    ActKeepsMay(m, s);
    hide FileAt, Apply, PapersFirst, MayAll;
    if s.holder.value.req.Handoff? { PapersStayFirst(s.w, s.holder.value.req.doc, Todo(s)); }
  }

  lemma StepKeepsEntitled(m: Meta, s: System, step: Step)
    requires Entitled(m, s)
    ensures Entitled(m, Next(m, s, step))
  {
    hide Decide, Written, Bound;
    match step
    case Take(req) => PlanMay(m, req, s.w);
    case Act => if Todo(s) != [] { ActKeepsEntitled(m, s); }
    case _ =>
  }

  lemma {:induction false} RunKeepsEntitled(m: Meta, s: System, steps: seq<Step>)
    requires Entitled(m, s)
    ensures Entitled(m, Run(m, s, steps))
    decreases |steps|
  {
    hide Entitled, Next;
    if steps != [] {
      StepKeepsEntitled(m, s, steps[0]);
      RunKeepsEntitled(m, Next(m, s, steps[0]), steps[1..]);
    }
  }

  /** In every run, a handoff is created, a closeout written and the packet completed only for a request from the
      addressed app whose session is the accepting one, or any when none is named; an accept's writes are made only
      for the addressed app and runner; and each other status only by its own call. */
  lemma OnlyTheEntitledWrite(m: Meta, s: System, steps: seq<Step>)
    requires Fresh(m, s)
    ensures var e := Run(m, s, steps);
      Todo(e) != [] ==>
        var req := e.holder.value.req;
        match Todo(e)[0]
        case CreateHandoff(doc) =>
          req.Handoff? && req.app == m.app && e.w.accepted in {"", req.session} && req.doc == doc && doc.acceptable
        case WriteCloseout(doc) =>
          req.Handoff? && req.app == m.app && e.w.accepted in {"", req.session} && req.doc == doc && doc.acceptable
        case BindSession(app, session, dispatch, standing, verifier) =>
          && req == Accept(app, session, m.runner) && app == m.app && session != ""
          && dispatch == m.id && standing == AtWork && verifier == m.verifier
        case WriteStatus(to, accepted, forced) =>
          && to in {Working, Complete, Verified, Cleared, Withdrawn}
          && (to == Working ==> accepted.Some? && forced == {} && req == Accept(m.app, accepted.value, m.runner))
          && (to != Working ==> accepted == None)
          && (to == Complete ==> req.Handoff? && req.app == m.app && e.w.accepted in {"", req.session})
          && (to == Verified ==> req == Verify)
          && (to == Cleared ==> req == Clear)
          && (to == Withdrawn ==> req.Withdraw? && !req.blankReason && (forced != {} ==> req.force && req.orchestrator))
        case WriteMeta(to) => true
        case _ => req.Accept? && req.app == m.app && req.runner == m.runner
  {
    RunKeepsEntitled(m, s, steps);
    var e := Run(m, s, steps);
    hide Run, PapersFirst;
    if Todo(e) != [] { assert May(m, e.holder.value.req, e.w.accepted, Todo(e)[0]); }
  }

  /** The holder is a completion by the addressed app in the accepting session. */
  predicate Completes(m: Meta, s: System) {
    && s.holder.Some? && s.holder.value.req.Handoff? && s.holder.value.req.app == m.app
    && s.w.accepted in {"", s.holder.value.req.session}
  }

  /** The holder is an accept by the addressed app and runner. */
  predicate Accepts(m: Meta, s: System) {
    && s.holder.Some? && s.holder.value.req.Accept?
    && s.holder.value.req.app == m.app && s.holder.value.req.runner == m.runner
  }

  lemma PapersAreEntitled(m: Meta, e: System, a: Action)
    requires Entitled(m, e) && Todo(e) != [] && a == Todo(e)[0]
    ensures var w := Apply(e.w, a);
      && (w.handoff.Some? && w.handoff != e.w.handoff ==> Completes(m, e) && w.handoff == Some(e.holder.value.req.doc))
      && (w.status == Complete && e.w.status != Complete ==>
            Completes(m, e) && w.handoff == w.closeout == Some(e.holder.value.req.doc))
  {
    hide Bound;
    assert May(m, e.holder.value.req, e.w.accepted, Todo(e)[0]);
  }

  lemma AcceptsAreEntitled(m: Meta, e: System, a: Action)
    requires Entitled(m, e) && Todo(e) != [] && a == Todo(e)[0]
    ensures var w := Apply(e.w, a);
      && ((w.status == Working && e.w.status != Working) || w.accepted != e.w.accepted ==>
            w.status == Working && Accepts(m, e) && e.holder.value.req.session == w.accepted)
      && (w.history != e.w.history ==> Accepts(m, e))
  {
    hide Bound, PapersFirst;
    assert May(m, e.holder.value.req, e.w.accepted, Todo(e)[0]);
  }

  lemma OthersAreEntitled(m: Meta, e: System, a: Action)
    requires Entitled(m, e) && Todo(e) != [] && a == Todo(e)[0]
    ensures var w := Apply(e.w, a); var req := e.holder.value.req;
      && (w.status == Verified && e.w.status != Verified ==> req == Verify)
      && (w.status == Cleared && e.w.status != Cleared ==> req == Clear)
      && (w.status == Withdrawn && e.w.status != Withdrawn ==> req.Withdraw? && !req.blankReason)
      && (w.forced != e.w.forced ==> req.Withdraw? && req.force && req.orchestrator)
      && (w.status == Pending ==> e.w.status == Pending)
  {
    hide Bound, PapersFirst;
    assert May(m, e.holder.value.req, e.w.accepted, Todo(e)[0]);
  }

  /** Only the holder's writes touch the packet's own files. */
  lemma OnlyActMoves(m: Meta, e: System, step: Step)
    ensures var n := Next(m, e, step);
      if step == Act && Todo(e) != [] then n.w == Apply(e.w, Todo(e)[0]) else n.w == e.w.(sessions := n.w.sessions)
  {
    hide Apply, Decide, Bound, FileAt;
  }

  /** The same said of the files: whatever step changes them, it was the entitled call's. */
  lemma ChangesAreEntitled(m: Meta, s: System, steps: seq<Step>, step: Step)
    requires Fresh(m, s)
    ensures var e := Run(m, s, steps); var n := Next(m, e, step);
      && (n.w.handoff.Some? && n.w.handoff != e.w.handoff ==>
            Completes(m, e) && n.w.handoff == Some(e.holder.value.req.doc))
      && (n.w.status == Complete && e.w.status != Complete ==>
            Completes(m, e) && n.w.handoff == n.w.closeout == Some(e.holder.value.req.doc))
      && ((n.w.status == Working && e.w.status != Working) || n.w.accepted != e.w.accepted ==>
            n.w.status == Working && Accepts(m, e) && e.holder.value.req.session == n.w.accepted)
      && (n.w.history != e.w.history ==> Accepts(m, e))
      && (n.w.status == Verified && e.w.status != Verified ==> e.holder.Some? && e.holder.value.req == Verify)
      && (n.w.status == Cleared && e.w.status != Cleared ==> e.holder.Some? && e.holder.value.req == Clear)
      && (n.w.status == Withdrawn && e.w.status != Withdrawn ==>
            e.holder.Some? && e.holder.value.req.Withdraw? && !e.holder.value.req.blankReason)
      && (n.w.forced != e.w.forced ==>
            && e.holder.Some? && e.holder.value.req.Withdraw?
            && e.holder.value.req.force && e.holder.value.req.orchestrator)
  {
    hide Run, Next, Apply, Entitled, Completes, Accepts;
    FreshIsEntitled(m, s);
    RunKeepsEntitled(m, s, steps);
    var e := Run(m, s, steps);
    OnlyActMoves(m, e, step);
    if step == Act && Todo(e) != [] {
      PapersAreEntitled(m, e, Todo(e)[0]);
      AcceptsAreEntitled(m, e, Todo(e)[0]);
      OthersAreEntitled(m, e, Todo(e)[0]);
    }
  }

  lemma FreshIsEntitled(m: Meta, s: System)
    requires Fresh(m, s)
    ensures Entitled(m, s)
  {
  }

  /** In every run a status Cleared is written between any two accepts that took effect. */
  lemma ClearBetweenAccepts(m: Meta, s: System, steps: seq<Step>, i: nat, j: nat)
    requires Fresh(m, s)
    requires var log := Run(m, s, steps).log;
      i < j < |log| && log[i].WriteStatus? && log[i].to == Working && log[j].WriteStatus? && log[j].to == Working
    ensures var log := Run(m, s, steps).log; exists k :: i < k < j && log[k].WriteStatus? && log[k].to == Cleared
  {
    hide Run, Fresh;
    TwoAcceptsNeedAClear(m, s, steps);
    var log := Run(m, s, steps).log;
    assert IsAccept(log[i]) && IsAccept(log[j]);
    var k :| i < k < j && IsClear(log[k]);
  }

  /** Neither a crash nor an outside write. */
  predicate Quiet(steps: seq<Step>) { forall i :: 0 <= i < |steps| ==> !steps[i].Crash? && !steps[i].Outside? }

  lemma {:induction false} QuietRun(m: Meta, s: System, steps: seq<Step>)
    requires Quiet(steps) && s.dropped == [] && s.touched == {}
    ensures Run(m, s, steps).dropped == [] && Run(m, s, steps).touched == {}
    decreases |steps|
  {
    if steps != [] {
      hide Run;
      QuietStep(m, s, steps[0]);
      QuietRun(m, Next(m, s, steps[0]), steps[1..]);
      RunFirst(m, s, steps);
    }
  }

  lemma RunFirst(m: Meta, s: System, steps: seq<Step>)
    requires steps != []
    ensures Run(m, s, steps) == Run(m, Next(m, s, steps[0]), steps[1..])
  {
  }

  lemma QuietStep(m: Meta, s: System, step: Step)
    requires !step.Crash? && !step.Outside? && s.dropped == [] && s.touched == {}
    ensures Next(m, s, step).dropped == [] && Next(m, s, step).touched == {}
  {
    hide Apply, Decide, FileAt;
  }

  /** In a run without crashes and outside writes, a free lock on an accepted packet shows the accepting session's
      file, at work on this packet. */
  lemma QuietAcceptIsWhole(m: Meta, s: System, steps: seq<Step>)
    requires Fresh(m, s) && Quiet(steps)
    ensures var t := Run(m, s, steps); var file := FileFor(m.app, t.w.accepted);
      t.holder.None? && t.w.status == Working && t.w.accepted != "" ==>
        && file in t.w.sessions && t.w.sessions[file].app == m.app && t.w.sessions[file].session == t.w.accepted
        && t.w.sessions[file].dispatch == m.id && t.w.sessions[file].standing == AtWork
  {
    FreeLockShowsWholeAcceptIff(m, s, steps);
    QuietRun(m, s, steps);
    hide Run, FileFor;
  }

  // ---- Every verification was vouched for ------------------------------------------------------

  /** How often the status Verified is written. */
  function VerifiedIn(log: seq<Action>): nat
    decreases |log|
  {
    if log == [] then 0
    else
      var last := log[|log| - 1];
      VerifiedIn(log[..|log| - 1]) + if last.WriteStatus? && last.to == Verified then 1 else 0
  }

  /** How often a verify call found the packet complete. */
  function ReadsIn(m: Meta, s: System, steps: seq<Step>): nat
    decreases |steps|
  {
    if steps == [] then 0
    else
      var n := |steps| - 1;
      ReadsIn(m, s, steps[..n]) +
      if steps[n] == ReadStatus && Run(m, s, steps[..n]).w.status == Complete then 1 else 0
  }

  /** How often one found a handoff that passes. */
  function VouchesIn(m: Meta, s: System, steps: seq<Step>): nat
    decreases |steps|
  {
    if steps == [] then 0
    else
      var n := |steps| - 1;
      var handoff := Run(m, s, steps[..n]).w.handoff;
      VouchesIn(m, s, steps[..n]) +
      if steps[n] == ReadHandoff && handoff.Some? && handoff.value.verifiable then 1 else 0
  }

  lemma {:induction false} VerifiedFront(todo: seq<Action>)
    requires todo != []
    ensures VerifiedIn(todo) == VerifiedIn([todo[0]]) + VerifiedIn(todo[1..])
    decreases |todo|
  {
    var n := |todo| - 1;
    assert [todo[0]][..0] == [];
    if n > 0 {
      VerifiedFront(todo[..n]);
      assert todo[..n][1..] == todo[1..][..n - 1] && todo[1..][n - 1] == todo[n];
    }
  }

  lemma {:induction false} NoneVerified(todo: seq<Action>)
    requires forall i :: 0 <= i < |todo| ==> !(todo[i].WriteStatus? && todo[i].to == Verified)
    ensures VerifiedIn(todo) == 0
    decreases |todo|
  {
    if todo != [] { NoneVerified(todo[..|todo| - 1]); }
  }

  lemma PlanVerifies(m: Meta, req: Request, w: World)
    ensures VerifiedIn(Decide(m, req, w).plan) <= if req == Verify then 1 else 0
  {
    var plan := Decide(m, req, w).plan;
    if req == Verify {
      assert plan[..1] == [WriteStatus(Verified, None, {})] && plan[..1][..0] == [];
    } else {
      PlanMay(m, req, w);
      assert forall i :: 0 <= i < |plan| ==> May(m, req, w.accepted, plan[i]);
      NoneVerified(plan);
    }
  }

  /** Verifications written, about to be written, and waiting for the lock. */
  function Claims(s: System): nat { VerifiedIn(s.log) + VerifiedIn(Todo(s)) + s.verifiers }

  lemma ActKeepsClaims(m: Meta, s: System)
    requires Todo(s) != []
    ensures Claims(Written(m, s)) == Claims(s)
  {
    hide Apply, FileAt;
    var a := Todo(s)[0];
    VerifiedFront(Todo(s));
    assert [a][..0] == [];
    assert (s.log + [a])[..|s.log|] == s.log;
    assert Todo(Written(m, s)) == Todo(s)[1..];
    hide Todo;
  }

  lemma StepClaims(m: Meta, s: System, step: Step)
    ensures var n := Next(m, s, step); var vouched := s.w.handoff.Some? && s.w.handoff.value.verifiable;
      && Claims(n) <= Claims(s) + (if step == ReadHandoff && vouched then 1 else 0)
      && Claims(n) + n.readers <=
         Claims(s) + s.readers + (if step == ReadStatus && s.w.status == Complete then 1 else 0)
  {
    hide Decide, Written, Bound;
    match step
    case Take(req) => PlanVerifies(m, req, s.w);
    case Act =>
      if Todo(s) != [] {
        ActKeepsClaims(m, s);
        ActKeepsReaders(m, s);
      }
    case _ =>
  }

  lemma ActKeepsReaders(m: Meta, s: System)
    requires Todo(s) != []
    ensures Written(m, s).readers == s.readers
  {
    hide Apply, FileAt;
  }

  lemma {:induction false} RunClaims(m: Meta, s: System, steps: seq<Step>)
    requires Fresh(m, s)
    ensures var e := Run(m, s, steps);
      Claims(e) <= VouchesIn(m, s, steps) && Claims(e) + e.readers <= ReadsIn(m, s, steps)
    decreases |steps|
  {
    hide Run, Next, Claims;
    if steps == [] {
      FreshClaims(m, s);
    } else {
      var n := |steps| - 1;
      RunClaims(m, s, steps[..n]);
      assert steps == steps[..n] + [steps[n]];
      ThenStep(m, s, steps[..n], steps[n]);
      StepClaims(m, Run(m, s, steps[..n]), steps[n]);
    }
  }

  lemma FreshClaims(m: Meta, s: System)
    requires Fresh(m, s)
    ensures Claims(Run(m, s, [])) == 0 && Run(m, s, []).readers == 0
  {
  }

  /** In every run, as often as Verified was written some verify call had found the packet complete, and had then
      found a handoff that passes. */
  lemma VerificationsAreVouched(m: Meta, s: System, steps: seq<Step>)
    requires Fresh(m, s)
    ensures VerifiedIn(Run(m, s, steps).log) <= VouchesIn(m, s, steps)
    ensures VerifiedIn(Run(m, s, steps).log) <= ReadsIn(m, s, steps)
  {
    RunClaims(m, s, steps);
    hide *;
    ClaimsHold(Run(m, s, steps));
  }

  lemma ClaimsHold(s: System)
    ensures VerifiedIn(s.log) <= Claims(s)
  {
  }

  // ---- What a call leaves ----------------------------------------------------------------------

  /** The session file's name: the app, a dash, and the first 64 characters of the id, with an underscore for
      each that is neither an ASCII letter or digit nor a dash or an underscore. */
  lemma FileName(app: string, session: string)
    ensures var file := FileFor(app, session);
      && app + "-" <= file
      && |file| == |app| + 1 + (if |session| > 64 then 64 else |session|)
      && forall i :: 0 <= i < |file| - |app| - 1 ==>
           var c := session[i];
           file[|app| + 1 + i] ==
           if 'A' <= c <= 'Z' || 'a' <= c <= 'z' || '0' <= c <= '9' || c in {'-', '_'} then c else '_'
  {
  }

  /** The records after one bind: the named file holds the new record, with the verifier it had unless a new one
      is given, and no other file changes. */
  predicate BoundAs(before: map<string, Record>, after: map<string, Record>, file: string, r: Record) {
    && after.Keys == before.Keys + {file}
    && (forall f :: f in before && f != file ==> after[f] == before[f])
    && after[file].app == r.app && after[file].session == r.session && after[file].dispatch == r.dispatch
    && after[file].standing == r.standing
    && (if r.verifier != "" then after[file].verifier == r.verifier
        else after[file].verifier == if file in before then before[file].verifier else "")
  }

  lemma BindLeaves(w: World, app: string, session: string, dispatch: string, standing: Standing, verifier: string)
    ensures var v := Apply(w, BindSession(app, session, dispatch, standing, verifier));
      && v == w.(sessions := v.sessions)
      && BoundAs(w.sessions, v.sessions, FileFor(app, session), Record(app, session, dispatch, standing, verifier))
  {
    hide FileFor;
  }

  method Binding(p: DispatchPacket.Packet, app: string, session: string, dispatch: string, standing: Standing,
                 verifier: string)
    modifies p
    ensures p.Files() == old(p.Files()).(sessions := p.sessions)
    ensures BoundAs(old(p.sessions), p.sessions, FileFor(app, session),
            Record(app, session, dispatch, standing, verifier))
  {
    BindLeaves(p.Files(), app, session, dispatch, standing, verifier);
    p.SessionBind(app, session, dispatch, standing, verifier);
  }

  /** What an accept leaves: the prior handoff and closeout moved into the history, the session named, and bound
      when it has a name. */
  predicate AcceptedAs(m: Meta, w: World, v: World, session: string) {
    && v.status == Working && v.metaStatus == Working && v.accepted == session && v.forced == w.forced
    && (if w.status == Cleared && w.handoff.Some? then
          v.handoff == None && v.closeout == None && v.history == w.history + [Archive(w.handoff, w.closeout)]
        else v.handoff == w.handoff && v.closeout == w.closeout && v.history == w.history)
    && (if session == "" then v.sessions == w.sessions
        else BoundAs(w.sessions, v.sessions, FileFor(m.app, session), Record(m.app, session, m.id, AtWork, m.verifier)))
  }

  lemma ArchiveLeaves(w: World)
    requires w.handoff.Some?
    ensures ApplyAll(w, ArchivePlan(w)) ==
            w.(handoff := None, closeout := None, history := w.history + [Archive(w.handoff, w.closeout)])
  {
    var w1 := Apply(w, MakeHistory);
    var w2 := Apply(w1, MoveHandoff);
    ApplyTwo(w, MakeHistory, MoveHandoff);
    assert w2.history == w.history + [Archive(w.handoff, None)];
    if w.closeout.Some? {
      ApplyAllThen(w, [MakeHistory, MoveHandoff], [MoveCloseout]);
      One(w2, MoveCloseout);
      assert Apply(w2, MoveCloseout).history == w.history + [Archive(w.handoff, w.closeout)];
    } else {
      assert [MakeHistory, MoveHandoff] + [] == [MakeHistory, MoveHandoff];
    }
  }

  lemma One(w: World, a: Action)
    ensures ApplyAll(w, [a]) == Apply(w, a)
  {
    assert [a][1..] == [];
  }

  lemma Untouched(w: World)
    ensures ApplyAll(w, []) == w
  {
  }

  lemma AcceptLeaves(m: Meta, w: World, session: string)
    ensures AcceptedAs(m, w, ApplyAll(w, AcceptPlan(m, session, w)), session)
  {
    var archive := if w.status == Cleared then ArchivePlan(w) else [];
    var begin := [WriteStatus(Working, Some(session), {}), WriteMeta(Working)];
    ApplyAllThen(w, archive + begin, BindPlan(m, session));
    ApplyAllThen(w, archive, begin);
    if w.status == Cleared && w.handoff.Some? { ArchiveLeaves(w); } else { Untouched(w); }
    var w1 := ApplyAll(w, archive);
    ApplyTwo(w1, begin[0], begin[1]);
    var w2 := ApplyAll(w1, begin);
    if session == "" {
      Untouched(w2);
    } else {
      One(w2, BindSession(m.app, session, m.id, AtWork, m.verifier));
      BindLeaves(w2, m.app, session, m.id, AtWork, m.verifier);
      hide BoundAs, FileFor;
    }
  }

  method Accepting(p: DispatchPacket.Packet, app: string, session: string, runner: string) returns (answer: Answer)
    modifies p
    ensures answer ==
            if app != p.meta.app then WrongRecipient
            else if runner != p.meta.runner then WrongRunner
            else if old(p.status) != Pending && old(p.status) != Cleared then InvalidTransition(old(p.status))
            else Done
    ensures if answer == Done then AcceptedAs(p.meta, old(p.Files()), p.Files(), session)
            else p.Files() == old(p.Files())
  {
    AcceptLeaves(p.meta, p.Files(), session);
    Untouched(p.Files());
    hide AcceptedAs, AcceptPlan, ApplyAll;
    answer := p.Accept(app, session, runner);
  }

  method Completing(p: DispatchPacket.Packet, app: string, session: string, doc: Document) returns (answer: Answer)
    modifies p
    ensures answer == Done <==>
            && app == p.meta.app && old(p.status) == Working && old(p.accepted) in {"", session}
            && doc.acceptable && old(p.handoff) == None
    ensures app != p.meta.app ==> answer == WrongRecipient
    ensures app == p.meta.app && old(p.status) == Working && old(p.accepted) !in {"", session} ==>
              answer == OtherSession
    ensures app == p.meta.app && old(p.status) == Working && old(p.accepted) in {"", session} && !doc.acceptable ==>
              answer == BadContent
    ensures answer == Done ==>
              p.Files() == old(p.Files()).(handoff := Some(doc), closeout := Some(doc), status := Complete,
              metaStatus := Complete)
    ensures answer != Done ==> p.Files() == old(p.Files())
  {
    Untouched(p.Files());
    var w := p.Files();
    answer := p.WriteHandoff(app, session, doc);
    if answer == Done { CompletionLeaves(w, doc); }
    hide ApplyAll;
  }

  lemma CompletionLeaves(w: World, doc: Document)
    ensures ApplyAll(w, [CreateHandoff(doc), WriteCloseout(doc)] + SetStatus(Complete)) ==
            w.(handoff := Some(doc), closeout := Some(doc), status := Complete, metaStatus := Complete)
  {
    ApplyAllThen(w, [CreateHandoff(doc), WriteCloseout(doc)], SetStatus(Complete));
    ApplyTwo(w, CreateHandoff(doc), WriteCloseout(doc));
    StatusLeaves(w.(handoff := Some(doc), closeout := Some(doc)), Complete, {});
  }

  lemma StatusLeaves(w: World, to: Status, forced: set<string>)
    ensures ApplyAll(w, [WriteStatus(to, None, forced), WriteMeta(to)]) ==
            w.(status := to, metaStatus := to, forced := if forced != {} then forced else w.forced)
  {
    ApplyTwo(w, WriteStatus(to, None, forced), WriteMeta(to));
  }

  method Verifying(p: DispatchPacket.Packet) returns (answer: Answer)
    modifies p
    ensures answer ==
            if old(p.status) != Complete then NotReady(old(p.status))
            else if old(p.handoff) == None then NoHandoff
            else if !old(p.handoff).value.verifiable then Unverified
            else Done
    ensures p.Files() ==
            if answer == Done then old(p.Files()).(status := Verified, metaStatus := Verified) else old(p.Files())
  {
    Untouched(p.Files());
    StatusLeaves(p.Files(), Verified, {});
    answer := p.VerifyHandoff();
    hide ApplyAll;
  }

  method Clearing(p: DispatchPacket.Packet, target: string, session: string) returns (answer: Answer)
    modifies p
    ensures answer == if old(p.status) in {Complete, Verified} then Done else NotReady(old(p.status))
    ensures answer != Done ==> p.Files() == old(p.Files())
    ensures answer == Done ==>
              && p.Files() == old(p.Files()).(status := Cleared, metaStatus := Cleared, sessions := p.sessions)
              && (if session == "" then p.sessions == old(p.sessions)
                  else BoundAs(old(p.sessions), p.sessions, FileFor(target, session), Record(target, session, "", Idle,
                           "")))
  {
    Untouched(p.Files());
    StatusLeaves(p.Files(), Cleared, {});
    var w := p.Files().(status := Cleared, metaStatus := Cleared);
    BindLeaves(w, target, session, "", Idle, "");
    hide Apply, ApplyAll, BoundAs, FileFor;
    answer := p.AgentClear(target, session);
  }

  /** The file is one of the assignee's and its session is at work on this packet. */
  predicate AtWorkOn(m: Meta, sessions: map<string, Record>, file: string, session: string) {
    && file in sessions && m.app + "-" <= file && sessions[file].session == session
    && sessions[file].dispatch == m.id && sessions[file].standing == AtWork
  }

  /** A session of the assignee stands in the way: a file of its app that is at work on this packet, or the accepting
      session when it has no file. */
  ghost predicate InTheWay(m: Meta, w: World, session: string) {
    || (exists file :: AtWorkOn(m, w.sessions, file, session))
    || (session != "" && session == w.accepted && FileFor(m.app, session) !in w.sessions)
  }

  lemma HoldingIff(m: Meta, w: World, session: string)
    ensures session in Holding(m, w) <==> InTheWay(m, w, session)
  {
    hide FileFor;
    if session in BoundSessions(m, w.sessions) {
      var file :| IsBound(m, w.sessions, file) && w.sessions[file].session == session;
      assert AtWorkOn(m, w.sessions, file, session);
    }
    if file :| AtWorkOn(m, w.sessions, file, session) {
      assert IsBound(m, w.sessions, file);
    }
  }

  method Withdrawing(p: DispatchPacket.Packet, blankReason: bool, force: bool,
                     orchestrator: bool) returns (answer: Answer)
    modifies p
    ensures answer == Done <==>
            && !blankReason
            && (old(p.status) == Pending ||
                (old(p.status) == Working &&
                 ((force && orchestrator) || !exists session :: InTheWay(p.meta, old(p.Files()), session))))
    ensures blankReason ==> answer == ReasonRequired
    ensures !blankReason && old(p.status) == Withdrawn ==> answer == AlreadyWithdrawn
    ensures answer.Busy? ==> forall session :: session in answer.sessions <==>
                                               InTheWay(p.meta, old(p.Files()), session)
    ensures answer != Done ==> p.Files() == old(p.Files())
    ensures answer == Done ==>
              && p.Files() == old(p.Files()).(status := Withdrawn, metaStatus := Withdrawn, forced := p.forced)
              && (old(p.status) == Working && (exists session :: InTheWay(p.meta, old(p.Files()), session)) ==>
                    forall session :: session in p.forced <==> InTheWay(p.meta, old(p.Files()), session))
              && (old(p.status) == Pending || !(exists session :: InTheWay(p.meta, old(p.Files()), session)) ==>
                    p.forced == old(p.forced))
  {
    ghost var w := p.Files();
    ghost var holding := Holding(p.meta, w);
    Untouched(w);
    StatusLeaves(w, Withdrawn, {});
    StatusLeaves(w, Withdrawn, holding);
    forall session ensures session in holding <==> InTheWay(p.meta, w, session) {
      HoldingIff(p.meta, w, session);
    }
    hide ApplyAll, InTheWay, Holding;
    answer := p.DispatchWithdraw(blankReason, force, orchestrator);
  }

  /** The scan finds the assignee's sessions at work on the packet. */
  method Scanning(p: DispatchPacket.Packet) returns (bound: set<string>)
    ensures forall session :: session in bound <==> exists file :: AtWorkOn(p.meta, p.sessions, file, session)
  {
    bound := p.SessionsBoundTo();
    forall session ensures session in bound <==> exists file :: AtWorkOn(p.meta, p.sessions, file, session) {
      if session in bound {
        var file :| IsBound(p.meta, p.sessions, file) && p.sessions[file].session == session;
        assert AtWorkOn(p.meta, p.sessions, file, session);
      }
      if file :| AtWorkOn(p.meta, p.sessions, file, session) {
        assert IsBound(p.meta, p.sessions, file);
      }
    }
  }
}
