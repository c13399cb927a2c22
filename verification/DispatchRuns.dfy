/** Every interleaving of any number of callers of one packet, with crashes and outside session writes. */
module DispatchRuns {
  import opened Wrappers
  import opened DispatchModel

  datatype Holder = Holder(req: Request, todo: seq<Action>)

  /** `readers` counts the verify calls that have seen the packet complete, `verifiers` those that have
      then seen a handoff that passes and want the lock. `log` is every change made under the lock;
      `dropped` what a holder that crashed after the last status write left undone; `straggler` records a
      crash between the two archive renames. `metaFound` is the status in meta.json and `found` the
      accepting session's file as the last status write, respectively the last accept's, found it, and
      `touched` the session files written from outside since then, except before a bind. */
  datatype System = System(
    w: World, holder: Option<Holder>, readers: nat, verifiers: nat,
    log: seq<Action>, dropped: seq<Action>, straggler: bool,
    metaFound: Status, found: Option<Record>, touched: set<string>)

  datatype Step =
    | ReadStatus
    | ReadHandoff
    | Take(req: Request)
    | Act
    | Release
    | Crash
    | Outside(app: string, session: string, dispatch: string, standing: Standing, verifier: string)

  predicate IsAccept(a: Action) { a.WriteStatus? && a.to == Working }

  /** No status write is left to do. */
  predicate StatusDone(todo: seq<Action>) { forall a | a in todo :: !a.WriteStatus? }

  predicate IsClear(a: Action) { a.WriteStatus? && a.to == Cleared }

  /** What whoever holds the lock has still to write. */
  function Todo(s: System): seq<Action> { if s.holder.Some? then s.holder.value.todo else [] }

  /** The holder makes its next change. */
  function Written(m: Meta, s: System): System
    requires Todo(s) != []
  {
    var a := Todo(s)[0];
    s.(w := Apply(s.w, a), holder := Some(Holder(s.holder.value.req, Todo(s)[1..])), log := s.log + [a],
       dropped := if a.WriteStatus? then [] else s.dropped,
       metaFound := if a.WriteStatus? then s.w.metaStatus else s.metaFound,
       found := if IsAccept(a) then FileAt(m, s.w, a) else s.found,
       touched := if IsAccept(a) then {}
                  else if a.BindSession? then s.touched - {FileFor(a.app, a.session)} else s.touched)
  }

  /** The session file an accept is about to bind. */
  function FileAt(m: Meta, w: World, a: Action): Option<Record>
    requires IsAccept(a)
  {
    var file := FileFor(m.app, if a.accepted.Some? then a.accepted.value else w.accepted);
    if file in w.sessions then Some(w.sessions[file]) else None
  }

  /** The holder dies, and the lock with it. */
  function Crashed(s: System): System {
    s.(holder := None, dropped := if StatusDone(Todo(s)) then s.dropped + Todo(s) else s.dropped,
       straggler := s.straggler || (Todo(s) != [] && Todo(s)[0] == MoveCloseout))
  }

  /** Steps that are not enabled change nothing. */
  function Next(m: Meta, s: System, step: Step): System {
    match step
    case ReadStatus => if s.w.status == Complete then s.(readers := s.readers + 1) else s
    case ReadHandoff =>
      if s.readers == 0 then s
      else s.(readers := s.readers - 1, verifiers := s.verifiers + if Vouched(s.w) then 1 else 0)
    case Take(req) =>
      if s.holder.Some? || (req.Verify? && s.verifiers == 0) then s
      else s.(holder := Some(Holder(req, Decide(m, req, s.w).plan)),
              verifiers := if req.Verify? then s.verifiers - 1 else s.verifiers)
    case Act =>
      if Todo(s) == [] then s else Written(m, s)
    case Release =>
      if s.holder.Some? && s.holder.value.todo == [] then s.(holder := None) else s
    case Crash =>
      if s.holder.None? then s else Crashed(s)
    case Outside(app, session, dispatch, standing, verifier) =>
      if dispatch == m.id && standing == AtWork then s
      else s.(w := s.w.(sessions := Bound(s.w.sessions, app, session, dispatch, standing, verifier)),
              touched := s.touched + {FileFor(app, session)})
  }

  function Run(m: Meta, s: System, steps: seq<Step>): System
    decreases |steps|
  {
    if steps == [] then s else Run(m, Next(m, s, steps[0]), steps[1..])
  }

  /** A packet as dispatch_send leaves it: pending, no handoff, no session at work on it. */
  predicate Fresh(m: Meta, s: System) {
    && s.w.status == Pending && s.w.metaStatus == Pending && s.w.accepted == "" && s.w.forced == {}
    && s.w.handoff.None? && s.w.closeout.None? && s.w.history == []
    && BoundSessions(m, s.w.sessions) == {}
    && s.holder.None? && s.readers == 0 && s.verifiers == 0 && s.log == [] && s.dropped == [] && !s.straggler &&
        s.touched == {}
  }

  // ---- What a holder still has to write is always in order -------------------------------------

  predicate Ready(m: Meta, w: World, a: Action) {
    match a
    case MakeHistory => w.status == Cleared && w.handoff.Some?
    case MoveHandoff =>
      && w.status == Cleared && w.handoff.Some?
      && w.history != [] && w.history[|w.history| - 1] == Archive(None, None)
    case MoveCloseout =>
      && w.status == Cleared && w.handoff.None? && w.closeout.Some?
      && w.history != [] && w.history[|w.history| - 1].closeout == None
    case WriteStatus(to, accepted, forced) =>
      && (accepted.Some? <==> to == Working)
      && (forced != {} ==> to == Withdrawn)
      && (match to
          case Working => w.status in {Pending, Cleared} && w.handoff.None?
          case Complete => w.status == Working && w.handoff.Some?
          case Verified => w.status != Pending
          case Cleared => w.status in {Complete, Verified}
          case Withdrawn =>
            && w.status in {Pending, Working}
            && BoundSessions(m, w.sessions) <= if forced != {} then forced else w.forced
          case _ => false)
    case WriteMeta(to) => w.status == to
    case BindSession(app, session, dispatch, standing, _) =>
      && w.status == Working && session != "" && w.accepted == session
      && app == m.app && dispatch == m.id && standing == AtWork
    case CreateHandoff(_) => w.status == Working && w.handoff.None?
    case WriteCloseout(_) => w.status == Working && w.handoff.Some?
  }

  /** The one status write is followed by its meta write, and an accept's also by its bind; the two archive
      renames stand together, a closeout comes right after its handoff, and a bind comes last. */
  predicate Promised(m: Meta, w: World, a: Action, rest: seq<Action>) {
    && (a.WriteStatus? ==> rest != [] && rest[0] == WriteMeta(a.to))
    && (a.WriteStatus? || a.WriteMeta? ==> StatusDone(rest))
    && (rest != [] && rest[0].WriteMeta? ==> a.WriteStatus?)
    && (a.WriteStatus? && a.accepted.Some? && a.accepted.value != "" ==> BindOf(m, a.accepted.value) in rest)
    && (a.MoveHandoff? && w.closeout.Some? ==> rest != [] && rest[0] == MoveCloseout)
    && (rest != [] && rest[0].WriteCloseout? ==> a.CreateHandoff?)
    && (a.BindSession? ==> rest == [])
  }

  function BindOf(m: Meta, session: string): Action { BindSession(m.app, session, m.id, AtWork, m.verifier) }

  predicate InOrder(m: Meta, w: World, todo: seq<Action>)
    decreases |todo|
  {
    todo != [] ==>
      && Ready(m, w, todo[0])
      && Promised(m, w, todo[0], todo[1..])
      && InOrder(m, Apply(w, todo[0]), todo[1..])
  }

  lemma SetStatusInOrder(m: Meta, w: World, to: Status, forced: set<string>)
    requires to != Working && Ready(m, w, WriteStatus(to, None, forced))
    ensures InOrder(m, w, [WriteStatus(to, None, forced), WriteMeta(to)])
  {
    var plan := [WriteStatus(to, None, forced), WriteMeta(to)];
    var w1 := Apply(w, plan[0]);
    assert plan[1..] == [WriteMeta(to)];
    assert InOrder(m, Apply(w1, plan[1]), plan[1..][1..]);
    assert InOrder(m, w1, plan[1..]);
  }

  lemma BeginInOrder(m: Meta, session: string, w: World)
    requires w.status in {Pending, Cleared} && w.handoff.None?
    ensures InOrder(m, w, [WriteStatus(Working, Some(session), {}), WriteMeta(Working)] + BindPlan(m, session))
  {
    var plan := [WriteStatus(Working, Some(session), {}), WriteMeta(Working)] + BindPlan(m, session);
    var w1 := Apply(w, plan[0]);
    var w2 := Apply(w1, plan[1]);
    assert plan[1..] == [WriteMeta(Working)] + BindPlan(m, session);
    assert plan[1..][1..] == BindPlan(m, session);
    assert InOrder(m, w2, BindPlan(m, session)) by {
      if session != "" {
        assert BindPlan(m, session)[1..] == [];
      }
    }
    assert InOrder(m, w1, plan[1..]);
  }

  /** A prefix that does not touch status writes can be checked on its own. */
  lemma PrependInOrder(m: Meta, w: World, a: Action, rest: seq<Action>)
    requires Ready(m, w, a) && Promised(m, w, a, rest) && InOrder(m, Apply(w, a), rest)
    ensures InOrder(m, w, [a] + rest)
  {
    assert ([a] + rest)[1..] == rest;
  }

  lemma AcceptInOrder(m: Meta, session: string, w: World)
    requires w.status in {Pending, Cleared} && (w.status == Pending ==> w.handoff.None?)
    ensures InOrder(m, w, AcceptPlan(m, session, w))
  {
    hide InOrder;
    var begin := [WriteStatus(Working, Some(session), {}), WriteMeta(Working)] + BindPlan(m, session);
    if w.status == Cleared && w.handoff.Some? {
      ArchiveInOrder(m, session, w);
      assert AcceptPlan(m, session, w) == ArchivePlan(w) + begin;
    } else {
      BeginInOrder(m, session, w);
      assert AcceptPlan(m, session, w) == begin;
    }
  }

  lemma ArchiveInOrder(m: Meta, session: string, w: World)
    requires w.status == Cleared && w.handoff.Some?
    ensures InOrder(m, w, ArchivePlan(w) + ([WriteStatus(Working, Some(session), {}), WriteMeta(Working)] +
            BindPlan(m, session)))
  {
    hide InOrder;
    var begin := [WriteStatus(Working, Some(session), {}), WriteMeta(Working)] + BindPlan(m, session);
    var w1 := Apply(w, MakeHistory);
    var w2 := Apply(w1, MoveHandoff);
    if w.closeout.Some? {
      BeginInOrder(m, session, Apply(w2, MoveCloseout));
      PrependInOrder(m, w2, MoveCloseout, begin);
      PrependInOrder(m, w1, MoveHandoff, [MoveCloseout] + begin);
      PrependInOrder(m, w, MakeHistory, [MoveHandoff] + ([MoveCloseout] + begin));
      assert ArchivePlan(w) + begin == [MakeHistory] + ([MoveHandoff] + ([MoveCloseout] + begin));
    } else {
      BeginInOrder(m, session, w2);
      PrependInOrder(m, w1, MoveHandoff, begin);
      PrependInOrder(m, w, MakeHistory, [MoveHandoff] + begin);
      assert ArchivePlan(w) + begin == [MakeHistory] + ([MoveHandoff] + begin);
    }
  }

  lemma HandoffInOrder(m: Meta, w: World, doc: Document)
    requires w.status == Working && w.handoff.None?
    ensures InOrder(m, w, [CreateHandoff(doc), WriteCloseout(doc)] + SetStatus(Complete))
  {
    var w1 := Apply(w, CreateHandoff(doc));
    SetStatusInOrder(m, Apply(w1, WriteCloseout(doc)), Complete, {});
    PrependInOrder(m, w1, WriteCloseout(doc), SetStatus(Complete));
    PrependInOrder(m, w, CreateHandoff(doc), [WriteCloseout(doc)] + SetStatus(Complete));
    assert [CreateHandoff(doc), WriteCloseout(doc)] + SetStatus(Complete) ==
           [CreateHandoff(doc)] + ([WriteCloseout(doc)] + SetStatus(Complete));
  }

  /** A decision made on the packet as it is, is in order on it. */
  lemma DecisionInOrder(m: Meta, req: Request, w: World)
    requires w.status == Pending ==> w.handoff.None? && BoundSessions(m, w.sessions) == {}
    requires req.Verify? ==> w.status != Pending
    ensures InOrder(m, w, Decide(m, req, w).plan)
  {
    hide InOrder, BoundSessions;
    var plan := Decide(m, req, w).plan;
    if plan == [] {
      EmptyInOrder(m, w);
    } else {
      match req
      case Accept(_, session, _) => AcceptInOrder(m, session, w);
      case Handoff(_, _, doc) => HandoffInOrder(m, w, doc);
      case Verify => SetStatusInOrder(m, w, Verified, {});
      case Clear => SetStatusInOrder(m, w, Cleared, {});
      case Withdraw(_, _, _) =>
        if w.status == Pending {
          SetStatusInOrder(m, w, Withdrawn, {});
        } else {
          SetStatusInOrder(m, w, Withdrawn, Holding(m, w));
        }
    }
  }

  lemma EmptyInOrder(m: Meta, w: World)
    ensures InOrder(m, w, [])
  {
  }

  /** No session is at work on the packet in `b` that is not in `a`. */
  ghost predicate Tamer(m: Meta, b: map<string, Record>, a: map<string, Record>) {
    forall file | IsBound(m, b, file) :: IsBound(m, a, file) && b[file].session == a[file].session
  }

  lemma TamerBound(m: Meta, b: map<string, Record>, a: map<string, Record>)
    requires Tamer(m, b, a)
    ensures BoundSessions(m, b) <= BoundSessions(m, a)
  {
  }

  lemma TamerBind(m: Meta, b: map<string, Record>, a: map<string, Record>, app: string, session: string,
                  dispatch: string, standing: Standing, verifier: string)
    requires Tamer(m, b, a)
    ensures Tamer(m, Bound(b, app, session, dispatch, standing, verifier),
            Bound(a, app, session, dispatch, standing, verifier))
  {
  }

  /** A write that does not put a session to work on this packet leaves fewer at work. */
  lemma TamerOutside(m: Meta, a: map<string, Record>, app: string, session: string,
                     dispatch: string, standing: Standing, verifier: string)
    requires !(dispatch == m.id && standing == AtWork)
    ensures Tamer(m, Bound(a, app, session, dispatch, standing, verifier), a)
  {
  }

  /** Outside writes never put an assignee to work on this packet, so they keep the order. */
  lemma {:induction false} OutsideKeepsOrder(m: Meta, w: World, v: World, todo: seq<Action>)
    requires InOrder(m, w, todo)
    requires v == w.(sessions := v.sessions) && Tamer(m, v.sessions, w.sessions)
    ensures InOrder(m, v, todo)
    decreases |todo|
  {
    hide BoundSessions, Tamer;
    if todo != [] {
      var a := todo[0];
      TamerBound(m, v.sessions, w.sessions);
      if a.BindSession? {
        TamerBind(m, v.sessions, w.sessions, a.app, a.session, a.dispatch, a.standing, a.verifier);
      }
      OutsideKeepsOrder(m, Apply(w, a), Apply(v, a), todo[1..]);
    }
  }

  // ---- The invariant ---------------------------------------------------------------------------

  /** The packet was accepted and not cleared since. */
  function AcceptedSinceClear(log: seq<Action>): bool
    decreases |log|
  {
    if log == [] then false
    else
      var last := log[|log| - 1];
      if IsAccept(last) then true
      else if IsClear(last) then false
      else AcceptedSinceClear(log[..|log| - 1])
  }

  function Created(log: seq<Action>): multiset<Document>
    decreases |log|
  {
    if log == [] then multiset{}
    else
      var last := log[|log| - 1];
      Created(log[..|log| - 1]) + if last.CreateHandoff? then multiset{last.handoff} else multiset{}
  }

  function Rendered(log: seq<Action>): multiset<Document>
    decreases |log|
  {
    if log == [] then multiset{}
    else
      var last := log[|log| - 1];
      Rendered(log[..|log| - 1]) + if last.WriteCloseout? then multiset{last.closeout} else multiset{}
  }

  function Held(d: Option<Document>): multiset<Document> {
    if d.Some? then multiset{d.value} else multiset{}
  }

  function HandoffsIn(history: seq<Archive>): multiset<Document>
    decreases |history|
  {
    if history == [] then multiset{}
    else HandoffsIn(history[..|history| - 1]) + Held(history[|history| - 1].handoff)
  }

  function CloseoutsIn(history: seq<Archive>): multiset<Document>
    decreases |history|
  {
    if history == [] then multiset{}
    else CloseoutsIn(history[..|history| - 1]) + Held(history[|history| - 1].closeout)
  }

  predicate PendingIsClean(m: Meta, s: System) {
    s.w.status == Pending ==>
      && s.w.handoff.None? && BoundSessions(m, s.w.sessions) == {}
      && s.readers == 0 && s.verifiers == 0
  }

  /** Every session still at work on a withdrawn packet is on its forced-over list. */
  predicate WithdrawnNamesBound(m: Meta, s: System) {
    s.w.status == Withdrawn ==> BoundSessions(m, s.w.sessions) <= s.w.forced
  }

  /** The accepting session's file is this accept's bind, or was rewritten from outside afterwards. */
  predicate AcceptIsBound(m: Meta, s: System) {
    var file := FileFor(m.app, s.w.accepted);
    && file in s.w.sessions
    && (file in s.touched || OwnRecord(m, s.w.sessions[file], s.w.accepted))
  }

  predicate OwnRecord(m: Meta, r: Record, session: string) {
    r.app == m.app && r.session == session && r.dispatch == m.id && r.standing == AtWork
  }

  /** The bind of the accepting session is still to come, or was dropped. */
  predicate Unbound(m: Meta, s: System) {
    BindOf(m, s.w.accepted) in Todo(s) || BindOf(m, s.w.accepted) in s.dropped
  }

  /** Until the bind, the accepting session's file is the one the accept found, or an outside write. */
  predicate StillFound(m: Meta, s: System) {
    var file := FileFor(m.app, s.w.accepted);
    file in s.touched ||
    (if s.found.Some? then file in s.w.sessions && s.w.sessions[file] == s.found.value else file !in s.w.sessions)
  }

  predicate AcceptAgrees(m: Meta, s: System) {
    s.w.status == Working && s.w.accepted != "" ==>
      if Unbound(m, s) then StillFound(m, s) else AcceptIsBound(m, s)
  }

  /** An accept that has written its status has no crash behind it. */
  predicate BindingAlone(s: System) {
    && s.touched <= s.w.sessions.Keys
    && (s.w.status == Working && (exists a :: a in Todo(s) && a.BindSession?) ==>
        s.dropped == [] && StatusDone(Todo(s)))
  }

  /** meta.json has the status, or still has what the last status write found there. */
  predicate MetaAgrees(s: System) {
    && (if WriteMeta(s.w.status) in s.dropped then s.w.metaStatus == s.metaFound
        else s.w.metaStatus == s.w.status || AboutToWriteMeta(s))
    && (AboutToWriteMeta(s) ==>
          s.w.metaStatus == s.metaFound && s.dropped == [] && StatusDone(Todo(s)) &&
              Todo(s)[0] == WriteMeta(s.w.status))
  }

  predicate AboutToWriteMeta(s: System) { Todo(s) != [] && Todo(s)[0].WriteMeta? }

  predicate HandoffsKept(s: System) {
    Created(s.log) == Held(s.w.handoff) + HandoffsIn(s.w.history)
  }

  predicate CloseoutsKept(s: System) {
    Rendered(s.log) == Held(s.w.closeout) + CloseoutsIn(s.w.history)
  }

  /** A closeout stands beside its handoff, except between the two archive renames. */
  predicate CloseoutStands(s: System) {
    s.w.closeout.Some? ==>
      && (s.w.handoff.Some? || (Todo(s) != [] && Todo(s)[0] == MoveCloseout))
      && (Todo(s) != [] ==> !Todo(s)[0].WriteCloseout?)
  }

  predicate Good(m: Meta, s: System) {
    && InOrder(m, s.w, Todo(s))
    && (AcceptedSinceClear(s.log) ==> s.w.status !in {Pending, Cleared})
    && PendingIsClean(m, s)
    && WithdrawnNamesBound(m, s)
    && AcceptAgrees(m, s)
    && BindingAlone(s)
    && MetaAgrees(s)
    && HandoffsKept(s)
    && (!s.straggler ==> CloseoutsKept(s) && CloseoutStands(s))
  }

  lemma FreshIsGood(m: Meta, s: System)
    requires Fresh(m, s)
    ensures Good(m, s)
  {
  }

  // ---- One write under the lock ----------------------------------------------------------------

  predicate Acts(s: System) { Todo(s) != [] }

  lemma ActKeepsOrder(m: Meta, s: System)
    requires Good(m, s) && Acts(s)
    ensures InOrder(m, Written(m, s).w, Todo(Written(m, s)))
  {
  }

  lemma ActKeepsAlternation(m: Meta, s: System)
    requires Good(m, s) && Acts(s)
    ensures var t := Written(m, s); AcceptedSinceClear(t.log) ==> t.w.status !in {Pending, Cleared}
  {
    hide InOrder, BoundSessions, AcceptAgrees, MetaAgrees, HandoffsKept, CloseoutsKept, CloseoutStands;
    NextIsReady(m, s);
    var t := Written(m, s);
    assert t.log[..|t.log| - 1] == s.log;
  }

  /** Only a write under the lock touches the packet's own files. */
  lemma OnlyActWrites(m: Meta, s: System, step: Step)
    ensures if step.Act? && Acts(s) then Next(m, s, step) == Written(m, s)
            else Next(m, s, step).w == s.w.(sessions := Next(m, s, step).w.sessions) && Next(m, s, step).log == s.log
  {
    hide Bound, Decide, BoundSessions;
  }

  lemma NextIsReady(m: Meta, s: System)
    requires Good(m, s) && Acts(s)
    ensures Ready(m, s.w, Todo(s)[0]) && Promised(m, s.w, Todo(s)[0], Todo(s)[1..])
  {
  }

  lemma ActKeepsSessions(m: Meta, s: System)
    requires Good(m, s) && Acts(s)
    ensures var t := Written(m, s); PendingIsClean(m, t) && WithdrawnNamesBound(m, t)
  {
    hide InOrder, BoundSessions, AcceptAgrees, MetaAgrees, HandoffsKept, CloseoutsKept, CloseoutStands;
    NextIsReady(m, s);
  }

  lemma ActKeepsBinding(m: Meta, s: System)
    requires Good(m, s) && Acts(s)
    ensures BindingAlone(Written(m, s))
  {
    NextIsReady(m, s);
    assert BindingAlone(s);
    hide Good, InOrder, BoundSessions;
    assert forall a | a in Todo(s)[1..] :: a in Todo(s);
  }

  lemma ActKeepsAccept(m: Meta, s: System)
    requires Good(m, s) && Acts(s)
    ensures AcceptAgrees(m, Written(m, s))
  {
    NextIsReady(m, s);
    GoodAccept(m, s);
    var a := Todo(s)[0];
    hide Good, Written, Ready, Promised, AcceptAgrees, BindingAlone, Unbound, StillFound, AcceptIsBound;
    if a.BindSession? {
      BindIsOwn(m, s);
      BoundAgrees(m, Written(m, s));
    } else if IsAccept(a) {
      AcceptStarts(m, s);
    } else {
      OthersAgree(m, s);
    }
  }

  lemma GoodAccept(m: Meta, s: System)
    requires Good(m, s)
    ensures AcceptAgrees(m, s) && BindingAlone(s)
  {
  }

  lemma BoundAgrees(m: Meta, t: System)
    requires AcceptIsBound(m, t) && !Unbound(m, t)
    ensures AcceptAgrees(m, t)
  {
    hide AcceptIsBound, Unbound, StillFound;
  }

  /** An accept's status write finds the session's file as it is. */
  lemma AcceptStarts(m: Meta, s: System)
    requires Acts(s) && IsAccept(Todo(s)[0])
    requires Ready(m, s.w, Todo(s)[0]) && Promised(m, s.w, Todo(s)[0], Todo(s)[1..])
    ensures AcceptAgrees(m, Written(m, s))
  {
    hide BoundSessions, FileFor, StatusDone;
    var t := Written(m, s);
    assert Todo(t) == Todo(s)[1..];
    if t.w.accepted != "" {
      assert BindOf(m, t.w.accepted) in Todo(t);
      assert StillFound(m, t);
    }
  }

  /** No other change touches what agrees. */
  lemma OthersAgree(m: Meta, s: System)
    requires Acts(s) && !Todo(s)[0].BindSession? && !IsAccept(Todo(s)[0]) && AcceptAgrees(m, s)
    requires Ready(m, s.w, Todo(s)[0])
    ensures AcceptAgrees(m, Written(m, s))
  {
    hide BoundSessions, FileFor, FileAt, Bound, OwnRecord;
    var t := Written(m, s);
    var a := Todo(s)[0];
    if !a.WriteStatus? {
      assert t.w.status == s.w.status && t.w.accepted == s.w.accepted && t.w.sessions == s.w.sessions;
      assert Todo(s) == [a] + Todo(t);
      assert BindOf(m, s.w.accepted) in Todo(s) <==> BindOf(m, s.w.accepted) in Todo(t);
    }
  }

  /** A bind under the lock leaves the accepting session's own record. */
  lemma BindIsOwn(m: Meta, s: System)
    requires Acts(s) && Todo(s)[0].BindSession? && BindingAlone(s)
    requires Ready(m, s.w, Todo(s)[0]) && Promised(m, s.w, Todo(s)[0], Todo(s)[1..])
    ensures var t := Written(m, s);
      t.w.status == Working && t.w.accepted == s.w.accepted && AcceptIsBound(m, t) && !Unbound(m, t)
  {
    assert Todo(s)[0] in Todo(s);
  }

  lemma ActKeepsMeta(m: Meta, s: System)
    requires Good(m, s) && Acts(s)
    ensures MetaAgrees(Written(m, s))
  {
    hide InOrder, BoundSessions, PendingIsClean, WithdrawnNamesBound, AcceptAgrees, HandoffsKept, CloseoutsKept,
        CloseoutStands;
    NextIsReady(m, s);
    var a := Todo(s)[0];
    assert Todo(s) == [a] + Todo(s)[1..];
  }

  /** The current papers after a change. */
  lemma PapersAfter(w: World, a: Action)
    requires a.MoveHandoff? || a.MoveCloseout? ==> w.history != []
    ensures Apply(w, a).handoff ==
            if a.MoveHandoff? then None else if a.CreateHandoff? then Some(a.handoff) else w.handoff
    ensures Apply(w, a).closeout ==
            if a.MoveCloseout? then None else if a.WriteCloseout? then Some(a.closeout) else w.closeout
  {
    hide Bound;
  }

  lemma WriteKeepsHandoffs(m: Meta, w: World, log: seq<Action>, a: Action)
    requires Ready(m, w, a) && Created(log) == Held(w.handoff) + HandoffsIn(w.history)
    ensures Created(log + [a]) == Held(Apply(w, a).handoff) + HandoffsIn(Apply(w, a).history)
  {
    hide Ready, Created, HandoffsIn, Rendered, CloseoutsIn, Apply;
    ReadyMoves(m, w, a);
    LogAfter(log, a);
    HistoryAfter(w, a);
    PapersAfter(w, a);
  }

  lemma ActKeepsHandoffs(m: Meta, s: System)
    requires Good(m, s) && Acts(s)
    ensures HandoffsKept(Written(m, s))
  {
    NextIsReady(m, s);
    assert HandoffsKept(s);
    hide Good, Created, HandoffsIn, Ready, Promised, Apply;
    WriteKeepsHandoffs(m, s.w, s.log, Todo(s)[0]);
  }

  lemma LogAfter(log: seq<Action>, a: Action)
    ensures Created(log + [a]) == Created(log) + if a.CreateHandoff? then multiset{a.handoff} else multiset{}
    ensures Rendered(log + [a]) == Rendered(log) + if a.WriteCloseout? then multiset{a.closeout} else multiset{}
  {
    assert (log + [a])[..|log + [a]| - 1] == log;
  }

  /** What one change does to the archived documents. */
  lemma HistoryAfter(w: World, a: Action)
    requires a.MoveHandoff? ==> w.history != [] && w.history[|w.history| - 1].handoff.None?
    requires a.MoveCloseout? ==> w.history != [] && w.history[|w.history| - 1].closeout.None?
    ensures HandoffsIn(Apply(w, a).history) == HandoffsIn(w.history) +
            if a.MoveHandoff? then Held(w.handoff) else multiset{}
    ensures CloseoutsIn(Apply(w, a).history) == CloseoutsIn(w.history) +
            if a.MoveCloseout? then Held(w.closeout) else multiset{}
  {
    hide Bound, HandoffsIn, CloseoutsIn;
    var n := |w.history| - 1;
    var h := Apply(w, a).history;
    if a.MakeHistory? {
      assert h == w.history + [Archive(None, None)];
      hide Apply;
      ArchivePush(w.history, Archive(None, None));
    } else if a.MoveHandoff? {
      assert h == w.history[..n] + [w.history[n].(handoff := w.handoff)];
      hide Apply, Held;
      ReplaceLast(w.history, w.history[n].(handoff := w.handoff));
    } else if a.MoveCloseout? {
      assert h == w.history[..n] + [w.history[n].(closeout := w.closeout)];
      hide Apply, Held;
      ReplaceLast(w.history, w.history[n].(closeout := w.closeout));
    } else {
      assert h == w.history;
    }
  }

  lemma ReplaceLast(history: seq<Archive>, a: Archive)
    requires history != []
    ensures var n := |history| - 1; var h := history[..n] + [a];
      && (history[n].handoff.None? ==> HandoffsIn(h) == HandoffsIn(history) + Held(a.handoff))
      && (history[n].handoff == a.handoff ==> HandoffsIn(h) == HandoffsIn(history))
      && (history[n].closeout.None? ==> CloseoutsIn(h) == CloseoutsIn(history) + Held(a.closeout))
      && (history[n].closeout == a.closeout ==> CloseoutsIn(h) == CloseoutsIn(history))
  {
    ArchivePush(history[..|history| - 1], a);
  }

  lemma ArchivePush(history: seq<Archive>, a: Archive)
    ensures HandoffsIn(history + [a]) == HandoffsIn(history) + Held(a.handoff)
    ensures CloseoutsIn(history + [a]) == CloseoutsIn(history) + Held(a.closeout)
  {
    assert (history + [a])[..|history|] == history;
  }

  /** An archive rename finds its place empty. */
  lemma ReadyMoves(m: Meta, w: World, a: Action)
    requires Ready(m, w, a)
    ensures a.MoveHandoff? ==> w.history != [] && w.history[|w.history| - 1].handoff.None?
    ensures a.MoveCloseout? ==> w.history != [] && w.history[|w.history| - 1].closeout.None?
    ensures a.CreateHandoff? ==> w.handoff.None?
  {
    hide BoundSessions;
  }

  lemma WriteKeepsCloseouts(m: Meta, w: World, log: seq<Action>, a: Action)
    requires Ready(m, w, a) && Rendered(log) == Held(w.closeout) + CloseoutsIn(w.history)
    requires a.WriteCloseout? ==> w.closeout.None?
    ensures Rendered(log + [a]) == Held(Apply(w, a).closeout) + CloseoutsIn(Apply(w, a).history)
  {
    hide Ready, Created, HandoffsIn, Rendered, CloseoutsIn, Apply;
    ReadyMoves(m, w, a);
    LogAfter(log, a);
    HistoryAfter(w, a);
    PapersAfter(w, a);
  }

  lemma ActKeepsCloseouts(m: Meta, s: System)
    requires Good(m, s) && Acts(s) && !s.straggler
    ensures CloseoutsKept(Written(m, s))
  {
    NextIsReady(m, s);
    assert CloseoutsKept(s) && CloseoutStands(s);
    hide Good, Rendered, CloseoutsIn, Ready, Promised, Apply;
    WriteKeepsCloseouts(m, s.w, s.log, Todo(s)[0]);
  }

  lemma ActKeepsStanding(m: Meta, s: System)
    requires Good(m, s) && Acts(s) && !s.straggler
    ensures CloseoutStands(Written(m, s))
  {
    NextIsReady(m, s);
    assert CloseoutStands(s);
    hide Good, Rendered, CloseoutsIn, BoundSessions, Bound;
  }

  // ---- Every step ------------------------------------------------------------------------------

  lemma PlanStart(m: Meta, req: Request, w: World)
    ensures var plan := Decide(m, req, w).plan; plan != [] ==> !plan[0].WriteCloseout? && !plan[0].WriteMeta?
    ensures w.status == Working ==> forall a | a in Decide(m, req, w).plan :: !a.BindSession?
  {
  }

  lemma TakeKeepsGood(m: Meta, s: System, req: Request)
    requires Good(m, s)
    ensures Good(m, Next(m, s, Take(req)))
  {
    hide InOrder, BoundSessions, Created, Rendered, HandoffsIn, CloseoutsIn, AcceptedSinceClear;
    if s.holder.None? && (req.Verify? ==> s.verifiers > 0) {
      DecisionInOrder(m, req, s.w);
      PlanStart(m, req, s.w);
      hide Decide;
    }
  }

  /** A meta write further on comes after a status write. */
  lemma {:induction false} MetaAfterStatus(m: Meta, w: World, todo: seq<Action>)
    requires InOrder(m, w, todo) && StatusDone(todo)
    ensures forall i | 0 < i < |todo| :: !todo[i].WriteMeta?
    decreases |todo|
  {
    if todo != [] {
      assert todo[0] in todo && forall a | a in todo[1..] :: a in todo;
      MetaAfterStatus(m, Apply(w, todo[0]), todo[1..]);
      forall i | 0 < i < |todo| ensures !todo[i].WriteMeta? {
        assert todo[i] == todo[1..][i - 1];
      }
    }
  }

  lemma CrashKeepsMeta(m: Meta, s: System)
    requires Good(m, s)
    ensures MetaAgrees(Crashed(s))
  {
    assert MetaAgrees(s);
    if StatusDone(Todo(s)) {
      MetaAfterStatus(m, s.w, Todo(s));
      assert forall a | a in Todo(s) && a.WriteMeta? :: a == Todo(s)[0];
    }
    hide Good, InOrder, BoundSessions;
  }

  lemma CrashKeepsAccept(m: Meta, s: System)
    requires Good(m, s)
    ensures AcceptAgrees(m, Crashed(s)) && BindingAlone(Crashed(s))
  {
    assert AcceptAgrees(m, s) && BindingAlone(s);
    hide Good, InOrder, BoundSessions;
    if BindOf(m, s.w.accepted) in Todo(s) {
      var bind := BindOf(m, s.w.accepted);
      assert bind.BindSession?;
    }
  }

  lemma CrashKeepsGood(m: Meta, s: System)
    requires Good(m, s)
    ensures Good(m, Next(m, s, Crash))
  {
    CrashKeepsMeta(m, s);
    CrashKeepsAccept(m, s);
    assert Next(m, s, Crash) == s || Next(m, s, Crash) == Crashed(s);
    EmptyInOrder(m, s.w);
    hide Next, InOrder, BoundSessions, MetaAgrees, AcceptAgrees, BindingAlone, StatusDone;
    hide Created, Rendered, HandoffsIn, CloseoutsIn, AcceptedSinceClear;
  }

  lemma OutsideKeepsGood(m: Meta, s: System, app: string, session: string, dispatch: string, standing: Standing,
                         verifier: string)
    requires Good(m, s)
    ensures Good(m, Next(m, s, Outside(app, session, dispatch, standing, verifier)))
  {
    hide InOrder, BoundSessions, Tamer, Created, Rendered, HandoffsIn, CloseoutsIn, AcceptedSinceClear, Decide;
    var t := Next(m, s, Outside(app, session, dispatch, standing, verifier));
    if !(dispatch == m.id && standing == AtWork) {
      TamerOutside(m, s.w.sessions, app, session, dispatch, standing, verifier);
      TamerBound(m, t.w.sessions, s.w.sessions);
      OutsideKeepsOrder(m, s.w, t.w, Todo(s));
    }
  }

  lemma ActKeepsGood(m: Meta, s: System)
    requires Good(m, s) && Acts(s)
    ensures Good(m, Written(m, s))
  {
    ActKeepsOrder(m, s);
    ActKeepsAlternation(m, s);
    ActKeepsSessions(m, s);
    ActKeepsAccept(m, s);
    ActKeepsBinding(m, s);
    ActKeepsMeta(m, s);
    ActKeepsHandoffs(m, s);
    if !s.straggler {
      ActKeepsCloseouts(m, s);
      ActKeepsStanding(m, s);
    }
    hide InOrder, AcceptedSinceClear, PendingIsClean, WithdrawnNamesBound, AcceptAgrees, BindingAlone, MetaAgrees,
        HandoffsKept, CloseoutsKept, CloseoutStands, Apply, FileAt;
  }

  /** A step that leaves the files, the todo list and the records of crashes alone, and adds readers only to a
      packet that is no longer pending. */
  lemma SameFilesKeepGood(m: Meta, s: System, t: System)
    requires Good(m, s) && Todo(t) == Todo(s)
    requires t == s.(holder := t.holder, readers := t.readers, verifiers := t.verifiers)
    requires s.w.status == Pending ==> t.readers == 0 && t.verifiers == 0
    ensures Good(m, t)
  {
    hide InOrder, AcceptedSinceClear, BoundSessions, Created, Rendered, HandoffsIn, CloseoutsIn, FileFor, StatusDone;
  }

  /** Steps that write nothing. */
  lemma ReadKeepsGood(m: Meta, s: System, step: Step)
    requires Good(m, s) && (step.ReadStatus? || step.ReadHandoff? || step.Release?)
    ensures Good(m, Next(m, s, step))
  {
    if s.w.status == Pending { NoReaders(m, s); }
    hide Good, Vouched;
    SameFilesKeepGood(m, s, Next(m, s, step));
  }

  lemma NoReaders(m: Meta, s: System)
    requires Good(m, s) && s.w.status == Pending
    ensures s.readers == 0 && s.verifiers == 0
  {
  }

  lemma StepKeepsGood(m: Meta, s: System, step: Step)
    requires Good(m, s)
    ensures Good(m, Next(m, s, step))
  {
    hide Good, Written, Crashed, Decide, Bound;
    match step
    case Take(req) => TakeKeepsGood(m, s, req);
    case Act => if Acts(s) { ActKeepsGood(m, s); }
    case Crash => CrashKeepsGood(m, s);
    case Outside(app, session, dispatch, standing, verifier) =>
      OutsideKeepsGood(m, s, app, session, dispatch, standing, verifier);
    case _ => ReadKeepsGood(m, s, step);
  }

  lemma {:induction false} RunKeepsGood(m: Meta, s: System, steps: seq<Step>)
    requires Good(m, s)
    ensures Good(m, Run(m, s, steps))
    decreases |steps|
  {
    hide Good, Next;
    if steps != [] {
      StepKeepsGood(m, s, steps[0]);
      RunKeepsGood(m, Next(m, s, steps[0]), steps[1..]);
    }
  }

  lemma {:induction false} RunThen(m: Meta, s: System, first: seq<Step>, rest: seq<Step>)
    ensures Run(m, s, first + rest) == Run(m, Run(m, s, first), rest)
    decreases |first|
  {
    hide Next;
    if first == [] {
      assert first + rest == rest;
    } else {
      assert (first + rest)[1..] == first[1..] + rest;
      RunThen(m, Next(m, s, first[0]), first[1..], rest);
    }
  }

  // ---- Accepts ---------------------------------------------------------------------------------

  /** Between any two accepts in the log stands a clear. */
  predicate AcceptsSeparated(log: seq<Action>) {
    forall i, j | 0 <= i < j < |log| && IsAccept(log[i]) && IsAccept(log[j]) ::
      exists k :: i < k < j && IsClear(log[k])
  }

  lemma {:induction false} OpenSince(log: seq<Action>, i: nat)
    requires i < |log| && IsAccept(log[i]) && !AcceptedSinceClear(log)
    ensures exists k :: i < k < |log| && IsClear(log[k])
    decreases |log|
  {
    var n := |log| - 1;
    if !IsClear(log[n]) {
      OpenSince(log[..n], i);
      var k :| i < k < n && IsClear(log[..n][k]);
      assert IsClear(log[k]);
    }
  }

  /** A change made while accepts are separated keeps them so, unless it is an accept in an open packet. */
  lemma LogSeparates(log: seq<Action>, a: Action)
    requires AcceptsSeparated(log) && (IsAccept(a) ==> !AcceptedSinceClear(log))
    ensures AcceptsSeparated(log + [a])
  {
    hide AcceptedSinceClear;
    var all, n := log + [a], |log|;
    forall i, j | 0 <= i < j < |all| && IsAccept(all[i]) && IsAccept(all[j])
      ensures exists k :: i < k < j && IsClear(all[k])
    {
      if j == n { OpenSince(log, i); }
      var k :| i < k < j && IsClear(log[k]);
      assert IsClear(all[k]);
    }
  }

  lemma OpenIsNotAccepted(m: Meta, s: System)
    requires Good(m, s) && Acts(s)
    ensures IsAccept(Todo(s)[0]) ==> !AcceptedSinceClear(s.log)
  {
    NextIsReady(m, s);
    hide BoundSessions;
  }

  lemma StepSeparates(m: Meta, s: System, step: Step)
    requires Good(m, s) && AcceptsSeparated(s.log)
    ensures AcceptsSeparated(Next(m, s, step).log)
  {
    OnlyActWrites(m, s, step);
    if step.Act? && Acts(s) {
      OpenIsNotAccepted(m, s);
      LogSeparates(s.log, Todo(s)[0]);
      assert Next(m, s, step).log == s.log + [Todo(s)[0]] by { hide Good, AcceptsSeparated, Apply, FileAt; }
      hide *;
    } else {
      assert Next(m, s, step).log == s.log;
    }
  }

  lemma {:induction false} RunSeparates(m: Meta, s: System, steps: seq<Step>)
    requires Good(m, s) && AcceptsSeparated(s.log)
    ensures AcceptsSeparated(Run(m, s, steps).log)
    decreases |steps|
  {
    hide Good, Next, AcceptsSeparated;
    if steps != [] {
      StepSeparates(m, s, steps[0]);
      StepKeepsGood(m, s, steps[0]);
      RunSeparates(m, Next(m, s, steps[0]), steps[1..]);
    }
  }

  /** In every interleaving, two accepts that took effect are separated by a clear. */
  lemma TwoAcceptsNeedAClear(m: Meta, s: System, steps: seq<Step>)
    requires Fresh(m, s)
    ensures AcceptsSeparated(Run(m, s, steps).log)
  {
    FreshIsGood(m, s);
    RunSeparates(m, s, steps);
  }

  /** The accepting session changes only at the status write of an accept, to that accept's session. */
  lemma OnlyAcceptNamesTheSession(m: Meta, s: System, step: Step)
    requires Good(m, s)
    ensures Next(m, s, step).w.accepted != s.w.accepted ==>
              && step == Act && Acts(s) && IsAccept(Todo(s)[0])
              && s.w.status in {Pending, Cleared} && Todo(s)[0].accepted == Some(Next(m, s, step).w.accepted)
  {
    OnlyActWrites(m, s, step);
    if step.Act? && Acts(s) { NextIsReady(m, s); }
    hide Good, Next, BoundSessions, Bound;
  }

  /** Steps of the lock holder alone. */
  predicate Inside(steps: seq<Step>) { forall x | x in steps :: x in {Act, Release, Crash} }

  lemma {:induction false} NothingToDo(m: Meta, s: System, steps: seq<Step>)
    requires Inside(steps) && Todo(s) == []
    ensures Run(m, s, steps).w == s.w && Run(m, s, steps).log == s.log
    decreases |steps|
  {
    if steps != [] {
      assert steps[0] in steps && forall x | x in steps[1..] :: x in steps;
      NothingToDo(m, Next(m, s, steps[0]), steps[1..]);
    }
  }

  /** An accept that does not find the packet pending or cleared changes no file, however it ends. */
  lemma LosingAcceptChangesNothing(m: Meta, s: System, app: string, session: string, runner: string, steps: seq<Step>)
    requires s.holder.None? && s.w.status !in {Pending, Cleared} && Inside(steps)
    ensures Run(m, s, [Take(Accept(app, session, runner))] + steps).w == s.w
    ensures Run(m, s, [Take(Accept(app, session, runner))] + steps).log == s.log
  {
    var all := [Take(Accept(app, session, runner))] + steps;
    assert all[1..] == steps;
    NothingToDo(m, Next(m, s, all[0]), steps);
  }

  /** Whoever finds the lock free on an accepted packet finds the session file of this accept, or a later
      outside write to it, except exactly when the accept crashed before its bind, nobody wrote the file
      since, and the file the accept had found was not already the session's own at work on this packet. */
  lemma FreeLockShowsWholeAcceptIff(m: Meta, s: System, steps: seq<Step>)
    requires Fresh(m, s)
    ensures var t := Run(m, s, steps);
      t.holder.None? && t.w.status == Working && t.w.accepted != "" ==>
      (AcceptIsBound(m, t) <==>
         !(BindOf(m, t.w.accepted) in t.dropped && FileFor(m.app, t.w.accepted) !in t.touched &&
           !(t.found.Some? && OwnRecord(m, t.found.value, t.w.accepted))))
  {
    FreshIsGood(m, s);
    RunKeepsGood(m, s, steps);
  }

  /** A torn accept leaves no session file; an unforced withdraw then still refuses. */
  lemma TornAcceptIsBusy(m: Meta, w: World, force: bool, orchestrator: bool)
    requires w.status == Working && w.accepted != "" && FileFor(m.app, w.accepted) !in w.sessions
    ensures Decide(m, Withdraw(false, force, orchestrator), w).answer != Done <==> !(force && orchestrator)
    ensures w.accepted in Holding(m, w)
  {
  }

  // ---- Withdrawal ------------------------------------------------------------------------------

  /** The one step that takes a packet out of `withdrawn`: a verify that read it before writing. */
  predicate StaleVerify(s: System, step: Step) {
    step == Act && Acts(s) && Todo(s)[0].WriteStatus? && Todo(s)[0].to == Verified
  }

  lemma WithdrawnLeavesOnlyByStaleVerify(m: Meta, s: System, step: Step)
    requires Good(m, s) && s.w.status == Withdrawn
    ensures Next(m, s, step).w.status != Withdrawn <==> StaleVerify(s, step)
  {
    OnlyActWrites(m, s, step);
    if step.Act? && Acts(s) { NextIsReady(m, s); }
    hide Good, Next, BoundSessions, Bound;
    hide Good, BoundSessions, Bound, Decide;
  }

  /** No verify that has read the packet can still write: none wants the lock, none that saw the packet
      complete would find a handoff that passes, and the lock holder has no verified status to write. */
  predicate NoVerifyUnderWay(s: System) {
    && s.verifiers == 0
    && (s.readers > 0 ==> !Vouched(s.w))
    && (forall a | a in Todo(s) :: a.WriteStatus? ==> a.to != Verified)
  }

  /** On a withdrawn packet only a verify has a status or handoff to change. */
  lemma WithdrawnWrites(m: Meta, w: World, a: Action)
    requires Ready(m, w, a) && w.status == Withdrawn && (a.WriteStatus? ==> a.to != Verified)
    ensures Apply(w, a).status == Withdrawn && Apply(w, a).handoff == w.handoff
  {
    hide BoundSessions, Bound;
  }

  lemma ActAddsNoVerify(m: Meta, s: System)
    requires Good(m, s) && Acts(s) && NoVerifyUnderWay(s) && s.w.status == Withdrawn
    ensures NoVerifyUnderWay(Written(m, s)) && Written(m, s).w.status == Withdrawn
  {
    hide Good, Promised, Ready, Apply, FileAt;
    NextIsReady(m, s);
    assert Todo(s)[0] in Todo(s) && forall a | a in Todo(s)[1..] :: a in Todo(s);
    WithdrawnWrites(m, s.w, Todo(s)[0]);
    var t := Written(m, s);
    assert t.w == Apply(s.w, Todo(s)[0]) && Todo(t) == Todo(s)[1..];
    assert t.verifiers == s.verifiers && t.readers == s.readers;
    hide Written;
  }

  lemma TakeAddsNoVerify(m: Meta, s: System, req: Request)
    requires NoVerifyUnderWay(s) && s.w.status == Withdrawn
    ensures NoVerifyUnderWay(Next(m, s, Take(req))) && Next(m, s, Take(req)).w.status == Withdrawn
  {
    assert Decide(m, req, s.w).plan == [] || req.Verify?;
    hide Decide;
  }

  lemma StepAddsNoVerify(m: Meta, s: System, step: Step)
    requires Good(m, s) && NoVerifyUnderWay(s) && s.w.status == Withdrawn
    ensures NoVerifyUnderWay(Next(m, s, step)) && Next(m, s, step).w.status == Withdrawn
  {
    hide Good, Bound, Decide;
    if step.Act? && Acts(s) {
      ActAddsNoVerify(m, s);
      hide Written, NoVerifyUnderWay;
    } else if step.Take? {
      TakeAddsNoVerify(m, s, step.req);
    }
  }

  lemma {:induction false} StaysWithdrawn(m: Meta, s: System, steps: seq<Step>)
    requires Good(m, s) && s.w.status == Withdrawn && NoVerifyUnderWay(s)
    ensures Run(m, s, steps).w.status == Withdrawn
    decreases |steps|
  {
    hide Good, Next, NoVerifyUnderWay;
    if steps != [] {
      StepAddsNoVerify(m, s, steps[0]);
      StepKeepsGood(m, s, steps[0]);
      StaysWithdrawn(m, Next(m, s, steps[0]), steps[1..]);
    }
  }

  /** A holder with a verified status to write gets there. */
  lemma {:induction false} HolderVerifies(m: Meta, s: System) returns (steps: seq<Step>)
    requires exists a :: a in Todo(s) && a.WriteStatus? && a.to == Verified
    ensures Run(m, s, steps).w.status == Verified
    decreases |Todo(s)|
  {
    var t := Written(m, s);
    RunOne(m, s, Act);
    if Todo(s)[0].WriteStatus? && Todo(s)[0].to == Verified {
      steps := [Act];
    } else {
      var a :| a in Todo(s) && a.WriteStatus? && a.to == Verified;
      assert Todo(s) == [Todo(s)[0]] + Todo(s)[1..];
      assert a in Todo(t);
      var rest := HolderVerifies(m, t);
      steps := [Act] + rest;
      assert steps[1..] == rest;
    }
  }

  /** A verify that wants the lock gets it, if only because the holder crashes. */
  lemma WaiterVerifies(m: Meta, s: System) returns (steps: seq<Step>)
    requires s.verifiers > 0
    ensures Run(m, s, steps).w.status == Verified
  {
    var t := Next(m, s, Crash);
    assert t.holder.None? && t.verifiers > 0;
    var u := Next(m, t, Take(Verify));
    assert Todo(u)[0] == WriteStatus(Verified, None, {});
    assert Todo(u)[0] in Todo(u);
    var rest := HolderVerifies(m, u);
    steps := [Crash] + ([Take(Verify)] + rest);
    assert steps[1..] == [Take(Verify)] + rest && ([Take(Verify)] + rest)[1..] == rest;
  }

  lemma VerifyGetsThrough(m: Meta, s: System) returns (steps: seq<Step>)
    requires !NoVerifyUnderWay(s)
    ensures Run(m, s, steps).w.status == Verified
  {
    if s.verifiers > 0 {
      steps := WaiterVerifies(m, s);
    } else if s.readers > 0 && Vouched(s.w) {
      var rest := WaiterVerifies(m, Next(m, s, ReadHandoff));
      steps := [ReadHandoff] + rest;
      assert steps[1..] == rest;
    } else {
      steps := HolderVerifies(m, s);
    }
  }

  /** `withdrawn` is terminal exactly when no verify is under way: from such a state no run leaves it, and
      from any other some run does. */
  lemma WithdrawnIsTerminalIff(m: Meta, s: System)
    requires Good(m, s) && s.w.status == Withdrawn
    ensures (forall steps :: Run(m, s, steps).w.status == Withdrawn) <==> NoVerifyUnderWay(s)
  {
    hide Good, NoVerifyUnderWay, Run;
    if NoVerifyUnderWay(s) {
      forall steps ensures Run(m, s, steps).w.status == Withdrawn { StaysWithdrawn(m, s, steps); }
    } else {
      var steps := VerifyGetsThrough(m, s);
      assert Run(m, s, steps).w.status != Withdrawn;
    }
  }

  lemma StepNeverPends(m: Meta, s: System, step: Step)
    requires Good(m, s) && Next(m, s, step).w.status == Pending
    ensures s.w.status == Pending
  {
    OnlyActWrites(m, s, step);
    if step.Act? && Acts(s) { NextIsReady(m, s); }
    hide Good, Next, BoundSessions, Bound;
  }

  /** Nothing returns to `pending`. */
  lemma {:induction false} NeverPendingAgain(m: Meta, s: System, steps: seq<Step>)
    requires Good(m, s) && s.w.status != Pending
    ensures Run(m, s, steps).w.status != Pending
    decreases |steps|
  {
    hide Good, Next;
    if steps != [] {
      if Next(m, s, steps[0]).w.status == Pending { StepNeverPends(m, s, steps[0]); }
      StepKeepsGood(m, s, steps[0]);
      NeverPendingAgain(m, Next(m, s, steps[0]), steps[1..]);
    }
  }

  lemma NobodyBound(m: Meta, sessions: map<string, Record>, file: string)
    requires BoundSessions(m, sessions) == {}
    ensures !IsBound(m, sessions, file)
  {
    var bound := BoundSessions(m, sessions);
    assert forall f :: IsBound(m, sessions, f) ==> sessions[f].session in bound;
  }

  /** In every run, a withdrawn packet names every assignee session still at work on it;
      one withdrawn without force has none. */
  lemma WithdrawnStrandsNobody(m: Meta, s: System, steps: seq<Step>)
    requires Fresh(m, s)
    ensures var t := Run(m, s, steps);
      t.w.status == Withdrawn ==> BoundSessions(m, t.w.sessions) <= t.w.forced
    ensures var t := Run(m, s, steps);
      t.w.status == Withdrawn && t.w.forced == {} ==> forall file :: !IsBound(m, t.w.sessions, file)
  {
    FreshIsGood(m, s);
    RunKeepsGood(m, s, steps);
    var t := Run(m, s, steps);
    if t.w.status == Withdrawn && t.w.forced == {} {
      forall file ensures !IsBound(m, t.w.sessions, file) {
        assert BoundSessions(m, t.w.sessions) == {};
        NobodyBound(m, t.w.sessions, file);
      }
    }
  }

  // ---- Handoffs --------------------------------------------------------------------------------

  /** Every handoff ever created exists exactly once, as the current one or in history, at every
      crash point. */
  lemma HandoffsAreConserved(m: Meta, s: System, steps: seq<Step>)
    requires Fresh(m, s)
    ensures var t := Run(m, s, steps); Created(t.log) == Held(t.w.handoff) + HandoffsIn(t.w.history)
  {
    FreshIsGood(m, s);
    RunKeepsGood(m, s, steps);
  }

  /** A handoff write that finds an old closeout in its way. */
  predicate Overwrites(s: System, step: Step) {
    step == Act && Acts(s) && Todo(s)[0].WriteCloseout? && s.w.closeout.Some?
  }

  function LostBy(s: System, step: Step): multiset<Document> {
    if Overwrites(s, step) then multiset{s.w.closeout.value} else multiset{}
  }

  /** The closeouts a run writes over. */
  function Lost(m: Meta, s: System, steps: seq<Step>): multiset<Document>
    decreases |steps|
  {
    if steps == [] then multiset{} else LostBy(s, steps[0]) + Lost(m, Next(m, s, steps[0]), steps[1..])
  }

  /** The closeouts there are. */
  function Kept(w: World): multiset<Document> { Held(w.closeout) + CloseoutsIn(w.history) }

  lemma Regroup(r: multiset<Document>, one: multiset<Document>, held: multiset<Document>, c: multiset<Document>)
    ensures (r + one) + (held + c) == r + (one + c) + held
    ensures r + (held + c) == r + (multiset{} + (c + held)) + multiset{}
    ensures r + (held + c) == r + (held + c) + multiset{}
  {
  }

  lemma WriteAccounts(m: Meta, w: World, log: seq<Action>, a: Action)
    requires Ready(m, w, a)
    ensures Rendered(log + [a]) + Kept(w) ==
            Rendered(log) + Kept(Apply(w, a)) + if a.WriteCloseout? then Held(w.closeout) else multiset{}
  {
    hide Ready, Created, HandoffsIn, Rendered, CloseoutsIn, Apply, Held;
    ReadyMoves(m, w, a);
    LogAfter(log, a);
    HistoryAfter(w, a);
    PapersAfter(w, a);
    NoneHeld();
    var one := if a.WriteCloseout? then multiset{a.closeout} else multiset{};
    Regroup(Rendered(log), one, Held(w.closeout), CloseoutsIn(w.history));
    if a.WriteCloseout? { OneHeld(a.closeout); }
  }

  lemma NoneHeld()
    ensures Held(None) == multiset{}
  {
  }

  lemma OneHeld(d: Document)
    ensures Held(Some(d)) == multiset{d}
  {
  }

  lemma StepAccounts(m: Meta, s: System, step: Step)
    requires Good(m, s)
    ensures var t := Next(m, s, step);
      Rendered(t.log) + Kept(s.w) == Rendered(s.log) + Kept(t.w) + LostBy(s, step)
  {
    OnlyActWrites(m, s, step);
    if step.Act? && Acts(s) {
      NextIsReady(m, s);
      hide Good, Next, Ready, Promised, Apply, Rendered, Kept;
      WriteAccounts(m, s.w, s.log, Todo(s)[0]);
    } else {
      hide Good, Next, Rendered, CloseoutsIn;
    }
  }

  /** Two accounts in a row. */
  lemma AccountsAdd(r0: multiset<Document>, k0: multiset<Document>, r1: multiset<Document>, k1: multiset<Document>,
                    r2: multiset<Document>, k2: multiset<Document>, a: multiset<Document>, b: multiset<Document>)
    requires r1 + k0 == r0 + k1 + a && r2 + k1 == r1 + k2 + b
    ensures r2 + k0 == r0 + k2 + (a + b)
  {
    forall x ensures (r2 + k0)[x] == (r0 + k2 + (a + b))[x] {
      assert (r1 + k0)[x] == (r0 + k1 + a)[x] && (r2 + k1)[x] == (r1 + k2 + b)[x];
    }
  }

  /** Every closeout ever written exists exactly once, as the current one or in history, or was written
      over: at every crash point of every run. */
  lemma {:induction false} CloseoutsAccounted(m: Meta, s: System, steps: seq<Step>)
    requires Good(m, s)
    ensures var t := Run(m, s, steps); Rendered(t.log) + Kept(s.w) == Rendered(s.log) + Kept(t.w) + Lost(m, s, steps)
    decreases |steps|
  {
    hide Good, Next, Rendered, Kept, LostBy;
    if steps != [] {
      var t := Next(m, s, steps[0]);
      var u := Run(m, t, steps[1..]);
      StepAccounts(m, s, steps[0]);
      StepKeepsGood(m, s, steps[0]);
      CloseoutsAccounted(m, t, steps[1..]);
      AccountsAdd(Rendered(s.log), Kept(s.w), Rendered(t.log), Kept(t.w), Rendered(u.log), Kept(u.w),
                  LostBy(s, steps[0]), Lost(m, t, steps[1..]));
    }
  }

  lemma {:induction false} NothingLostIff(m: Meta, s: System, steps: seq<Step>)
    ensures Lost(m, s, steps) == multiset{} <==>
            forall k | 0 <= k < |steps| :: !Overwrites(Run(m, s, steps[..k]), steps[k])
    decreases |steps|
  {
    hide Next, Overwrites;
    if steps != [] {
      var t, rest := Next(m, s, steps[0]), steps[1..];
      NothingLostIff(m, t, rest);
      assert LostBy(s, steps[0]) == multiset{} <==> !Overwrites(s, steps[0]);
      assert steps[..0] == [];
      forall k | 0 <= k < |rest| ensures Run(m, s, steps[..k + 1]) == Run(m, t, rest[..k]) && steps[k + 1] == rest[k] {
        assert steps[..k + 1][1..] == rest[..k];
      }
      if forall k | 0 <= k < |steps| :: !Overwrites(Run(m, s, steps[..k]), steps[k]) {
        assert !Overwrites(Run(m, s, steps[..0]), steps[0]);
        forall k | 0 <= k < |rest| ensures !Overwrites(Run(m, t, rest[..k]), rest[k]) {
          assert !Overwrites(Run(m, s, steps[..k + 1]), steps[k + 1]);
        }
      } else {
        var k :| 0 <= k < |steps| && Overwrites(Run(m, s, steps[..k]), steps[k]);
        if k > 0 { assert Overwrites(Run(m, t, rest[..k - 1]), rest[k - 1]); }
      }
    }
  }

  /** Every closeout is kept exactly in the runs in which no handoff write finds an old closeout in its way. */
  lemma CloseoutsAreConservedIff(m: Meta, s: System, steps: seq<Step>)
    requires Fresh(m, s)
    ensures CloseoutsKept(Run(m, s, steps)) <==>
            forall k | 0 <= k < |steps| :: !Overwrites(Run(m, s, steps[..k]), steps[k])
  {
    FreshIsGood(m, s);
    NothingKeptYet(m, s);
    CloseoutsAccounted(m, s, steps);
    NothingLostIff(m, s, steps);
    hide Run, Lost, Overwrites, Rendered, Kept, Fresh, Good, CloseoutsKept;
    var t := Run(m, s, steps);
    NothingBefore(Rendered(t.log), Kept(t.w), Lost(m, s, steps));
    SumsDiffer(Kept(t.w), Lost(m, s, steps));
    KeptIs(t);
  }

  lemma NothingKeptYet(m: Meta, s: System)
    requires Fresh(m, s)
    ensures Kept(s.w) == multiset{} && Rendered(s.log) == multiset{}
  {
  }

  lemma NothingBefore(r: multiset<Document>, k: multiset<Document>, l: multiset<Document>)
    ensures r + multiset{} == multiset{} + k + l ==> r == k + l
  {
    assert r + multiset{} == r && multiset{} + k + l == k + l;
  }

  lemma KeptIs(s: System)
    ensures CloseoutsKept(s) <==> Rendered(s.log) == Kept(s.w)
  {
    hide Rendered, CloseoutsIn;
  }

  lemma SumsDiffer(a: multiset<Document>, b: multiset<Document>)
    ensures a + b == a <==> b == multiset{}
  {
    if b != multiset{} {
      var x :| x in b;
      assert (a + b)[x] > a[x];
    }
  }

  /** A closeout is in the way only after a crash between the two archive renames. */
  lemma OnlyStragglersAreLost(m: Meta, s: System, steps: seq<Step>, step: Step)
    requires Fresh(m, s)
    ensures Overwrites(Run(m, s, steps), step) ==> Run(m, s, steps).straggler
  {
    FreshIsGood(m, s);
    RunKeepsGood(m, s, steps);
    hide InOrder, BoundSessions;
  }

  /** A packet that becomes `working` starts with no handoff. */
  lemma AcceptedPacketStartsClean(m: Meta, s: System, step: Step)
    requires Good(m, s)
    ensures s.w.status != Working && Next(m, s, step).w.status == Working ==> Next(m, s, step).w.handoff.None?
  {
    OnlyActWrites(m, s, step);
    if step.Act? && Acts(s) { NextIsReady(m, s); }
    hide Good, Next, BoundSessions, Bound;
  }

  /** status.json and meta.json agree when the lock is free, except exactly when a holder crashed between
      them and meta.json had another status before. */
  lemma FreeLockAgreesWithMetaIff(m: Meta, s: System, steps: seq<Step>)
    requires Fresh(m, s)
    ensures var t := Run(m, s, steps);
      t.holder.None? ==>
      (t.w.metaStatus == t.w.status <==> !(WriteMeta(t.w.status) in t.dropped && t.metaFound != t.w.status))
  {
    FreshIsGood(m, s);
    RunKeepsGood(m, s, steps);
  }

  // ---- Uninterrupted calls, and the runs that show what crashes and stale reads do --------------

  function Writes(n: nat): seq<Step> { seq(n, _ => Act) }

  lemma {:induction false} ActAll(m: Meta, s: System)
    requires s.holder.Some?
    ensures var t := Run(m, s, Writes(|Todo(s)|));
      && t.w == ApplyAll(s.w, Todo(s)) && t.log == s.log + Todo(s)
      && t.holder == Some(Holder(s.holder.value.req, [])) && t.verifiers == s.verifiers
    decreases |Todo(s)|
  {
    hide Apply, Decide, Bound;
    var n := |Todo(s)|;
    if n > 0 {
      assert Writes(n)[0] == Act && Writes(n)[1..] == Writes(n - 1);
      var t := Written(m, s);
      assert Todo(t) == Todo(s)[1..];
      ActAll(m, t);
      assert s.log + Todo(s) == t.log + Todo(t);
    }
  }

  /** One call from taking the lock to giving it up, with nobody in between. */
  function Call(m: Meta, s: System, req: Request): seq<Step> {
    [Take(req)] + Writes(|Decide(m, req, s.w).plan|) + [Release]
  }

  lemma CallRuns(m: Meta, s: System, req: Request)
    requires s.holder.None? && (req.Verify? ==> s.verifiers > 0)
    ensures var t := Run(m, s, Call(m, s, req)); var plan := Decide(m, req, s.w).plan;
      && t.holder.None? && t.w == ApplyAll(s.w, plan) && t.log == s.log + plan
      && t.verifiers == s.verifiers - if req.Verify? then 1 else 0
  {
    hide Decide;
    var plan := Decide(m, req, s.w).plan;
    var s1 := Next(m, s, Take(req));
    assert Call(m, s, req) == [Take(req)] + (Writes(|plan|) + [Release]);
    assert Call(m, s, req)[1..] == Writes(|plan|) + [Release];
    ActAll(m, s1);
    RunThen(m, s1, Writes(|plan|), [Release]);
    var t := Run(m, s1, Writes(|plan|));
    assert Run(m, t, [Release]) == Next(m, t, Release) by { assert [Release][1..] == []; }
  }

  /** A call that starts after some steps. */
  lemma ThenCall(m: Meta, s: System, steps: seq<Step>, req: Request)
    requires var t := Run(m, s, steps); t.holder.None? && (req.Verify? ==> t.verifiers > 0)
    ensures var t := Run(m, s, steps);
      var u := Run(m, s, steps + Call(m, t, req));
      var plan := Decide(m, req, t.w).plan;
      && u.holder.None? && u.w == ApplyAll(t.w, plan) && u.log == t.log + plan
      && u.verifiers == t.verifiers - if req.Verify? then 1 else 0
  {
    hide Decide, Call;
    var t := Run(m, s, steps);
    RunThen(m, s, steps, Call(m, t, req));
    CallRuns(m, t, req);
  }

  lemma {:induction false} RunOne(m: Meta, s: System, step: Step)
    ensures Run(m, s, [step]) == Next(m, s, step)
  {
    assert [step][1..] == [];
  }

  lemma ThenStep(m: Meta, s: System, steps: seq<Step>, step: Step)
    ensures Run(m, s, steps + [step]) == Next(m, Run(m, s, steps), step)
  {
    RunThen(m, s, steps, [step]);
    RunOne(m, Run(m, s, steps), step);
  }

  /** A call that only moves the status. */
  lemma ThenStatus(m: Meta, s: System, steps: seq<Step>, req: Request, to: Status)
    requires var t := Run(m, s, steps); t.holder.None? && (req.Verify? ==> t.verifiers > 0)
    requires Decide(m, req, Run(m, s, steps).w).plan == [WriteStatus(to, None, {}), WriteMeta(to)]
    ensures var t := Run(m, s, steps); var u := Run(m, s, steps + Call(m, t, req));
      && u.holder.None? && u.w == t.w.(status := to, metaStatus := to) && t.log <= u.log
      && u.verifiers == t.verifiers - if req.Verify? then 1 else 0
  {
    hide Run, Decide, Call, ApplyAll;
    ThenCall(m, s, steps, req);
    ApplyTwo(Run(m, s, steps).w, WriteStatus(to, None, {}), WriteMeta(to));
  }

  lemma ApplyFour(w: World, a: Action, b: Action, c: Action, d: Action)
    ensures ApplyAll(w, [a, b, c, d]) == Apply(Apply(Apply(Apply(w, a), b), c), d)
  {
    assert [a, b, c, d] == [a, b] + [c, d];
    ApplyAllThen(w, [a, b], [c, d]);
    ApplyTwo(w, a, b);
    ApplyTwo(Apply(Apply(w, a), b), c, d);
  }

  /** One cycle without a session: accept a packet that has no handoff, hand it off. */
  lemma OpenCycle(m: Meta, s: System, steps: seq<Step>, doc: Document) returns (more: seq<Step>)
    requires var t := Run(m, s, steps); t.holder.None? && t.w.status in {Pending, Cleared} && t.w.handoff.None?
    requires doc.acceptable
    ensures var t := Run(m, s, steps); var u := Run(m, s, more);
      && u.holder.None? && u.verifiers == t.verifiers
      && u.w.status == Complete && u.w.handoff == Some(doc) && u.w.closeout == Some(doc) && u.w.history == t.w.history
      && WriteCloseout(doc) in u.log && t.log <= u.log && u.w.sessions == t.w.sessions
  {
    hide Run, Decide, Call;
    var t := Run(m, s, steps);
    var req1 := Accept(m.app, "", m.runner);
    AcceptPlain(m, t.w);
    ThenCall(m, s, steps, req1);
    ApplyTwo(t.w, WriteStatus(Working, Some(""), {}), WriteMeta(Working));
    var steps2 := steps + Call(m, t, req1);
    var t2 := Run(m, s, steps2);
    var req2 := Handoff(m.app, "", doc);
    HandoffPlain(m, t2.w, doc);
    ThenCall(m, s, steps2, req2);
    ApplyFour(t2.w, CreateHandoff(doc), WriteCloseout(doc), WriteStatus(Complete, None, {}), WriteMeta(Complete));
    more := steps2 + Call(m, t2, req2);
  }

  lemma AcceptPlain(m: Meta, w: World)
    requires w.status in {Pending, Cleared} && w.handoff.None?
    ensures Decide(m, Accept(m.app, "", m.runner), w).plan == [WriteStatus(Working, Some(""), {}), WriteMeta(Working)]
  {
  }

  lemma HandoffPlain(m: Meta, w: World, doc: Document)
    requires w.status == Working && w.accepted == "" && doc.acceptable && w.handoff.None?
    ensures Decide(m, Handoff(m.app, "", doc), w).plan ==
            [CreateHandoff(doc), WriteCloseout(doc), WriteStatus(Complete, None, {}), WriteMeta(Complete)]
  {
  }

  lemma WithdrawPlain(m: Meta, w: World)
    requires w.status == Working && w.accepted == "" && BoundSessions(m, w.sessions) == {}
    ensures Decide(m, Withdraw(false, false, false), w).plan == [WriteStatus(Withdrawn, None, {}), WriteMeta(Withdrawn)]
  {
    assert Holding(m, w) == {};
  }

  lemma ReacceptPlain(m: Meta, w: World)
    requires w.status == Cleared && w.handoff.Some? && w.closeout.Some?
    ensures Decide(m, Accept(m.app, "", m.runner), w).plan ==
            [MakeHistory, MoveHandoff, MoveCloseout] + [WriteStatus(Working, Some(""), {}), WriteMeta(Working)]
    ensures var u := ApplyAll(w, Decide(m, Accept(m.app, "", m.runner), w).plan);
      u.status == Working && u.accepted == "" && u.sessions == w.sessions
  {
    var archive, begin := [MakeHistory, MoveHandoff, MoveCloseout],
        [WriteStatus(Working, Some(""), {}), WriteMeta(Working)];
    assert Decide(m, Accept(m.app, "", m.runner), w).plan == archive + begin;
    ApplyAllThen(w, archive, begin);
    var v := ApplyAll(w, archive);
    ArchiveKeeps(w, archive);
    ApplyTwo(v, begin[0], begin[1]);
  }

  lemma {:induction false} ArchiveKeeps(w: World, plan: seq<Action>)
    requires forall a | a in plan :: a.MakeHistory? || a.MoveHandoff? || a.MoveCloseout?
    ensures ApplyAll(w, plan).sessions == w.sessions && ApplyAll(w, plan).status == w.status
    decreases |plan|
  {
    if plan != [] {
      assert forall a | a in plan[1..] :: a in plan;
      ArchiveKeeps(Apply(w, plan[0]), plan[1..]);
    }
  }

  /** One cycle to the end: accepted, handed off, cleared; `verifying` lets a verify read it in between. */
  lemma ClosedCycle(m: Meta, s: System, doc: Document, verifying: bool) returns (more: seq<Step>)
    requires Fresh(m, s) && doc.acceptable && doc.verifiable
    ensures var u := Run(m, s, more);
      && u.holder.None? && u.verifiers == (if verifying then 1 else 0)
      && u.w.status == Cleared && u.w.handoff == Some(doc) && u.w.closeout == Some(doc) && u.w.history == []
      && u.w.sessions == s.w.sessions && WriteCloseout(doc) in u.log
  {
    hide Decide, Call;
    assert Run(m, s, []) == s;
    hide Run;
    more := OpenCycle(m, s, [], doc);
    if verifying {
      ThenStep(m, s, more, ReadStatus);
      ThenStep(m, s, more + [ReadStatus], ReadHandoff);
      more := more + [ReadStatus] + [ReadHandoff];
    }
    var t := Run(m, s, more);
    assert Decide(m, Clear, t.w).plan == [WriteStatus(Cleared, None, {}), WriteMeta(Cleared)] by { ClearPlain(m, t.w); }
    ThenStatus(m, s, more, Clear, Cleared);
    more := more + Call(m, t, Clear);
  }

  lemma ClearPlain(m: Meta, w: World)
    requires w.status == Complete
    ensures Decide(m, Clear, w).plan == [WriteStatus(Cleared, None, {}), WriteMeta(Cleared)]
  {
  }

  /** A verify that read the first cycle can write over the second cycle's withdrawal: verify_handoff
      does not read the status again under the lock. */
  lemma StaleVerifyLiftsWithdrawn(m: Meta, s: System, doc: Document) returns (steps: seq<Step>)
    requires Fresh(m, s) && doc.acceptable && doc.verifiable
    ensures Run(m, s, steps).w.status == Withdrawn
    ensures Run(m, s, steps + Call(m, Run(m, s, steps), Verify)).w.status == Verified
  {
    hide Run, Decide, Call, Apply, ApplyAll;
    steps := ClosedCycle(m, s, doc, true);
    var t := Run(m, s, steps);
    var again := Accept(m.app, "", m.runner);
    ReacceptPlain(m, t.w);
    ThenCall(m, s, steps, again);
    steps := steps + Call(m, t, again);
    var u := Run(m, s, steps);
    var out := Withdraw(false, false, false);
    WithdrawPlain(m, u.w);
    ThenStatus(m, s, steps, out, Withdrawn);
    steps := steps + Call(m, u, out);
    var v := Run(m, s, steps);
    VerifyPlain(m, v.w);
    ThenStatus(m, s, steps, Verify, Verified);
  }

  lemma VerifyPlain(m: Meta, w: World)
    ensures Decide(m, Verify, w).plan == [WriteStatus(Verified, None, {}), WriteMeta(Verified)]
  {
  }

  lemma {:induction false} RenderedHas(log: seq<Action>, doc: Document)
    requires WriteCloseout(doc) in log
    ensures doc in Rendered(log)
    decreases |log|
  {
    var n := |log| - 1;
    if log[n] != WriteCloseout(doc) {
      assert log == log[..n] + [log[n]];
      RenderedHas(log[..n], doc);
    }
  }

  /** A crash between the two archive renames leaves the old closeout in place, and the next handoff
      writes over it: that closeout is then nowhere. */
  lemma StragglerIsLost(m: Meta, s: System, first: Document, second: Document) returns (steps: seq<Step>)
    requires Fresh(m, s) && first != second && first.acceptable && first.verifiable && second.acceptable
    ensures var t := Run(m, s, steps);
      && first in Rendered(t.log)
      && first !in Held(t.w.closeout) + CloseoutsIn(t.w.history)
      && first in Held(t.w.handoff) + HandoffsIn(t.w.history)
  {
    hide Run, Call;
    steps := ClosedCycle(m, s, first, false);
    var t0 := Run(m, s, steps);
    var again := Accept(m.app, "", m.runner);
    ReacceptPlain(m, t0.w);
    var torn := CrashBetween(m, s, steps, again);
    var t1 := Run(m, s, torn);
    hide Decide;
    steps := OpenCycle(m, s, torn, second);
    var t := Run(m, s, steps);
    assert WriteCloseout(first) in t1.log && t.log == t1.log + t.log[|t1.log|..];
    RenderedHas(t.log, first);
    assert t.w.history == [Archive(Some(first), None)];
    assert t.w.history[..0] == [];
    assert HandoffsIn(t.w.history) == Held(Some(first)) && CloseoutsIn(t.w.history) == multiset{};
  }

  /** Take the lock, archive the handoff, crash. */
  lemma CrashBetween(m: Meta, s: System, steps: seq<Step>, req: Request) returns (more: seq<Step>)
    requires Run(m, s, steps).holder.None? && Run(m, s, steps).w.history == [] && !req.Verify?
    requires var plan := Decide(m, req, Run(m, s, steps).w).plan;
             |plan| >= 3 && plan[0] == MakeHistory && plan[1] == MoveHandoff
    ensures var t := Run(m, s, steps); var u := Run(m, s, more);
      && u.holder.None? && u.log == t.log + [MakeHistory, MoveHandoff] && u.verifiers == t.verifiers
      && u.w == t.w.(history := [Archive(t.w.handoff, None)], handoff := None)
  {
    hide Run, Decide, Next;
    var t := Run(m, s, steps);
    var a := steps + [Take(req)];
    var c := a + [Act] + [Act];
    ThenStep(m, s, steps, Take(req));
    ThenStep(m, s, a, Act);
    ThenStep(m, s, a + [Act], Act);
    ThenStep(m, s, c, Crash);
    more := c + [Crash];
    ArchiveAndCrash(m, t, req);
  }

  lemma TakeThen(m: Meta, t: System, req: Request)
    requires t.holder.None? && !req.Verify?
    ensures Next(m, t, Take(req)) == t.(holder := Some(Holder(req, Decide(m, req, t.w).plan)))
  {
    hide Decide;
  }

  /** A holder's write, when it is no status write and no bind. */
  lemma ActThen(m: Meta, t: System, req: Request, plan: seq<Action>)
    requires t.holder == Some(Holder(req, plan)) && plan != []
    requires !plan[0].WriteStatus? && !plan[0].BindSession?
    ensures Next(m, t, Act) ==
            t.(w := Apply(t.w, plan[0]), holder := Some(Holder(req, plan[1..])), log := t.log + [plan[0]])
  {
    hide Apply, FileAt;
  }

  lemma ArchiveAndCrash(m: Meta, t: System, req: Request)
    requires t.holder.None? && t.w.history == [] && !req.Verify?
    requires var plan := Decide(m, req, t.w).plan; |plan| >= 3 && plan[0] == MakeHistory && plan[1] == MoveHandoff
    ensures var u := Next(m, Next(m, Next(m, Next(m, t, Take(req)), Act), Act), Crash);
      && u.holder.None? && u.log == t.log + [MakeHistory, MoveHandoff] && u.verifiers == t.verifiers
      && u.w == t.w.(history := [Archive(t.w.handoff, None)], handoff := None)
  {
    hide Decide, StatusDone, Apply, Next;
    var plan := Decide(m, req, t.w).plan;
    var t1 := Next(m, t, Take(req));
    TakeThen(m, t, req);
    ActThen(m, t1, req, plan);
    var t2 := Next(m, t1, Act);
    assert plan[1..][0] == plan[1];
    ActThen(m, t2, req, plan[1..]);
    CrashThen(m, Next(m, t2, Act));
    HandoffArchived(t.w);
  }

  lemma HandoffArchived(w: World)
    requires w.history == []
    ensures Apply(Apply(w, MakeHistory), MoveHandoff) ==
            w.(history := [Archive(w.handoff, None)], handoff := None)
  {
    var made := Apply(w, MakeHistory);
    assert made.history == [Archive(None, None)] && made.history[..0] == [];
  }

  lemma CrashThen(m: Meta, t: System)
    requires t.holder.Some?
    ensures var u := Next(m, t, Crash); u.holder.None? && u.w == t.w && u.log == t.log && u.verifiers == t.verifiers
  {
  }

  /** A crash between an accept's status write and its bind: the lock is free, the packet is
      `working`, and its session has no file. */
  lemma TornAccept(m: Meta, s: System, session: string) returns (steps: seq<Step>)
    requires Fresh(m, s) && session != "" && FileFor(m.app, session) !in s.w.sessions
    ensures var t := Run(m, s, steps);
      && t.holder.None? && t.w.status == Working && t.w.accepted == session
      && FileFor(m.app, session) !in t.w.sessions
  {
    assert Run(m, s, []) == s;
    hide Run;
    var req := Accept(m.app, session, m.runner);
    ThenStep(m, s, [], Take(req));
    var a := [] + [Take(req)];
    assert Decide(m, req, s.w).plan[0] == WriteStatus(Working, Some(session), {});
    ThenStep(m, s, a, Act);
    ThenStep(m, s, a + [Act], Crash);
    steps := a + [Act] + [Crash];
  }
}
