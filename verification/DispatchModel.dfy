/** One dispatch packet: its files, the session records beside it, and what each caller decides
    to write once it holds the packet's lock. */
module DispatchModel {
  import opened Wrappers

  datatype Status = Pending | Working | Complete | Verified | Cleared | Closed | Failed | Withdrawn

  datatype Standing = AtWork | Idle | Ended

  /** One session file. */
  datatype Record = Record(app: string, session: string, dispatch: string, standing: Standing, verifier: string)

  /** A handoff; the two flags are the verdicts of the content checks at write and at verify time. */
  datatype Document = Document(body: string, acceptable: bool, verifiable: bool)

  /** One directory under history/. */
  datatype Archive = Archive(handoff: Option<Document>, closeout: Option<Document>)

  /** What dispatch_send fixed about the packet. */
  datatype Meta = Meta(id: string, app: string, runner: string, verifier: string)

  datatype World = World(
    status: Status, accepted: string, forced: set<string>, metaStatus: Status,
    handoff: Option<Document>, closeout: Option<Document>, history: seq<Archive>,
    sessions: map<string, Record>)

  /** The atomic file changes: one create, rename or link each. */
  datatype Action =
    | MakeHistory
    | MoveHandoff
    | MoveCloseout
    | WriteStatus(to: Status, accepted: Option<string>, forced: set<string>)
    | WriteMeta(meta: Status)
    | BindSession(app: string, session: string, dispatch: string, standing: Standing, verifier: string)
    | CreateHandoff(handoff: Document)
    | WriteCloseout(closeout: Document)

  datatype Request =
    | Accept(app: string, session: string, runner: string)
    | Handoff(app: string, session: string, doc: Document)
    | Verify
    | Clear
    | Withdraw(blankReason: bool, force: bool, orchestrator: bool)

  datatype Answer =
    | Done
    | WrongRecipient
    | WrongRunner
    | InvalidTransition(from: Status)
    | AlreadyWithdrawn
    | AlreadyClosed(at: Status)
    | NotWorking(at: Status)
    | OtherSession
    | BadContent
    | NotReady(at: Status)
    | ReasonRequired
    | NoHandoff
    | Unverified
    | Busy(sessions: set<string>)

  /** The session file name keeps letters, digits, `_` and `-`, at most 64 of them. */
  function SafeChar(c: char): char {
    if 'a' <= c <= 'z' || 'A' <= c <= 'Z' || '0' <= c <= '9' || c == '_' || c == '-' then c else '_'
  }

  function SafeId(s: string): string {
    seq(if |s| < 64 then |s| else 64, i requires 0 <= i < |s| => SafeChar(s[i]))
  }

  function FileFor(app: string, session: string): string { app + "-" + SafeId(session) }

  /** A bind keeps the verifier on disk when it brings none. */
  function Bound(sessions: map<string, Record>, app: string, session: string, dispatch: string,
                 standing: Standing, verifier: string): map<string, Record> {
    var file := FileFor(app, session);
    var prior := if file in sessions then sessions[file].verifier else "";
    sessions[file := Record(app, session, dispatch, standing, if verifier != "" then verifier else prior)]
  }

  function Apply(w: World, a: Action): World {
    match a
    case MakeHistory => w.(history := w.history + [Archive(None, None)])
    case MoveHandoff =>
      if w.history == [] then w
      else
        var n := |w.history| - 1;
        w.(history := w.history[..n] + [w.history[n].(handoff := w.handoff)], handoff := None)
    case MoveCloseout =>
      if w.history == [] then w
      else
        var n := |w.history| - 1;
        w.(history := w.history[..n] + [w.history[n].(closeout := w.closeout)], closeout := None)
    case WriteStatus(to, accepted, forced) =>
      w.(status := to,
         accepted := if accepted.Some? then accepted.value else w.accepted,
         forced := if forced != {} then forced else w.forced)
    case WriteMeta(to) => w.(metaStatus := to)
    case BindSession(app, session, dispatch, standing, verifier) =>
      w.(sessions := Bound(w.sessions, app, session, dispatch, standing, verifier))
    case CreateHandoff(doc) => w.(handoff := Some(doc))
    case WriteCloseout(doc) => w.(closeout := Some(doc))
  }

  function ApplyAll(w: World, plan: seq<Action>): World
    decreases |plan|
  {
    if plan == [] then w else ApplyAll(Apply(w, plan[0]), plan[1..])
  }

  lemma {:induction false} ApplyAllThen(w: World, first: seq<Action>, rest: seq<Action>)
    ensures ApplyAll(w, first + rest) == ApplyAll(ApplyAll(w, first), rest)
    decreases |first|
  {
    if first == [] {
      assert first + rest == rest;
    } else {
      assert (first + rest)[1..] == first[1..] + rest;
      ApplyAllThen(Apply(w, first[0]), first[1..], rest);
    }
  }

  lemma ApplyTwo(w: World, a: Action, b: Action)
    ensures ApplyAll(w, [a, b]) == Apply(Apply(w, a), b)
  {
    assert [a, b][1..] == [b] && [b][1..] == [];
    assert ApplyAll(Apply(w, a), [b]) == Apply(Apply(w, a), b);
  }

  /** The assignee's session files that still say `working` on this packet. */
  predicate IsBound(m: Meta, sessions: map<string, Record>, file: string) {
    && file in sessions
    && m.app + "-" <= file
    && sessions[file].dispatch == m.id
    && sessions[file].standing == AtWork
  }

  function BoundSessions(m: Meta, sessions: map<string, Record>): (b: set<string>)
    ensures forall s :: s in b <==> exists file :: IsBound(m, sessions, file) && sessions[file].session == s
  {
    set file | file in sessions && IsBound(m, sessions, file) :: sessions[file].session
  }

  /** Withdraw also counts the accepting session while it has no file at all. */
  function Holding(m: Meta, w: World): set<string> {
    BoundSessions(m, w.sessions) +
    if w.accepted != "" && FileFor(m.app, w.accepted) !in w.sessions then {w.accepted} else {}
  }

  function SetStatus(to: Status): seq<Action> { [WriteStatus(to, None, {}), WriteMeta(to)] }

  function ArchivePlan(w: World): seq<Action> {
    if w.handoff.None? then []
    else [MakeHistory, MoveHandoff] + if w.closeout.Some? then [MoveCloseout] else []
  }

  function BindPlan(m: Meta, session: string): seq<Action> {
    if session == "" then [] else [BindSession(m.app, session, m.id, AtWork, m.verifier)]
  }

  function AcceptPlan(m: Meta, session: string, w: World): seq<Action> {
    (if w.status == Cleared then ArchivePlan(w) else []) +
    [WriteStatus(Working, Some(session), {}), WriteMeta(Working)] + BindPlan(m, session)
  }

  datatype Decision = Decision(answer: Answer, plan: seq<Action>)

  function Refuse(answer: Answer): Decision { Decision(answer, []) }

  /** What a caller that has just taken the lock decides, on the files as they then are. */
  function Decide(m: Meta, req: Request, w: World): Decision {
    match req
    case Accept(app, session, runner) =>
      if app != m.app then Refuse(WrongRecipient)
      else if runner != m.runner then Refuse(WrongRunner)
      else if w.status !in {Pending, Cleared} then Refuse(InvalidTransition(w.status))
      else Decision(Done, AcceptPlan(m, session, w))
    case Handoff(app, session, doc) =>
      if app != m.app then Refuse(WrongRecipient)
      else if w.status == Withdrawn then Refuse(InvalidTransition(w.status))
      else if w.status in {Complete, Verified, Failed} then Refuse(AlreadyClosed(w.status))
      else if w.status != Working then Refuse(NotWorking(w.status))
      else if w.accepted != "" && w.accepted != session then Refuse(OtherSession)
      else if !doc.acceptable then Refuse(BadContent)
      else if w.handoff.Some? then Refuse(AlreadyClosed(w.status))
      else Decision(Done, [CreateHandoff(doc), WriteCloseout(doc)] + SetStatus(Complete))
    case Verify => Decision(Done, SetStatus(Verified))
    case Clear =>
      if w.status !in {Complete, Verified} then Refuse(NotReady(w.status))
      else Decision(Done, SetStatus(Cleared))
    case Withdraw(blankReason, force, orchestrator) =>
      if blankReason then Refuse(ReasonRequired)
      else if w.status == Withdrawn then Refuse(AlreadyWithdrawn)
      else if w.status == Working then
        var holding := Holding(m, w);
        if holding != {} && !(force && orchestrator) then Refuse(Busy(holding))
        else Decision(Done, [WriteStatus(Withdrawn, None, holding), WriteMeta(Withdrawn)])
      else if w.status != Pending then Refuse(InvalidTransition(w.status))
      else Decision(Done, SetStatus(Withdrawn))
  }

  /** What verify_handoff asks of the handoff it reads. */
  predicate Vouched(w: World) { w.handoff.Some? && w.handoff.value.verifiable }

  /** What it asks before it wants the lock. */
  predicate Verifiable(w: World) { w.status == Complete && Vouched(w) }
}
