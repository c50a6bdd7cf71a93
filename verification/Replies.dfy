/**
 Method calls on the thread pool (src/object.cpp:78-113, 187-193): any number of invocations are
 queued, taken up in any order and advance in any interleaving.
 */
module Replies {

  type Id = nat

  /** What is fixed during a run: the registered names, and the invocations that the pre-request
      handler turns down. */
  datatype Config = Config(registered: set<string>, vetoed: set<Id>)

  datatype Answer = Value | Error

  /** How far the body of a queued function has come. */
  datatype Phase = Pinging | LookingUp | Asking | Calling | Answering(a: Answer)

  datatype Event = Ran(id: Id) | Replied(id: Id, a: Answer)

  /** `members` names the member of every invocation received so far. */
  datatype Pool = Pool(members: map<Id, string>, pending: seq<Id>, running: map<Id, Phase>, log: seq<Event>)

  const EMPTY := Pool(map[], [], map[], [])

  /** The handler cannot read its arguments, or applies the callable, which (with the writing of
      its result) throws std::exception or succeeds. */
  datatype Handled = Unread | Threw | Returned

  datatype Step =
    | Push(id: Id, member: string)
    | TakeUp(i: nat)            // a pool thread takes the i-th pending function
    | Ping(id: Id)
    | LookUp(id: Id)
    | Ask(id: Id)
    | Invoke(id: Id, o: Handled)  // the generated handler
    | Reply(id: Id)

  predicate Enabled(p: Pool, s: Step) {
    match s
    case Push(id, _) => id !in p.members
    case TakeUp(i) => i < |p.pending|
    case Ping(id) => id in p.running && p.running[id] == Pinging
    case LookUp(id) => id in p.running && p.running[id] == LookingUp
    case Ask(id) => id in p.running && p.running[id] == Asking
    case Invoke(id, _) => id in p.running && p.running[id] == Calling
    case Reply(id) => id in p.running && p.running[id].Answering?
  }

  function Next(c: Config, p: Pool, s: Step): Pool
    requires Enabled(p, s)
  {
    match s
    case Push(id, member) => p.(members := p.members[id := member], pending := p.pending + [id])
    case TakeUp(i) =>
      p.(pending := p.pending[..i] + p.pending[i + 1..], running := p.running[p.pending[i] := Pinging])
    case Ping(id) => p.(running := p.running[id := LookingUp])
    case LookUp(id) =>
      var found := id in p.members && p.members[id] in c.registered;
      p.(running := p.running[id := if found then Asking else Answering(Error)])
    case Ask(id) => p.(running := p.running[id := if id in c.vetoed then Answering(Error) else Calling])
    case Invoke(id, o) =>
      p.(running := p.running[id := Answering(if o == Returned then Value else Error)],
         log := if o == Unread then p.log else p.log + [Ran(id)])
    case Reply(id) => p.(running := p.running - {id}, log := p.log + [Replied(id, p.running[id].a)])
  }

  ghost predicate Reaches(c: Config, p: Pool, steps: seq<Step>, q: Pool)
    decreases |steps|
  {
    if steps == [] then p == q
    else Enabled(p, steps[0]) && Reaches(c, Next(c, p, steps[0]), steps[1..], q)
  }

  // ---------------------------------------------------------------- counting

  function Occurrences(pending: seq<Id>, id: Id): nat {
    if pending == [] then 0
    else Occurrences(pending[..|pending| - 1], id) + if pending[|pending| - 1] == id then 1 else 0
  }

  function Runs(log: seq<Event>, id: Id): nat {
    if log == [] then 0 else Runs(log[..|log| - 1], id) + if log[|log| - 1] == Ran(id) then 1 else 0
  }

  function Answers(log: seq<Event>, id: Id): nat {
    if log == [] then 0
    else
      var e := log[|log| - 1];
      Answers(log[..|log| - 1], id) + if e.Replied? && e.id == id then 1 else 0
  }

  lemma {:induction false} OccurrencesAppend(a: seq<Id>, b: seq<Id>, id: Id)
    ensures Occurrences(a + b, id) == Occurrences(a, id) + Occurrences(b, id)
    decreases |b|
  {
    if b == [] {
      assert a + b == a;
    } else {
      assert (a + b)[..|a + b| - 1] == a + b[..|b| - 1];
      OccurrencesAppend(a, b[..|b| - 1], id);
    }
  }

  lemma LogAppend(log: seq<Event>, e: Event, id: Id)
    ensures Runs(log + [e], id) == Runs(log, id) + if e == Ran(id) then 1 else 0
    ensures Answers(log + [e], id) == Answers(log, id) + if e.Replied? && e.id == id then 1 else 0
  {
    assert (log + [e])[..|log|] == log;
  }

  // ---------------------------------------------------------------- invariant

  /** The callable has been reached only past the lookup and the pre-request handler. */
  predicate Admitted(c: Config, p: Pool, id: Id) {
    id in p.members && p.members[id] in c.registered && id !in c.vetoed
  }

  /** Each invocation is pending, running or answered, and exactly once; it has run at most once,
      only if admitted, and before its reply; a value is replied only by a run. */
  ghost predicate Conserved(c: Config, p: Pool, id: Id) {
    && Occurrences(p.pending, id) + (if id in p.running then 1 else 0) + Answers(p.log, id)
        == (if id in p.members then 1 else 0)
    && Runs(p.log, id) <= 1
    && (Runs(p.log, id) == 1 ==> Admitted(c, p, id))
    && (id in p.running ==>
          match p.running[id]
          case Pinging => Runs(p.log, id) == 0
          case LookingUp => Runs(p.log, id) == 0
          case Asking => Runs(p.log, id) == 0 && id in p.members && p.members[id] in c.registered
          case Calling => Runs(p.log, id) == 0 && Admitted(c, p, id)
          case Answering(a) => a == Value ==> Runs(p.log, id) == 1)
    && (Occurrences(p.pending, id) == 1 ==> Runs(p.log, id) == 0)
    && (id !in p.members ==> Runs(p.log, id) == 0)
  }

  /** Only a run that was admitted is answered with a value. */
  ghost predicate AnswersSound(c: Config, p: Pool) {
    forall k | 0 <= k < |p.log| && p.log[k].Replied? && p.log[k].a == Value ::
      Admitted(c, p, p.log[k].id) && Runs(p.log, p.log[k].id) == 1
  }

  lemma {:induction false} OccursIn(pending: seq<Id>, i: nat)
    requires i < |pending|
    ensures Occurrences(pending, pending[i]) >= 1
    decreases |pending|
  {
    if i < |pending| - 1 { OccursIn(pending[..|pending| - 1], i); }
  }

  lemma StepConserves(c: Config, p: Pool, s: Step, id: Id)
    requires Enabled(p, s) && Conserved(c, p, id)
    requires s.TakeUp? ==> Conserved(c, p, p.pending[s.i])
    ensures Conserved(c, Next(c, p, s), id)
  {
    match s
    case Push(id', member) => PushConserves(c, p, id', member, id);
    case TakeUp(i) => TakeUpConserves(c, p, i, id);
    case Invoke(id', o) => InvokeConserves(c, p, id', o, id);
    case Reply(id') => ReplyConserves(c, p, id', id);
    case _ => AdvanceConserves(c, p, s, id);
  }

  lemma AdvanceConserves(c: Config, p: Pool, s: Step, id: Id)
    requires (s.Ping? || s.LookUp? || s.Ask?) && Enabled(p, s) && Conserved(c, p, id)
    ensures Conserved(c, Next(c, p, s), id)
  {
    var q := Next(c, p, s);
    assert q.pending == p.pending && q.log == p.log && q.members == p.members;
  }

  lemma PushConserves(c: Config, p: Pool, id': Id, member: string, id: Id)
    requires Enabled(p, Push(id', member)) && Conserved(c, p, id)
    ensures Conserved(c, Next(c, p, Push(id', member)), id)
  {
    OccurrencesAppend(p.pending, [id'], id);
    assert Occurrences([id'], id) == if id' == id then 1 else 0;
  }

  lemma InvokeConserves(c: Config, p: Pool, id': Id, o: Handled, id: Id)
    requires Enabled(p, Invoke(id', o)) && Conserved(c, p, id)
    ensures Conserved(c, Next(c, p, Invoke(id', o)), id)
  {
    LogAppend(p.log, Ran(id'), id);
  }

  lemma ReplyConserves(c: Config, p: Pool, id': Id, id: Id)
    requires Enabled(p, Reply(id')) && Conserved(c, p, id)
    ensures Conserved(c, Next(c, p, Reply(id')), id)
  {
    var q := Next(c, p, Reply(id'));
    LogAppend(p.log, Replied(id', p.running[id'].a), id);
    assert q.pending == p.pending && q.members == p.members && id' !in q.running;
    if id != id' {
      assert id in q.running <==> id in p.running;
      assert Answers(q.log, id) == Answers(p.log, id) && Runs(q.log, id) == Runs(p.log, id);
    }
  }

  lemma TakeUpOccurs(p: Pool, i: nat, id: Id)
    requires i < |p.pending|
    ensures Occurrences(p.pending[..i] + p.pending[i + 1..], id)
         == Occurrences(p.pending, id) - if p.pending[i] == id then 1 else 0
  {
    var a, b := p.pending[..i], p.pending[i + 1..];
    assert p.pending == a + [p.pending[i]] + b;
    OccurrencesAppend(a + [p.pending[i]], b, id);
    OccurrencesAppend(a, [p.pending[i]], id);
    OccurrencesAppend(a, b, id);
  }

  lemma TakeUpConserves(c: Config, p: Pool, i: nat, id: Id)
    requires Enabled(p, TakeUp(i)) && Conserved(c, p, id) && Conserved(c, p, p.pending[i])
    ensures Conserved(c, Next(c, p, TakeUp(i)), id)
  {
    TakeUpOccurs(p, i, id);
    OccursIn(p.pending, i);
  }

  lemma StepKeepsAnswersSound(c: Config, p: Pool, s: Step)
    requires Enabled(p, s) && AnswersSound(c, p) && forall id :: Conserved(c, p, id)
    ensures AnswersSound(c, Next(c, p, s))
  {
    match s
    case Push(id, member) => PushKeepsAnswersSound(c, p, id, member);
    case Invoke(id, o) => InvokeKeepsAnswersSound(c, p, id, o);
    case Reply(id) => ReplyKeepsAnswersSound(c, p, id);
    case _ => assert Next(c, p, s).log == p.log && Next(c, p, s).members == p.members;
  }

  lemma PushKeepsAnswersSound(c: Config, p: Pool, id: Id, member: string)
    requires Enabled(p, Push(id, member)) && AnswersSound(c, p)
    ensures AnswersSound(c, Next(c, p, Push(id, member)))
  {
    assert forall k | 0 <= k < |p.log| && p.log[k].Replied? && p.log[k].a == Value :: p.log[k].id != id;
  }

  lemma InvokeKeepsAnswersSound(c: Config, p: Pool, id: Id, o: Handled)
    requires Enabled(p, Invoke(id, o)) && AnswersSound(c, p) && Conserved(c, p, id)
    ensures AnswersSound(c, Next(c, p, Invoke(id, o)))
  {
    var q := Next(c, p, Invoke(id, o));
    forall k | 0 <= k < |q.log| && q.log[k].Replied? && q.log[k].a == Value
      ensures Admitted(c, q, q.log[k].id) && Runs(q.log, q.log[k].id) == 1
    {
      assert q.log[k] == p.log[k];
      LogAppend(p.log, Ran(id), q.log[k].id);
    }
  }

  lemma ReplyKeepsAnswersSound(c: Config, p: Pool, id: Id)
    requires Enabled(p, Reply(id)) && AnswersSound(c, p) && Conserved(c, p, id)
    ensures AnswersSound(c, Next(c, p, Reply(id)))
  {
    var q := Next(c, p, Reply(id));
    var e := Replied(id, p.running[id].a);
    assert q.log == p.log + [e] && q.members == p.members;
    forall k | 0 <= k < |q.log| && q.log[k].Replied? && q.log[k].a == Value
      ensures Admitted(c, q, q.log[k].id) && Runs(q.log, q.log[k].id) == 1
    {
      LogAppend(p.log, e, q.log[k].id);
      if k < |p.log| {
        assert q.log[k] == p.log[k];
      } else {
        assert q.log[k] == e;
      }
    }
  }

  lemma {:induction false} RunsConserve(c: Config, p: Pool, steps: seq<Step>, q: Pool)
    requires Reaches(c, p, steps, q) && AnswersSound(c, p) && forall id :: Conserved(c, p, id)
    ensures AnswersSound(c, q) && forall id :: Conserved(c, q, id)
    decreases |steps|
  {
    if steps != [] {
      forall id ensures Conserved(c, Next(c, p, steps[0]), id) {
        if steps[0].TakeUp? { assert Conserved(c, p, p.pending[steps[0].i]); }
        StepConserves(c, p, steps[0], id);
      }
      StepKeepsAnswersSound(c, p, steps[0]);
      RunsConserve(c, Next(c, p, steps[0]), steps[1..], q);
    }
  }

  /** Reply conservation: under any scheduling every queued invocation is pending, running or
      answered exactly once, and nothing else is. */
  lemma EachAnsweredOnce(c: Config, steps: seq<Step>, q: Pool, id: Id)
    requires Reaches(c, EMPTY, steps, q)
    ensures Occurrences(q.pending, id) + (if id in q.running then 1 else 0) + Answers(q.log, id)
      == if id in q.members then 1 else 0
    ensures Runs(q.log, id) <= 1
  {
    assert forall i :: Conserved(c, EMPTY, i);
    RunsConserve(c, EMPTY, steps, q);
    assert Conserved(c, q, id);
  }

  /** A missing method or a veto never runs the callable, and its reply is an error. A call that is
      answered with a value has run exactly once. */
  lemma OnlyAdmittedRun(c: Config, steps: seq<Step>, q: Pool, id: Id)
    requires Reaches(c, EMPTY, steps, q) && id in q.members
    ensures q.members[id] !in c.registered || id in c.vetoed ==>
      Runs(q.log, id) == 0 && Replied(id, Value) !in q.log
    ensures Replied(id, Value) in q.log ==> Runs(q.log, id) == 1
  {
    assert forall i :: Conserved(c, EMPTY, i);
    RunsConserve(c, EMPTY, steps, q);
    assert Conserved(c, q, id);
  }

  /** When the pool has nothing left to do, every invocation received has had its one reply. */
  lemma IdlePoolAnsweredAll(c: Config, steps: seq<Step>, q: Pool, id: Id)
    requires Reaches(c, EMPTY, steps, q) && q.pending == [] && q.running == map[]
    ensures Answers(q.log, id) == if id in q.members then 1 else 0
  {
    EachAnsweredOnce(c, steps, q, id);
  }

  // ---------------------------------------------------------------- which answer

  /** Something went wrong with the invocation: no such method, a veto, or a handler that threw or
      could not read its arguments. */
  ghost predicate Erred(c: Config, p: Pool, past: seq<Step>, id: Id) {
    id in p.members
    && (p.members[id] !in c.registered || id in c.vetoed || Invoke(id, Unread) in past || Invoke(id, Threw) in past)
  }

  ghost predicate Invoked(past: seq<Step>, id: Id) {
    Invoke(id, Unread) in past || Invoke(id, Threw) in past || Invoke(id, Returned) in past
  }

  /** How the log and the phase of an invocation tell the steps taken. */
  ghost predicate LogTold(p: Pool, c: Config, past: seq<Step>, id: Id) {
    && (Replied(id, Value) in p.log <==> Reply(id) in past && Invoke(id, Returned) in past)
    && (Replied(id, Error) in p.log <==> Reply(id) in past && Erred(c, p, past, id))
    && (Ran(id) in p.log <==> Invoke(id, Threw) in past || Invoke(id, Returned) in past)
  }

  ghost predicate PhaseTold(p: Pool, c: Config, past: seq<Step>, id: Id) {
    && (id !in p.members || Occurrences(p.pending, id) > 0 ==> !Invoked(past, id) && Reply(id) !in past)
    && (id in p.running ==>
          && Reply(id) !in past
          && match p.running[id]
             case Answering(Value) => Invoke(id, Returned) in past && !Erred(c, p, past, id)
             case Answering(Error) => Invoke(id, Returned) !in past && Erred(c, p, past, id)
             case _ => !Invoked(past, id))
  }

  ghost predicate Told(c: Config, p: Pool, past: seq<Step>, id: Id) {
    LogTold(p, c, past, id) && PhaseTold(p, c, past, id) && Conserved(c, p, id)
  }

  /** A step of another invocation, or one that only lets this one in, is not part of its story. */
  predicate Concerns(s: Step, id: Id) {
    match s
    case Push(id', _) => id' == id
    case TakeUp(_) => false
    case Ping(id') => id' == id
    case LookUp(id') => id' == id
    case Ask(id') => id' == id
    case Invoke(id', _) => id' == id
    case Reply(id') => id' == id
  }

  lemma PastGrows(past: seq<Step>, s: Step, id: Id)
    ensures forall o :: Invoke(id, o) in past + [s] <==> Invoke(id, o) in past || s == Invoke(id, o)
    ensures Reply(id) in past + [s] <==> Reply(id) in past || s == Reply(id)
  {
  }

  lemma OtherStepTold(c: Config, p: Pool, past: seq<Step>, s: Step, id: Id)
    requires Told(c, p, past, id) && Enabled(p, s) && !Concerns(s, id)
    requires Conserved(c, Next(c, p, s), id)
    ensures LogTold(Next(c, p, s), c, past + [s], id) && PhaseTold(Next(c, p, s), c, past + [s], id)
  {
    OtherStepFrame(c, p, s, id);
    PastGrows(past, s, id);
    var q, past' := Next(c, p, s), past + [s];
    assert Invoked(past', id) <==> Invoked(past, id);
    assert Erred(c, q, past', id) <==> Erred(c, p, past, id);
  }

  /** A step of another invocation leaves everything about this one alone; at most it is taken up. */
  lemma OtherStepFrame(c: Config, p: Pool, s: Step, id: Id)
    requires Enabled(p, s) && !Concerns(s, id)
    ensures var q := Next(c, p, s);
      && (id in q.members <==> id in p.members) && (id in p.members ==> q.members[id] == p.members[id])
      && (Ran(id) in q.log <==> Ran(id) in p.log)
      && (forall a :: Replied(id, a) in q.log <==> Replied(id, a) in p.log)
      && Occurrences(q.pending, id) <= Occurrences(p.pending, id)
      && (id in q.running ==>
            if id in p.running && (s.TakeUp? ==> p.pending[s.i] != id) then q.running[id] == p.running[id]
            else q.running[id] == Pinging && Occurrences(p.pending, id) > 0)
  {
    match s
    case TakeUp(i) =>
      TakeUpOccurs(p, i, id);
      OccursIn(p.pending, i);
    case Push(id', _) => OccurrencesAppend(p.pending, [id'], id);
    case _ =>
  }

  lemma OwnStepTold(c: Config, p: Pool, past: seq<Step>, s: Step, id: Id)
    requires Told(c, p, past, id) && Enabled(p, s) && Concerns(s, id)
    requires Conserved(c, Next(c, p, s), id)
    ensures LogTold(Next(c, p, s), c, past + [s], id) && PhaseTold(Next(c, p, s), c, past + [s], id)
  {
    PastGrows(past, s, id);
    match s
    case Push(_, _) => OccurrencesAppend(p.pending, [id], id);
    case Invoke(_, o) => InvokeTold(c, p, past, id, o);
    case Reply(_) => ReplyTold(c, p, past, id);
    case _ => AdvanceTold(c, p, past, s, id);
  }

  lemma AdvanceTold(c: Config, p: Pool, past: seq<Step>, s: Step, id: Id)
    requires Told(c, p, past, id) && Enabled(p, s) && s in {Ping(id), LookUp(id), Ask(id)}
    ensures LogTold(Next(c, p, s), c, past + [s], id) && PhaseTold(Next(c, p, s), c, past + [s], id)
  {
    PastGrows(past, s, id);
  }

  lemma InvokeTold(c: Config, p: Pool, past: seq<Step>, id: Id, o: Handled)
    requires Told(c, p, past, id) && Enabled(p, Invoke(id, o))
    ensures var q := Next(c, p, Invoke(id, o));
      LogTold(q, c, past + [Invoke(id, o)], id) && PhaseTold(q, c, past + [Invoke(id, o)], id)
  {
    InvokeFrame(c, p, past, id, o);
    var q, past' := Next(c, p, Invoke(id, o)), past + [Invoke(id, o)];
    assert Erred(c, q, past', id) <==> o != Returned;
    assert Invoke(id, Returned) in past' <==> o == Returned;
  }

  /** Before its handler was called, nothing had gone wrong with the invocation. */
  lemma InvokeFrame(c: Config, p: Pool, past: seq<Step>, id: Id, o: Handled)
    requires Told(c, p, past, id) && Enabled(p, Invoke(id, o))
    ensures var q, past' := Next(c, p, Invoke(id, o)), past + [Invoke(id, o)];
      && q.members == p.members && Admitted(c, p, id) && !Erred(c, p, past, id)
      && (forall h :: Invoke(id, h) in past' <==> h == o)
      && Reply(id) !in past' && Replied(id, Value) !in q.log && Replied(id, Error) !in q.log
      && (Ran(id) in q.log <==> o != Unread)
      && q.running[id] == Answering(if o == Returned then Value else Error)
      && Occurrences(q.pending, id) == 0
  {
    PastGrows(past, Invoke(id, o), id);
    assert !Invoked(past, id);
    forall h ensures Invoke(id, h) !in past {
      assert h == Unread || h == Threw || h == Returned;
    }
  }

  lemma ReplyTold(c: Config, p: Pool, past: seq<Step>, id: Id)
    requires Told(c, p, past, id) && Enabled(p, Reply(id))
    ensures var q := Next(c, p, Reply(id));
      LogTold(q, c, past + [Reply(id)], id) && PhaseTold(q, c, past + [Reply(id)], id)
  {
    PastGrows(past, Reply(id), id);
  }

  lemma {:induction false} RunTold(c: Config, p: Pool, past: seq<Step>, steps: seq<Step>, q: Pool, id: Id)
    requires Reaches(c, p, steps, q) && LogTold(p, c, past, id) && PhaseTold(p, c, past, id)
    requires forall i :: Conserved(c, p, i)
    ensures LogTold(q, c, past + steps, id) && PhaseTold(q, c, past + steps, id)
    decreases |steps|
  {
    if steps == [] {
      assert past + steps == past;
    } else {
      var s := steps[0];
      forall i ensures Conserved(c, Next(c, p, s), i) {
        if s.TakeUp? { assert Conserved(c, p, p.pending[s.i]); }
        StepConserves(c, p, s, i);
      }
      if Concerns(s, id) { OwnStepTold(c, p, past, s, id); } else { OtherStepTold(c, p, past, s, id); }
      RunTold(c, Next(c, p, s), past + [s], steps[1..], q, id);
      assert past + [s] + steps[1..] == past + steps;
    }
  }

  /** Over any run an invocation is answered with a value if and only if its callable returned, and
      with an error if and only if something went wrong; its callable was applied if and only if it
      returned or threw. */
  lemma RightAnswer(c: Config, steps: seq<Step>, q: Pool, id: Id)
    requires Reaches(c, EMPTY, steps, q)
    ensures Replied(id, Value) in q.log <==> Reply(id) in steps && Invoke(id, Returned) in steps
    ensures Replied(id, Error) in q.log <==>
      && Reply(id) in steps && id in q.members
      && (q.members[id] !in c.registered || id in c.vetoed || Invoke(id, Unread) in steps || Invoke(id, Threw) in steps)
    ensures Ran(id) in q.log <==> Invoke(id, Threw) in steps || Invoke(id, Returned) in steps
  {
    assert forall i :: Conserved(c, EMPTY, i);
    RunTold(c, EMPTY, [], steps, q, id);
    assert [] + steps == steps;
  }

  /** What a pending invocation adds to the log when it is run to its end: an error if it is not
      admitted, else what its handler makes of it. */
  ghost function Story(c: Config, p: Pool, id: Id, o: Handled): seq<Event> {
    if !Admitted(c, p, id) || o == Unread then
      [Replied(id, Error)]
    else
      [Ran(id), Replied(id, if o == Returned then Value else Error)]
  }

  /** Every invocation can be received. */
  lemma AnyoneCanPush(c: Config, p: Pool, id: Id, member: string)
    requires id !in p.members
    ensures Enabled(p, Push(id, member))
    ensures Next(c, p, Push(id, member)).pending == p.pending + [id] && Next(c, p, Push(id, member)).log == p.log
  {
  }

  /** Every invocation that waits in the pool can be run and answered, whatever its handler does: an
      admitted one whose callable returns with its value. */
  lemma PendingCanBeAnswered(c: Config, p: Pool, i: nat, o: Handled) returns (steps: seq<Step>, q: Pool)
    requires i < |p.pending| && p.pending[i] in p.members
    ensures Reaches(c, p, steps, q)
    ensures q.log == p.log + Story(c, p, p.pending[i], o)
    ensures q.pending == p.pending[..i] + p.pending[i + 1..]
  {
    var id := p.pending[i];
    var p1 := Next(c, p, TakeUp(i));
    var p2 := Next(c, p1, Ping(id));
    steps, q := LookedUpAnswered(c, p2, id, o);
    Before(c, p1, Ping(id), steps, q);
    Before(c, p, TakeUp(i), [Ping(id)] + steps, q);
    steps := [TakeUp(i)] + ([Ping(id)] + steps);
  }

  lemma LookedUpAnswered(c: Config, p: Pool, id: Id, o: Handled) returns (steps: seq<Step>, q: Pool)
    requires id in p.members && id in p.running && p.running[id] == LookingUp
    ensures Reaches(c, p, steps, q)
    ensures q.log == p.log + Story(c, p, id, o) && q.pending == p.pending
  {
    var p1 := Next(c, p, LookUp(id));
    if p.members[id] !in c.registered {
      steps, q := Answered(c, p1, id);
    } else {
      var p2 := Next(c, p1, Ask(id));
      if id in c.vetoed {
        steps, q := Answered(c, p2, id);
      } else {
        steps, q := Answered(c, Next(c, p2, Invoke(id, o)), id);
        Before(c, p2, Invoke(id, o), steps, q);
        steps := [Invoke(id, o)] + steps;
      }
      Before(c, p1, Ask(id), steps, q);
      steps := [Ask(id)] + steps;
    }
    Before(c, p, LookUp(id), steps, q);
    steps := [LookUp(id)] + steps;
  }

  lemma Answered(c: Config, p: Pool, id: Id) returns (steps: seq<Step>, q: Pool)
    requires id in p.running && p.running[id].Answering?
    ensures Reaches(c, p, steps, q)
    ensures q.log == p.log + [Replied(id, p.running[id].a)] && q.pending == p.pending
  {
    q := Next(c, p, Reply(id));
    assert Reaches(c, q, [], q);
    Before(c, p, Reply(id), [], q);
    steps := [Reply(id)] + [];
  }

  lemma Before(c: Config, p: Pool, s: Step, steps: seq<Step>, q: Pool)
    requires Enabled(p, s) && Reaches(c, Next(c, p, s), steps, q)
    ensures Reaches(c, p, [s] + steps, q)
  {
    assert ([s] + steps)[1..] == steps;
  }
}
