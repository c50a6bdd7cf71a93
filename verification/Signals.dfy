/**
 Signals: emission (include/object.inl:160-171), subscription and delivery
 (include/session_manager.inl:12-43, src/session_manager.cpp:84-97). Every subscription stays live
 on the connection, while one handler is kept per signal name.
 */
module Signals {
  import opened Types
  import opened Codec
  import opened Marshalling
  import opened RemoteCall

  /** A subscriber's callable: its parameter types and which callable it is. */
  datatype Handler = Handler(params: seq<CType>, callable: nat)

  /** What a subscription asks the connection for; an empty text stands for any. */
  datatype Filter = Filter(sender: string, interfaceName: string, objectPath: string, name: string)

  datatype Signal =
    Signal(sender: string, interfaceName: string, objectPath: string, name: string, parameters: GVariant)

  predicate Wanted(f: Filter, s: Signal) {
    && (f.sender == "" || f.sender == s.sender)
    && (f.interfaceName == "" || f.interfaceName == s.interfaceName)
    && (f.objectPath == "" || f.objectPath == s.objectPath)
    && f.name == s.name
  }

  /** All subscriptions ever made, oldest first. */
  type History = seq<(Filter, Handler)>

  ghost function Filters(history: History): seq<Filter> {
    seq(|history|, k requires 0 <= k < |history| => history[k].0)
  }

  ghost function WantedCount(filters: seq<Filter>, s: Signal): nat {
    if filters == [] then 0
    else WantedCount(filters[..|filters| - 1], s) + if Wanted(filters[|filters| - 1], s) then 1 else 0
  }

  /** The handler of the latest subscription to a name, whatever else it asked for. */
  ghost function Newest(history: History, name: string): Option<Handler> {
    if history == [] then None
    else if history[|history| - 1].0.name == name then Some(history[|history| - 1].1)
    else Newest(history[..|history| - 1], name)
  }

  lemma {:induction false} WantedIsNamed(history: History, s: Signal)
    requires WantedCount(Filters(history), s) > 0
    ensures Newest(history, s.name).Some?
  {
    var n := |history| - 1;
    assert Filters(history)[..n] == Filters(history[..n]);
    if !Wanted(history[n].0, s) { WantedIsNamed(history[..n], s); }
  }

  class SessionManager {
    var handlers: map<string, Handler>
    var subscriptions: seq<Filter>
    ghost var history: History

    ghost predicate Valid()
      reads this
    {
      && subscriptions == Filters(history)
      && forall name :: Newest(history, name) == if name in handlers then Some(handlers[name]) else None
    }

    constructor ()
      ensures Valid() && history == []
    {
      handlers, subscriptions, history := map[], [], [];
    }

    /** `signal_subscribe`. */
    method Subscribe(f: Filter, h: Handler)
      requires Valid()
      modifies this
      ensures Valid() && history == old(history) + [(f, h)]
    {
      handlers := handlers[f.name := h];
      subscriptions := subscriptions + [f];
      history := history + [(f, h)];
      assert history[..|history| - 1] == old(history);
      assert subscriptions == Filters(history);
    }

    /** `on_signal`: the arguments the handler is called with; Fault is the exception for a signal
        nobody subscribed to or arguments that cannot be read. */
    method OnSignal(name: string, parameters: GVariant) returns (r: Outcome<(nat, seq<CValue>)>)
      ensures r.Fault? <==> name !in handlers || Decode(Tuple(false, handlers[name].params), parameters).Fault?
      ensures r.Ok? ==> r.value.0 == handlers[name].callable
      ensures r.Ok? ==> Decode(Tuple(false, handlers[name].params), parameters) == Ok(TupleV(r.value.1))
    {
      if name !in handlers { return Fault; }
      var args := ReadArguments(handlers[name].params, parameters);
      r := if args.Ok? then Ok((handlers[name].callable, args.value)) else Fault;
    }

    /** The connection calls `on_signal` once for every live subscription that wants the signal, and
        each time the newest handler of its name is called, its own or not. */
    method Deliver(s: Signal) returns (r: Outcome<seq<(nat, seq<CValue>)>>)
      requires Valid()
      ensures WantedCount(Filters(history), s) > 0 ==> Newest(history, s.name).Some?
      ensures r.Fault? <==>
        && WantedCount(Filters(history), s) > 0
        && Decode(Tuple(false, Newest(history, s.name).value.params), s.parameters).Fault?
      ensures r.Ok? ==> |r.value| == WantedCount(Filters(history), s)
      ensures r.Ok? ==> forall k | 0 <= k < |r.value| ::
        Newest(history, s.name).Some? && CallOf(Newest(history, s.name).value, s, r.value[k])
    {
      if WantedCount(Filters(history), s) > 0 { WantedIsNamed(history, s); }
      r := CallEach(s);
      assert r.Ok? && r.value != [] ==> Newest(history, s.name).Some?;
    }

    method CallEach(s: Signal) returns (r: Outcome<seq<(nat, seq<CValue>)>>)
      ensures r.Fault? <==>
        && WantedCount(subscriptions, s) > 0
        && (s.name !in handlers || Decode(Tuple(false, handlers[s.name].params), s.parameters).Fault?)
      ensures r.Ok? ==> |r.value| == WantedCount(subscriptions, s)
      ensures r.Ok? ==> forall k | 0 <= k < |r.value| ::
        s.name in handlers && CallOf(handlers[s.name], s, r.value[k])
    {
      var calls: seq<(nat, seq<CValue>)> := [];
      for i := 0 to |subscriptions|
        invariant |calls| == WantedCount(subscriptions[..i], s)
        invariant calls != [] ==> s.name in handlers && CanCall(handlers[s.name], s)
        invariant forall k | 0 <= k < |calls| :: CallOf(handlers[s.name], s, calls[k])
      {
        assert subscriptions[..i + 1][..i] == subscriptions[..i];
        if Wanted(subscriptions[i], s) {
          CountsOne(subscriptions, i, s);
          var call := CallOnce(s);
          if call.Fault? { return Fault; }
          calls := calls + [call.value];
        }
      }
      assert subscriptions[..|subscriptions|] == subscriptions;
      r := Ok(calls);
    }

    method CallOnce(s: Signal) returns (r: Outcome<(nat, seq<CValue>)>)
      ensures r.Ok? <==> s.name in handlers && CanCall(handlers[s.name], s)
      ensures r.Ok? ==> CallOf(handlers[s.name], s, r.value)
    {
      r := OnSignal(s.name, s.parameters);
    }
  }

  ghost predicate CanCall(h: Handler, s: Signal) {
    Decode(Tuple(false, h.params), s.parameters).Ok?
  }

  /** A call of the handler with the arguments in the signal. */
  ghost predicate CallOf(h: Handler, s: Signal, call: (nat, seq<CValue>)) {
    call.0 == h.callable && Decode(Tuple(false, h.params), s.parameters) == Ok(TupleV(call.1))
  }

  lemma {:induction false} CountsOne(filters: seq<Filter>, i: nat, s: Signal)
    requires i < |filters| && Wanted(filters[i], s)
    ensures WantedCount(filters, s) > 0
    decreases |filters|
  {
    if i < |filters| - 1 { CountsOne(filters[..|filters| - 1], i, s); }
  }

  method ReadArguments(ts: seq<CType>, parameters: GVariant) returns (r: Outcome<seq<CValue>>)
    ensures r.Fault? <==> Decode(Tuple(false, ts), parameters).Fault?
    ensures r.Ok? ==> Decode(Tuple(false, ts), parameters) == Ok(TupleV(r.value))
  {
    r := FillEach(ts, Children(parameters));
    TupleReads(false, ts, parameters);
    if r.Ok? { TupleReadsAs(false, ts, parameters, r.value); }
  }

  /** The loop of include/session_manager.inl:21-25. */
  method FillEach(ts: seq<CType>, cs: seq<GVariant>) returns (r: Outcome<seq<CValue>>)
    ensures r.Ok? ==> |r.value| == |ts| <= |cs| && forall k | 0 <= k < |ts| :: Decode(ts[k], cs[k]) == Ok(r.value[k])
    ensures r.Fault? ==> |ts| > |cs| || exists k :: 0 <= k < |ts| && Decode(ts[k], cs[k]).Fault?
  {
    var args: seq<CValue> := [];
    for argIndex := 0 to |ts|
      invariant |args| == argIndex <= |cs|
      invariant forall k | 0 <= k < argIndex :: Decode(ts[k], cs[k]) == Ok(args[k])
    {
      if argIndex >= |cs| { return Fault; }
      var v := FromGVariant(ts[argIndex], cs[argIndex]);
      if v.Fault? { return Fault; }
      args := args + [v.value];
    }
    r := Ok(args);
  }

  /** A subscription takes the name over, whether or not it wants the signal. */
  lemma Takeover(history: History, f: Filter, h: Handler, s: Signal)
    requires f.name == s.name
    ensures Newest(history + [(f, h)], s.name) == Some(h)
    ensures WantedCount(Filters(history + [(f, h)]), s)
         == WantedCount(Filters(history), s) + if Wanted(f, s) then 1 else 0
  {
    var all := history + [(f, h)];
    assert all[..|all| - 1] == history;
    assert Filters(all)[..|all| - 1] == Filters(history);
  }

  /** A filter that leaves everything but the name open wants every signal of that name, one that
      names a signal's own origin wants that signal, and each text it names narrows it. */
  lemma FilterNarrows(f: Filter, s: Signal)
    ensures Wanted(Filter("", "", "", s.name), s)
    ensures Wanted(Filter(s.sender, s.interfaceName, s.objectPath, s.name), s)
    ensures Wanted(f, s) ==>
      Wanted(f.(sender := ""), s) && Wanted(f.(interfaceName := ""), s) && Wanted(f.(objectPath := ""), s)
    ensures Wanted(f, s) ==> f.sender in {"", s.sender} && f.interfaceName in {"", s.interfaceName}
    ensures Wanted(f, s) ==> f.objectPath in {"", s.objectPath} && f.name == s.name
  {
  }

  /** With nothing but a name given, a subscriber hears every signal of that name once. */
  lemma DefaultSubscription(history: History, h: Handler, s: Signal)
    ensures var all := history + [(Filter("", "", "", s.name), h)];
      && WantedCount(Filters(all), s) == WantedCount(Filters(history), s) + 1
      && Newest(all, s.name) == Some(h)
  {
    Takeover(history, Filter("", "", "", s.name), h, s);
  }

  /** Nobody else takes the name over after subscription `j`. */
  ghost predicate LastOf(history: History, name: string, j: int) {
    && 0 <= j < |history| && history[j].0.name == name
    && forall i | j < i < |history| :: history[i].0.name != name
  }

  lemma {:induction false} NewestIsLast(history: History, name: string, j: nat)
    requires LastOf(history, name, j)
    ensures Newest(history, name) == Some(history[j].1)
    decreases |history|
  {
    if j < |history| - 1 { NewestIsLast(history[..|history| - 1], name, j); }
  }

  lemma {:induction false} SomeLast(history: History, name: string, k: nat) returns (j: nat)
    requires k < |history| && history[k].0.name == name
    ensures k <= j && LastOf(history, name, j)
    decreases |history| - k
  {
    if i :| k < i < |history| && history[i].0.name == name {
      j := SomeLast(history, name, i);
    } else {
      j := k;
    }
  }

  /** A subscription that wants a signal has its own handler called if and only if the last
      subscription to the name, from it on, has that handler too. */
  lemma OwnHandlerCalled(history: History, k: nat, s: Signal)
    requires k < |history| && Wanted(history[k].0, s)
    ensures Newest(history, s.name) == Some(history[k].1) <==>
      exists j :: k <= j && LastOf(history, s.name, j) && history[j].1 == history[k].1
  {
    var last := SomeLast(history, s.name, k);
    NewestIsLast(history, s.name, last);
    if j :| k <= j && LastOf(history, s.name, j) && history[j].1 == history[k].1 {
      NewestIsLast(history, s.name, j);
    }
  }

  /** Two subscriptions that want the same signal have the newer handler called twice and the older
      never. */
  lemma OverlappingSubscriptions(history: History, f: Filter, h: Handler, f': Filter, h': Handler, s: Signal)
    requires Wanted(f, s) && Wanted(f', s)
    ensures WantedCount(Filters(history + [(f, h), (f', h')]), s) == WantedCount(Filters(history), s) + 2
    ensures Newest(history + [(f, h), (f', h')], s.name) == Some(h')
  {
    Takeover(history, f, h, s);
    Takeover(history + [(f, h)], f', h', s);
    assert history + [(f, h)] + [(f', h')] == history + [(f, h), (f', h')];
  }

  /** Nor need the newer one want the signal: subscribed to the signal of one sender and then, with
      another handler, to that of another, the first sender's signal calls the second handler. */
  lemma UnwillingTakeover(h: Handler, h': Handler, parameters: GVariant)
    ensures var f, f' := Filter("a", "", "", "S"), Filter("b", "", "", "S");
      var s := Signal("a", "", "", "S", parameters);
      && Wanted(f, s) && !Wanted(f', s)
      && WantedCount(Filters([(f, h), (f', h')]), s) == 1
      && Newest([(f, h), (f', h')], "S") == Some(h')
  {
    var f, f' := Filter("a", "", "", "S"), Filter("b", "", "", "S");
    var s := Signal("a", "", "", "S", parameters);
    Takeover([], f, h, s);
    Takeover([(f, h)], f', h', s);
    assert [] + [(f, h)] == [(f, h)] && [(f, h)] + [(f', h')] == [(f, h), (f', h')];
    assert Filters([]) == [];
    assert "a" != "b" by { assert "a"[0] != "b"[0]; }
  }

  /** Emits a signal and delivers it to a session whose handler takes types alike: the handler is
      called with the very arguments, once for each subscription that wants the signal. */
  method Broadcast(session: SessionManager, origin: Filter, ts: seq<CType>, args: seq<CValue>)
    returns (r: Outcome<seq<(nat, seq<CValue>)>>, ghost s: Signal)
    requires session.Valid() && TupleFits(ts, args) && AllEncodable(ts, args)
    requires var h := Newest(session.history, origin.name);
      h.Some? ==> AllAlike(h.value.params, ts) && AllFaithful(h.value.params)
    ensures (s.sender, s.interfaceName, s.objectPath, s.name)
         == (origin.sender, origin.interfaceName, origin.objectPath, origin.name)
    ensures r.Ok? && |r.value| == WantedCount(Filters(session.history), s)
    ensures forall k | 0 <= k < |r.value| ::
      Newest(session.history, s.name).Some? && r.value[k] == (Newest(session.history, s.name).value.callable, args)
  {
    var body := ToGVariant(Tuple(false, ts), TupleV(args));
    var signal := Signal(origin.sender, origin.interfaceName, origin.objectPath, origin.name, body.value);
    s := signal;
    ghost var h := Newest(session.history, origin.name);
    if h.Some? { BodyRoundTrip(ts, h.value.params, args, body.value); }
    r := session.Deliver(signal);
  }
}
