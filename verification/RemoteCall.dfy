/**
 A remote call end to end: `proxy::call` (include/proxy.inl:10-44), `handle_method_call`
 (src/object.cpp:78-113) and the generated handler (include/object.inl:74-109), with the bus
 carrying the message body and its descriptor list unchanged.
 */
module RemoteCall {
  import opened Types
  import opened Codec
  import opened Fidelity
  import opened Marshalling
  import opened Descriptors
  import opened Introspection
  import opened Object
  import Signature

  function Params(ts: seq<CType>): seq<Param> {
    seq(|ts|, k requires 0 <= k < |ts| => ArgParam(ts[k]))
  }

  function Slots(vs: seq<CValue>): seq<Slot> {
    seq(|vs|, k requires 0 <= k < |vs| => Arg(vs[k]))
  }

  function Values(ss: seq<Slot>): seq<CValue> {
    seq(|ss|, k requires 0 <= k < |ss| => if ss[k].Arg? then ss[k].v else VectorV([]))
  }

  /** `vs` is a value of std::tuple<ts...>. */
  ghost predicate TupleFits(ts: seq<CType>, vs: seq<CValue>) {
    |vs| == |ts| < 0x8000_0000 && forall k | 0 <= k < |ts| :: HasType(ts[k], vs[k])
  }

  /** Types for the same tuple on the two sides of the bus. */
  ghost predicate AllAlike(us: seq<CType>, ts: seq<CType>) {
    |us| == |ts| && forall k | 0 <= k < |ts| :: Alike(us[k], ts[k])
  }

  /** What the C++ compiler knows about a callable: its results have their declared types. */
  ghost predicate WellTyped(m: Method) {
    && |m.params| < 0x8000_0000
    && forall ss | SlotsFit(m.params, ss) && m.body(ss).Ok? :: TupleFits(RetTypes(m.ret), m.body(ss).value)
  }

  ghost predicate AllFaithful(ts: seq<CType>) {
    forall k | 0 <= k < |ts| :: Supported(ts[k]) && Faithful(ts[k])
  }

  // ---------------------------------------------------------------- the message body

  /** What the receiver decodes from the body of a message written at types alike. */
  lemma BodyRoundTrip(ts: seq<CType>, us: seq<CType>, vs: seq<CValue>, body: GVariant)
    requires Encodes(Tuple(false, ts), TupleV(vs), body) && AllAlike(us, ts) && AllFaithful(us)
    ensures body.GTuple? && |body.children| == |vs| == |ts|
    ensures forall k | 0 <= k < |us| :: Decode(us[k], body.children[k]) == Ok(vs[k])
    ensures Decode(Tuple(false, us), body) == Ok(TupleV(vs))
  {
    forall k | 0 <= k < |us| ensures Decode(us[k], body.children[k]) == Ok(vs[k]) {
      AlikeEncodes(us[k], ts[k], vs[k], body.children[k]);
      RoundTrip(us[k], vs[k], body.children[k]);
    }
    TupleReadsAs(false, us, body, vs);
  }

  /** The declared 'in' and 'out' types are the types of the message bodies that travel. */
  lemma BodyMatchesIntrospection(name: string, m: Method, vs: seq<CValue>, rs: seq<CValue>, body: GVariant,
                                 reply: GVariant)
    requires Encodes(Tuple(false, InTypes(m.params)), TupleV(vs), body)
    requires Encodes(Tuple(false, RetTypes(m.ret)), TupleV(rs), reply)
    ensures var args := MethodXml(name, m.params, m.ret, [], []).args;
      && "(" + Declared(args, In) + ")" == Signature.Print(TypeOf(body))
      && "(" + Declared(args, Out) + ")" == Signature.Print(TypeOf(reply))
  {
    MethodXmlDeclares(name, m.params, m.ret, [], []);
    EncodingTyped(Tuple(false, InTypes(m.params)), TupleV(vs), body);
    EncodingTyped(Tuple(false, RetTypes(m.ret)), TupleV(rs), reply);
    Signature.TypeStringPrints(Tuple(false, InTypes(m.params)));
    Signature.TypeStringPrints(Tuple(false, RetTypes(m.ret)));
  }

  // ---------------------------------------------------------------- the handler's arguments

  /** Slot `k` as the handler fills it before descriptors are set up. */
  ghost predicate FilledAt(ps: seq<Param>, s: Slot, k: nat, cs: seq<GVariant>, context: DBusContext)
    requires k < |ps|
  {
    match ps[k]
    case ContextParam => s == Context(context)
    case ArgParam(t) =>
      ArgIndex(ps, k) < |cs| && s.Arg? && Decode(t, cs[ArgIndex(ps, k)]) == Ok(s.v)
  }

  /** The loop of include/object.inl:79-91. */
  method FillArguments(ps: seq<Param>, parameters: GVariant, context: DBusContext)
    returns (r: Outcome<array<Slot>>, ghost read: nat)
    ensures r.Ok? ==> fresh(r.value) && r.value.Length == |ps| && read == |InTypes(ps)|
    ensures r.Ok? ==> forall k | 0 <= k < |ps| :: FilledAt(ps, r.value[k], k, Children(parameters), context)
    ensures r.Fault? ==> exists k :: UnreadableAt(ps, k, Children(parameters))
  {
    var args := new Slot[|ps|](_ => Context(context));
    var argIndex := 0;
    read := 0;
    for k := 0 to |ps|
      invariant argIndex == ArgIndex(ps, k)
      invariant forall j | 0 <= j < k :: FilledAt(ps, args[j], j, Children(parameters), context)
    {
      if ps[k].ContextParam? {
        args[k] := Context(context);
      } else {
        assert ArgIndex(ps, k + 1) == argIndex + 1;
        if argIndex >= |Children(parameters)| {
          assert UnreadableAt(ps, k, Children(parameters));
          return Fault, argIndex;
        }
        var v := FromGVariant(ps[k].t, Children(parameters)[argIndex]);
        if v.Fault? {
          assert UnreadableAt(ps, k, Children(parameters));
          return Fault, argIndex;
        }
        args[k] := Arg(v.value);
        argIndex := argIndex + 1;
      }
    }
    HandlerReadsDeclared(ps, |ps|);
    r, read := Ok(args), argIndex;
  }

  ghost predicate UnreadableAt(ps: seq<Param>, k: int, cs: seq<GVariant>) {
    && 0 <= k < |ps| && ps[k].ArgParam?
    && (ArgIndex(ps, k) >= |cs| || Decode(ps[k].t, cs[ArgIndex(ps, k)]).Fault?)
  }

  /** The tuple the handler holds, seen from the arguments that were sent: contexts are filled in,
      every other parameter gets its own argument, whatever their positions. */
  ghost function Interleaved(ps: seq<Param>, sent: seq<Slot>, context: DBusContext): seq<Slot>
    requires |sent| == |InTypes(ps)|
  {
    seq(|ps|, k requires 0 <= k < |ps| =>
      HandlerReadsDeclared(ps, k);
      if ps[k].ContextParam? then Context(context) else sent[ArgIndex(ps, k)])
  }

  /** Filling from the encoding of `vs` gives exactly the interleaving. */
  lemma FillingInterleaves(ps: seq<Param>, vs: seq<CValue>, body: GVariant, args: seq<Slot>, context: DBusContext)
    requires Encodes(Tuple(false, InTypes(ps)), TupleV(vs), body) && |args| == |ps| && AllFaithful(InTypes(ps))
    requires forall k | 0 <= k < |ps| :: FilledAt(ps, args[k], k, Children(body), context)
    ensures |vs| == |InTypes(ps)| && args == Interleaved(ps, Slots(vs), context)
  {
    AlikeItself(InTypes(ps));
    BodyRoundTrip(InTypes(ps), InTypes(ps), vs, body);
    forall k | 0 <= k < |ps| ensures args[k] == Interleaved(ps, Slots(vs), context)[k] {
      HandlerReadsDeclared(ps, k);
      if ps[k].ArgParam? {
        assert InTypes(ps)[ArgIndex(ps, k)] == ps[k].t;
        assert Decode(ps[k].t, body.children[ArgIndex(ps, k)]) == Ok(vs[ArgIndex(ps, k)]);
      }
    }
  }

  lemma AlikeItself(ts: seq<CType>)
    ensures AllAlike(ts, ts)
  {
    forall k | 0 <= k < |ts| ensures Alike(ts[k], ts[k]) {
      AlikeReflexive(ts[k]);
    }
  }

  /** Filling never faults on a body that encodes the declared arguments. */
  lemma FillingSucceeds(ps: seq<Param>, vs: seq<CValue>, body: GVariant, k: int)
    requires Encodes(Tuple(false, InTypes(ps)), TupleV(vs), body) && AllFaithful(InTypes(ps))
    ensures !UnreadableAt(ps, k, Children(body))
  {
    AlikeItself(InTypes(ps));
    BodyRoundTrip(InTypes(ps), InTypes(ps), vs, body);
    if 0 <= k < |ps| { HandlerReadsDeclared(ps, k); }
  }

  // ---------------------------------------------------------------- descriptors across the bus

  ghost function InterleavedView(ps: seq<Param>, sent: seq<Seen>, context: DBusContext): seq<Seen>
    requires |sent| == |InTypes(ps)|
  {
    seq(|ps|, k requires 0 <= k < |ps| =>
      HandlerReadsDeclared(ps, k);
      if ps[k].ContextParam? then Plain(Context(context)) else sent[ArgIndex(ps, k)])
  }

  /** Indices written among the caller's arguments are resolved among the callable's parameters,
      wherever contexts stand between them. */
  lemma DescriptorsInterleave(ps: seq<Param>, ss: seq<Slot>, files: map<int, File>, context: DBusContext)
    requires |ss| == |InTypes(ps)| && AllOpen(Params(InTypes(ps)), ss, files)
    ensures var args := Interleaved(ps, Renumbered(Params(InTypes(ps)), ss), context);
      var list := FileList(Params(InTypes(ps)), ss, files);
      && Resolvable(ps, args, list)
      && Resolved(ps, args, list) == InterleavedView(ps, View(Params(InTypes(ps)), ss, files), context)
  {
    var ts := InTypes(ps);
    var sent := Renumbered(Params(ts), ss);
    var args := Interleaved(ps, sent, context);
    var list := FileList(Params(ts), ss, files);
    RenumberingUndone(Params(ts), ss, files);
    forall k | 0 <= k < |ps| && ps[k].ArgParam?
      ensures ArgIndex(ps, k) < |ts| && args[k] == sent[ArgIndex(ps, k)]
      ensures IsFd(ps[k]) <==> IsFd(Params(ts)[ArgIndex(ps, k)])
    {
      HandlerReadsDeclared(ps, k);
    }
    var whole := Resolved(Params(ts), sent, list);
    forall k | 0 <= k < |ps| && IsFd(ps[k])
      ensures list.Some? && 0 <= FdOf(args[k]) < |list.value|
      ensures Opened(list.value[FdOf(args[k])]) == View(Params(ts), ss, files)[ArgIndex(ps, k)]
    {
      assert whole[ArgIndex(ps, k)] == View(Params(ts), ss, files)[ArgIndex(ps, k)];
    }
  }

  /** How many descriptors travel directly in a tuple. */
  function FdsIn(ts: seq<CType>): nat {
    FdCount(Params(ts), |ts|)
  }

  /** Contexts hold no descriptors: the callable needs as many as were sent. */
  lemma {:induction false} FdsErased(ps: seq<Param>, n: nat)
    requires n <= |ps| && ArgIndex(ps, n) <= |InTypes(ps)|
    ensures FdCount(ps, n) == FdCount(Params(InTypes(ps)), ArgIndex(ps, n))
    decreases n
  {
    if n > 0 {
      HandlerReadsDeclared(ps, n - 1);
      FdsErased(ps, n - 1);
    }
  }

  lemma AllFdsErased(ps: seq<Param>)
    ensures FdCount(ps, |ps|) == FdsIn(InTypes(ps))
  {
    HandlerReadsDeclared(ps, |ps|);
    FdsErased(ps, |ps|);
  }

  lemma RenumberedValues(ts: seq<CType>, vs: seq<CValue>)
    requires TupleFits(ts, vs)
    ensures SlotsFit(Params(ts), Slots(vs))
    ensures var sent := Renumbered(Params(ts), Slots(vs));
      Slots(Values(sent)) == sent && TupleFits(ts, Values(sent))
  {
    RenumberedFits(Params(ts), Slots(vs));
  }

  lemma InterleavedFits(ps: seq<Param>, vs: seq<CValue>, context: DBusContext)
    requires TupleFits(InTypes(ps), vs) && |ps| < 0x8000_0000
    ensures SlotsFit(ps, Interleaved(ps, Slots(vs), context))
  {
    forall k | 0 <= k < |ps| ensures SlotFits(ps[k], Interleaved(ps, Slots(vs), context)[k]) {
      HandlerReadsDeclared(ps, k);
      if ps[k].ArgParam? {
        assert HasType(InTypes(ps)[ArgIndex(ps, k)], vs[ArgIndex(ps, k)]);
      }
    }
  }

  // ---------------------------------------------------------------- one direction of a message

  /** Takes the descriptors out of a tuple and writes what remains: the caller's half before the
      call, and the handler's half after it. */
  method Send(p: Process, ts: seq<CType>, vs: seq<CValue>) returns (r: Outcome<(GVariant, Option<seq<File>>)>)
    requires p.Valid() && TupleFits(ts, vs)
    modifies p`held
    ensures p.Valid()
    ensures r.Ok? <==>
      AllOpen(Params(ts), Slots(vs), p.files) && old(p.held) + FdsIn(ts) <= p.Spare() && AllEncodable(ts, vs)
    ensures r.Ok? ==> Sent(p.files, ts, vs, r.value.0, r.value.1)
    ensures p.held == old(p.held) + if r.Ok? then FdsIn(ts) else 0
  {
    RenumberedValues(ts, vs);
    var args := new Slot[|vs|](k requires 0 <= k < |vs| => Arg(vs[k]));
    assert args[..] == Slots(vs);
    var list := ExtractUnixFdList(p, Params(ts), args);
    if list.Fault? { return Fault; }
    var body := ToGVariant(Tuple(false, ts), TupleV(Values(args[..])));
    StillEncodable(ts, vs);
    if body.Fault? {
      p.held := p.held - FdsIn(ts);
      return Fault;
    }
    r := Ok((body.value, list.value));
  }

  /** Nothing in the tuple contains a non-empty std::vector<bool>. */
  ghost predicate AllEncodable(ts: seq<CType>, vs: seq<CValue>)
    requires TupleFits(ts, vs)
  {
    forall k | 0 <= k < |ts| :: Encodable(ts[k], vs[k])
  }

  lemma StillEncodable(ts: seq<CType>, vs: seq<CValue>)
    requires TupleFits(ts, vs)
    ensures TupleFits(ts, Values(Renumbered(Params(ts), Slots(vs))))
    ensures Encodable(Tuple(false, ts), TupleV(Values(Renumbered(Params(ts), Slots(vs))))) <==> AllEncodable(ts, vs)
  {
    RenumberedValues(ts, vs);
    var sent := Values(Renumbered(Params(ts), Slots(vs)));
    forall k | 0 <= k < |ts| ensures Encodable(ts[k], sent[k]) <==> Encodable(ts[k], vs[k]) {
      if !IsFd(Params(ts)[k]) { assert sent[k] == vs[k]; }
    }
  }

  /** `body` and `list` are what is sent for `vs` by a process whose descriptors are `files`. */
  ghost predicate Sent(files: map<int, File>, ts: seq<CType>, vs: seq<CValue>, body: GVariant,
                       list: Option<seq<File>>) {
    && TupleFits(ts, vs) && AllOpen(Params(ts), Slots(vs), files)
    && Encodes(Tuple(false, ts), TupleV(Values(Renumbered(Params(ts), Slots(vs)))), body)
    && list == FileList(Params(ts), Slots(vs), files)
  }

  /** A message sent at some types is one sent at all types alike. */
  lemma SentAlike(files: map<int, File>, us: seq<CType>, ts: seq<CType>, vs: seq<CValue>, body: GVariant,
                  list: Option<seq<File>>)
    requires Sent(files, ts, vs, body, list) && AllAlike(us, ts)
    ensures Sent(files, us, vs, body, list) && FdsIn(us) == FdsIn(ts)
    ensures View(Params(us), Slots(vs), files) == View(Params(ts), Slots(vs), files)
  {
    forall k | 0 <= k < |ts| ensures HasType(us[k], vs[k]) && (IsFd(Params(us)[k]) <==> IsFd(Params(ts)[k])) {
      AlikeHasType(us[k], ts[k], vs[k]);
    }
    SamePlaces(Params(us), Params(ts), Slots(vs), files);
    AlikeEncodes(Tuple(false, us), Tuple(false, ts), TupleV(Values(Renumbered(Params(ts), Slots(vs)))), body);
  }

  lemma ListCarries(files: map<int, File>, ts: seq<CType>, vs: seq<CValue>, body: GVariant, list: Option<seq<File>>)
    requires Sent(files, ts, vs, body, list)
    ensures Carried(list) == FdsIn(ts)
  {
    ListLength(Params(ts), Slots(vs), files);
  }

  // ---------------------------------------------------------------- the object's half

  /** What the handler relies on: a well-typed callable whose parameters round-trip. */
  ghost predicate Callable(m: Method) {
    AllFaithful(InTypes(m.params)) && WellTyped(m)
  }

  /** The callable ran on `received`, the caller's arguments as the object's process sees them. */
  ghost predicate Delivered(m: Method, received: seq<Slot>, files: map<int, File>, sent: seq<Seen>,
                            context: DBusContext) {
    && SlotsFit(m.params, received) && AllOpen(m.params, received, files) && |sent| == |InTypes(m.params)|
    && View(m.params, received, files) == InterleavedView(m.params, sent, context)
  }

  /** Why a callable that ran may still produce an error reply. */
  ghost predicate ResultUnsendable(m: Method, received: seq<Slot>, files: map<int, File>) {
    && WellTyped(m) && SlotsFit(m.params, received)
    && (m.body(received).Ok? ==>
          !AllOpen(Params(RetTypes(m.ret)), Slots(m.body(received).value), files)
          || !AllEncodable(RetTypes(m.ret), m.body(received).value))
  }

  /** The generated handler; Fault is an exception. The ghost parameters tell what the message was
      made from; `ran` whether the callable was applied. */
  method Handle(server: Process, m: Method, body: GVariant, list: Option<seq<File>>, context: DBusContext,
                ghost files: map<int, File>, ghost vs: seq<CValue>)
    returns (r: Outcome<(GVariant, Option<seq<File>>)>, ghost ran: bool, ghost received: seq<Slot>)
    requires server.Valid() && Callable(m) && Sent(files, InTypes(m.params), vs, body, list)
    modifies server
    ensures server.Valid() && Extends(server.files, old(server.files)) && server.Spare() <= old(server.Spare())
    ensures ran ==> Delivered(m, received, server.files, View(Params(InTypes(m.params)), Slots(vs), files), context)
    ensures r.Ok? ==> ran && m.body(received).Ok?
    ensures r.Ok? ==> Sent(server.files, RetTypes(m.ret), m.body(received).value, r.value.0, r.value.1)
    ensures server.held == old(server.held) + if r.Ok? then FdsIn(RetTypes(m.ret)) else 0
    ensures r.Fault? && !ran ==> server.Spare() < old(server.held) + FdsIn(InTypes(m.params))
    ensures r.Fault? && ran ==>
      ResultUnsendable(m, received, server.files) || server.Spare() < old(server.held) + FdsIn(RetTypes(m.ret))
  {
    ran, received := false, [];
    ghost var sent := Renumbered(Params(InTypes(m.params)), Slots(vs));
    RenumberedValues(InTypes(m.params), vs);
    var args, read := FillArguments(m.params, body, context);
    if args.Fault? {
      ghost var k :| UnreadableAt(m.params, k, Children(body));
      FillingSucceeds(m.params, Values(sent), body, k);
      assert false;
    }
    FillingInterleaves(m.params, Values(sent), body, args.value[..], context);
    InterleavedFits(m.params, Values(sent), context);
    DescriptorsInterleave(m.params, Slots(vs), files, context);
    AllFdsErased(m.params);
    var ok := SetUpFromUnixFdList(server, list, m.params, args.value);
    if !ok { return Fault, ran, received; }
    ran, received := true, args.value[..];
    var result := m.body(args.value[..]);
    if result.Fault? { return Fault, ran, received; }
    if m.ret == NoResult {
      NothingToSend(server.files, result.value);
      r := Ok((GTuple([]), None));
    } else {
      r := Send(server, RetTypes(m.ret), result.value);
    }
  }

  /** A callable returning void is answered with the unit tuple. */
  lemma NothingToSend(files: map<int, File>, vs: seq<CValue>)
    requires TupleFits([], vs)
    ensures Sent(files, [], vs, GTuple([]), None)
  {
    assert Params([]) == [] && Slots(vs) == [];
    assert FdCount([], 0) == 0;
  }

  /** The descriptors in the result of a method, none if it is missing. */
  ghost function ResultFds(obj: DBusObject, member: string): nat
    reads obj`methods
  {
    if member in obj.methods then FdsIn(RetTypes(obj.methods[member].ret)) else 0
  }

  /** `handle_method_call`; Fault is the error reply. The message brings its list along. */
  method Serve(server: Process, obj: DBusObject, member: string, body: GVariant, list: Option<seq<File>>,
               context: DBusContext, ghost files: map<int, File>, ghost ts: seq<CType>, ghost vs: seq<CValue>)
    returns (r: Outcome<(GVariant, Option<seq<File>>)>, ghost ran: bool, ghost received: seq<Slot>)
    requires server.Valid() && Sent(files, ts, vs, body, list)
    requires member in obj.methods ==>
      Callable(obj.methods[member]) && AllAlike(InTypes(obj.methods[member].params), ts)
    modifies server
    ensures server.Valid() && server.held == old(server.held)
    ensures Extends(server.files, old(server.files)) && server.Spare() <= old(server.Spare())
    ensures member !in obj.methods || obj.veto(OnMethod, context) ==>
      r.Fault? && !ran && server.files == old(server.files)
    ensures ran ==> member in obj.methods && !obj.veto(OnMethod, context)
    ensures ran ==> Delivered(obj.methods[member], received, server.files, View(Params(ts), Slots(vs), files), context)
    ensures r.Ok? ==> ran && obj.methods[member].body(received).Ok?
    ensures r.Ok? ==>
      var m := obj.methods[member];
      Sent(server.files, RetTypes(m.ret), m.body(received).value, r.value.0, r.value.1)
    ensures r.Fault? ==>
      || member !in obj.methods || obj.veto(OnMethod, context)
      || (ran && ResultUnsendable(obj.methods[member], received, server.files))
      || server.Spare() < old(server.held) + 2 * FdsIn(ts) + ResultFds(obj, member)
  {
    ran, received := false, [];
    ListCarries(files, ts, vs, body, list);
    var arrived := server.Hold(Carried(list));
    if !arrived { return Fault, ran, received; }
    if member !in obj.methods || obj.veto(OnMethod, context) {
      server.held := server.held - Carried(list);
      return Fault, ran, received;
    }
    var m := obj.methods[member];
    SentAlike(files, InTypes(m.params), ts, vs, body, list);
    r, ran, received := Handle(server, m, body, list, context, files, vs);
    server.held := server.held - Carried(list) - if r.Ok? then FdsIn(RetTypes(m.ret)) else 0;
  }

  // ---------------------------------------------------------------- the caller

  /** The caller's values are the object's, up to the numbers of the descriptors. */
  ghost predicate Returned(ts: seq<CType>, vs: seq<CValue>, files: map<int, File>, rs: seq<CValue>,
                           files': map<int, File>) {
    && TupleFits(ts, vs) && TupleFits(ts, rs)
    && AllOpen(Params(ts), Slots(vs), files) && AllOpen(Params(ts), Slots(rs), files')
    && View(Params(ts), Slots(vs), files) == View(Params(ts), Slots(rs), files')
  }

  /** Reads a reply and sets its descriptors up; a caller that wants nothing reads nothing. */
  method Receive(client: Process, ret: Returns, body: GVariant, list: Option<seq<File>>,
                 ghost files: map<int, File>, ghost ts: seq<CType>, ghost rs: seq<CValue>)
    returns (r: Outcome<seq<CValue>>)
    requires client.Valid() && Sent(files, ts, rs, body, list)
    requires ret == NoResult || (AllAlike(RetTypes(ret), ts) && AllFaithful(RetTypes(ret)))
    modifies client
    ensures client.Valid() && client.held == old(client.held)
    ensures Extends(client.files, old(client.files)) && client.Spare() <= old(client.Spare())
    ensures r.Ok? ==>
      if ret == NoResult then r.value == [] else Returned(RetTypes(ret), r.value, client.files, rs, files)
    ensures r.Fault? ==> client.Spare() < old(client.held) + 2 * FdsIn(ts)
  {
    ListCarries(files, ts, rs, body, list);
    var arrived := client.Hold(Carried(list));
    if !arrived { return Fault; }
    if ret == NoResult {
      r := Ok([]);
    } else {
      SentAlike(files, RetTypes(ret), ts, rs, body, list);
      r := ReadReply(client, RetTypes(ret), body, list, files, rs);
    }
    client.held := client.held - Carried(list);
  }

  method ReadReply(client: Process, ts: seq<CType>, body: GVariant, list: Option<seq<File>>,
                   ghost files: map<int, File>, ghost rs: seq<CValue>)
    returns (r: Outcome<seq<CValue>>)
    requires client.Valid() && Sent(files, ts, rs, body, list) && AllFaithful(ts)
    modifies client`files
    ensures client.Valid() && Extends(client.files, old(client.files)) && client.Spare() <= old(client.Spare())
    ensures r.Ok? ==> Returned(ts, r.value, client.files, rs, files)
    ensures r.Fault? ==> client.Spare() < client.held + FdsIn(ts)
  {
    ReplyDecodes(files, ts, rs, body, list);
    var decoded := FromGVariant(Tuple(false, ts), body);
    var values := decoded.value.elems;
    var args := new Slot[|values|](k requires 0 <= k < |values| => Arg(values[k]));
    assert args[..] == Slots(values);
    var ok := SetUpFromUnixFdList(client, list, Params(ts), args);
    if !ok { return Fault; }
    SlotsOfValues(ts, args[..]);
    r := Ok(Values(args[..]));
  }

  lemma ReplyDecodes(files: map<int, File>, ts: seq<CType>, rs: seq<CValue>, body: GVariant, list: Option<seq<File>>)
    requires Sent(files, ts, rs, body, list) && AllFaithful(ts)
    ensures var sent := Values(Renumbered(Params(ts), Slots(rs)));
      && Decode(Tuple(false, ts), body) == Ok(TupleV(sent))
      && SlotsFit(Params(ts), Slots(sent)) && Resolvable(Params(ts), Slots(sent), list)
      && Resolved(Params(ts), Slots(sent), list) == View(Params(ts), Slots(rs), files)
  {
    RenumberedValues(ts, rs);
    AlikeItself(ts);
    BodyRoundTrip(ts, ts, Values(Renumbered(Params(ts), Slots(rs))), body);
    RenumberedFits(Params(ts), Slots(rs));
    RenumberingUndone(Params(ts), Slots(rs), files);
  }

  lemma SlotsOfValues(ts: seq<CType>, ss: seq<Slot>)
    requires SlotsFit(Params(ts), ss)
    ensures Slots(Values(ss)) == ss && TupleFits(ts, Values(ss))
  {
    forall k | 0 <= k < |ts| ensures ss[k].Arg? && HasType(ts[k], ss[k].v) {
      assert SlotFits(Params(ts)[k], ss[k]);
    }
  }

  /** Descriptors that either side opens later change nothing. */
  lemma DeliveredStays(m: Method, received: seq<Slot>, base: map<int, File>, files: map<int, File>, sent: seq<Seen>,
                       context: DBusContext)
    requires Delivered(m, received, base, sent, context) && Extends(files, base)
    ensures Delivered(m, received, files, sent, context)
  {
    ViewExtends(m.params, received, base, files);
  }

  lemma ReturnedStays(ts: seq<CType>, vs: seq<CValue>, files: map<int, File>, rs: seq<CValue>,
                      base': map<int, File>, files': map<int, File>)
    requires Returned(ts, vs, files, rs, base') && Extends(files', base')
    ensures Returned(ts, vs, files, rs, files')
  {
    ViewExtends(Params(ts), Slots(rs), base', files');
  }

  /** The caller's types and the registered callable's write alike, and both sides' round-trip; a
      caller may ignore the result. */
  ghost predicate Agree(m: Method, ts: seq<CType>, ret: Returns) {
    && Callable(m) && AllAlike(InTypes(m.params), ts)
    && (ret == NoResult || (AllAlike(RetTypes(ret), RetTypes(m.ret)) && AllFaithful(RetTypes(ret))))
  }

  /** Sends a request and waits for the reply; the request's list lives on when there is one. */
  method Request(client: Process, server: Process, obj: DBusObject, member: string,
                 ts: seq<CType>, args: seq<CValue>, context: DBusContext)
    returns (r: Outcome<(GVariant, Option<seq<File>>)>, ghost ran: bool, ghost received: seq<Slot>)
    requires client.Valid() && server.Valid() && TupleFits(ts, args)
    requires member in obj.methods ==>
      Callable(obj.methods[member]) && AllAlike(InTypes(obj.methods[member].params), ts)
    modifies client, server
    ensures client.Valid() && server.Valid()
    ensures client.held == old(client.held) + if r.Ok? then FdsIn(ts) else 0
    ensures client != server ==> server.held == old(server.held)
    ensures member !in obj.methods || obj.veto(OnMethod, context) ==> r.Fault? && !ran
    ensures ran ==> member in obj.methods && !obj.veto(OnMethod, context)
    ensures ran ==> AllOpen(Params(ts), Slots(args), old(client.files))
    ensures ran ==> Delivered(obj.methods[member], received, server.files,
      View(Params(ts), Slots(args), old(client.files)), context)
    ensures r.Ok? ==> ran && obj.methods[member].body(received).Ok?
    ensures r.Ok? ==>
      var m := obj.methods[member];
      Sent(server.files, RetTypes(m.ret), m.body(received).value, r.value.0, r.value.1)
    ensures r.Fault? ==>
      || !AllOpen(Params(ts), Slots(args), old(client.files)) || !AllEncodable(ts, args)
      || member !in obj.methods || obj.veto(OnMethod, context)
      || (ran && ResultUnsendable(obj.methods[member], received, server.files))
      || client.Spare() < old(client.held) + FdsIn(ts)
      || server.Spare() < old(server.held) + 3 * FdsIn(ts) + ResultFds(obj, member)
  {
    ran, received := false, [];
    var request := Send(client, ts, args);
    if request.Fault? { return Fault, ran, received; }
    r, ran, received := Serve(server, obj, member, request.value.0, request.value.1, context,
                              old(client.files), ts, args);
    if r.Fault? { client.held := client.held - FdsIn(ts); }
  }

  /** `proxy::call<R>(member, args...)`. Whenever it returns, the registered callable was applied
      to the caller's arguments and the caller gets what it returned, descriptors standing for
      the same open files on both sides; the reasons for an exception are listed. */
  method Call(client: Process, server: Process, obj: DBusObject, member: string,
              ts: seq<CType>, args: seq<CValue>, ret: Returns, context: DBusContext)
    returns (r: Outcome<seq<CValue>>, ghost ran: bool, ghost received: seq<Slot>)
    requires client.Valid() && server.Valid() && TupleFits(ts, args)
    requires member in obj.methods ==> Agree(obj.methods[member], ts, ret)
    modifies client, server
    ensures client.Valid() && server.Valid() && client.held == old(client.held) && server.held == old(server.held)
    ensures member !in obj.methods || obj.veto(OnMethod, context) ==> r.Fault? && !ran
    ensures ran ==> member in obj.methods && !obj.veto(OnMethod, context)
    ensures ran ==> AllOpen(Params(ts), Slots(args), old(client.files))
    ensures ran ==> Delivered(obj.methods[member], received, server.files,
      View(Params(ts), Slots(args), old(client.files)), context)
    ensures r.Ok? ==> ran && obj.methods[member].body(received).Ok?
    ensures r.Ok? ==> if ret == NoResult then r.value == [] else
      Returned(RetTypes(ret), r.value, client.files, obj.methods[member].body(received).value, server.files)
    ensures r.Fault? ==>
      || !AllOpen(Params(ts), Slots(args), old(client.files)) || !AllEncodable(ts, args)
      || member !in obj.methods || obj.veto(OnMethod, context)
      || (ran && ResultUnsendable(obj.methods[member], received, server.files))
      || client.Spare() < old(client.held) + FdsIn(ts) + 2 * ResultFds(obj, member)
      || server.Spare() < old(server.held) + 3 * FdsIn(ts) + ResultFds(obj, member)
  {
    var reply;
    reply, ran, received := Request(client, server, obj, member, ts, args, context);
    if reply.Fault? { return Fault, ran, received; }
    var m := obj.methods[member];
    label replied:
    r := Receive(client, ret, reply.value.0, reply.value.1, server.files, RetTypes(m.ret), m.body(received).value);
    client.held := client.held - FdsIn(ts);
    DeliveredStays(m, received, old@replied(server.files), server.files,
                   View(Params(ts), Slots(args), old(client.files)), context);
    if r.Ok? && ret != NoResult {
      ReturnedStays(RetTypes(ret), r.value, client.files, m.body(received).value, old@replied(server.files),
                    server.files);
    }
  }

  /** Without descriptors among the results, the caller gets the very values. */
  lemma PlainResult(ts: seq<CType>, vs: seq<CValue>, files: map<int, File>, rs: seq<CValue>, files': map<int, File>)
    requires Returned(ts, vs, files, rs, files')
    requires forall k | 0 <= k < |ts| :: ts[k] != Scalar(UnixFd)
    ensures vs == rs
  {
    var a, b := View(Params(ts), Slots(vs), files), View(Params(ts), Slots(rs), files');
    forall k | 0 <= k < |ts| ensures vs[k] == rs[k] {
      assert a[k] == Plain(Arg(vs[k])) && b[k] == Plain(Arg(rs[k]));
    }
  }

  /** A parameter that is not a descriptor receives the very argument, whatever contexts and
      descriptors stand around it, and a context parameter receives the context. */
  lemma PlainArgument(m: Method, received: seq<Slot>, files: map<int, File>, ts: seq<CType>, args: seq<CValue>,
                      files': map<int, File>, context: DBusContext, k: nat)
    requires AllAlike(InTypes(m.params), ts) && |args| == |ts| && AllOpen(Params(ts), Slots(args), files')
    requires Delivered(m, received, files, View(Params(ts), Slots(args), files'), context)
    requires k < |m.params| && !IsFd(m.params[k])
    ensures m.params[k].ContextParam? ==> received[k] == Context(context)
    ensures m.params[k].ArgParam? ==> ArgIndex(m.params, k) < |args| && received[k] == Arg(args[ArgIndex(m.params, k)])
  {
    HandlerReadsDeclared(m.params, k);
    var sent := View(Params(ts), Slots(args), files');
    assert View(m.params, received, files)[k] == Plain(received[k]);
    assert InterleavedView(m.params, sent, context)[k] == Plain(received[k]);
  }

  ghost predicate IsFdValue(v: CValue, files: map<int, File>) {
    v.Atomic? && v.a.IntA? && v.a.n in files
  }

  /** A unix_fd_t parameter receives a descriptor of the object's process for the very file the
      caller's argument stands for. */
  lemma FdArgument(m: Method, received: seq<Slot>, files: map<int, File>, ts: seq<CType>, args: seq<CValue>,
                   files': map<int, File>, context: DBusContext, k: nat)
    requires AllAlike(InTypes(m.params), ts) && |args| == |ts| && AllOpen(Params(ts), Slots(args), files')
    requires Delivered(m, received, files, View(Params(ts), Slots(args), files'), context) && TupleFits(ts, args)
    requires k < |m.params| && m.params[k] == ArgParam(Scalar(UnixFd))
    ensures ArgIndex(m.params, k) < |args|
    ensures received[k].Arg? && IsFdValue(received[k].v, files) && IsFdValue(args[ArgIndex(m.params, k)], files')
    ensures files[received[k].v.a.n] == files'[args[ArgIndex(m.params, k)].a.n]
  {
    HandlerReadsDeclared(m.params, k);
    var i := ArgIndex(m.params, k);
    var sent := View(Params(ts), Slots(args), files');
    assert HasType(ts[i], args[i]) && ts[i] == Scalar(UnixFd);
    assert SlotFits(m.params[k], received[k]);
    assert IsFd(Params(ts)[i]) && FdOf(Slots(args)[i]) == args[i].a.n;
    assert sent[i] == Opened(files'[args[i].a.n]);
    assert View(m.params, received, files)[k] == Opened(files[received[k].v.a.n]);
    assert InterleavedView(m.params, sent, context)[k] == sent[i];
  }

  /** So does a caller for every unix_fd_t in the result. */
  lemma FdResult(ts: seq<CType>, vs: seq<CValue>, files: map<int, File>, rs: seq<CValue>, files': map<int, File>,
                 k: nat)
    requires Returned(ts, vs, files, rs, files') && k < |ts| && ts[k] == Scalar(UnixFd)
    ensures IsFdValue(vs[k], files) && IsFdValue(rs[k], files') && files[vs[k].a.n] == files'[rs[k].a.n]
  {
    assert HasType(ts[k], vs[k]) && HasType(ts[k], rs[k]);
    assert IsFd(Params(ts)[k]) && FdOf(Slots(vs)[k]) == vs[k].a.n && FdOf(Slots(rs)[k]) == rs[k].a.n;
    assert View(Params(ts), Slots(vs), files)[k] == Opened(files[vs[k].a.n]);
    assert View(Params(ts), Slots(rs), files')[k] == Opened(files'[rs[k].a.n]);
  }
}
