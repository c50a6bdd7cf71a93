/**
 The registration side of easydbuspp::object: member maps, the XML accumulated beside them, and
 the property handlers (include/object.inl:112-233, src/object.cpp:115-203).
 */
module Object {
  import opened Types
  import opened Signature
  import opened Codec
  import opened Descriptors
  import opened Introspection
  import opened Marshalling

  /** A registered callable; Fault is a thrown std::exception. */
  datatype Method = Method(params: seq<Param>, ret: Returns, body: seq<Slot> -> Outcome<seq<CValue>>)

  datatype Verdict = Accepted | Rejected | Threw

  /** What stands behind a property: a captured copy, a reference to a variable, or callbacks over
      some state of theirs. Variables and callback state live in numbered cells, which properties
      may share; a getter faults where it throws. */
  datatype Backing =
    | Constant(value: CValue)
    | Variable(cell: nat)
    | Callbacks(getter: Option<CValue -> Outcome<CValue>>,
                setter: Option<(CValue, CValue) -> (CValue, Verdict)>, cell: nat)

  datatype Property = Property(t: CType, backing: Backing)

  predicate Readable(p: Property) {
    p.backing.Callbacks? ==> p.backing.getter.Some?
  }

  predicate Writable(p: Property) {
    p.backing.Variable? || (p.backing.Callbacks? && p.backing.setter.Some?)
  }

  predicate AccessMatches(a: Access, p: Property) {
    match a
    case Read => Readable(p) && !Writable(p)
    case Write => !Readable(p) && Writable(p)
    case ReadWrite => Readable(p) && Writable(p)
  }

  function AccessOf(readable: bool, writable: bool): Access
    requires readable || writable
  {
    if readable && writable then ReadWrite else if readable then Read else Write
  }

  predicate Placed(p: Property, cells: map<nat, CValue>) {
    p.backing.Constant? || p.backing.cell in cells
  }

  /** What a read of the property makes of the cells. */
  function Value(p: Property, cells: map<nat, CValue>): Outcome<CValue>
    requires Readable(p) && Placed(p, cells)
  {
    match p.backing
    case Constant(v) => Ok(v)
    case Variable(c) => Ok(cells[c])
    case Callbacks(getter, _, c) => getter.value(cells[c])
  }

  // ---------------------------------------------------------------- writes, as a function

  datatype Reply = Done | Refused | Failed

  /** The property half of an object: what is registered and the cells behind it. */
  datatype Server = Server(props: map<string, Property>, cells: map<nat, CValue>)

  ghost predicate ServerValid(srv: Server) {
    forall name | name in srv.props :: Placed(srv.props[name], srv.cells)
  }

  /** What a Set request does: the new cells, the signals it emits, the reply. */
  datatype Effect = Effect(cells: map<nat, CValue>, signals: seq<(string, GVariant)>, reply: Reply)

  /** One Set request. */
  function SetProperty(srv: Server, name: string, g: GVariant): Effect
    requires name in srv.props && Placed(srv.props[name], srv.cells)
  {
    Assign(srv.props[name], srv.cells, name, g, Decode(srv.props[name].t, g))
  }

  /** The setter once the value is decoded: it is stored first and then announced, whether the
      setter accepts it or not. */
  function Assign(p: Property, cells: map<nat, CValue>, name: string, g: GVariant, o: Outcome<CValue>): Effect
    requires Placed(p, cells)
  {
    if !Writable(p) || o.Fault? then Effect(cells, [], Failed)
    else if p.backing.Variable? then Effect(cells[p.backing.cell := o.value], [(name, g)], Done)
    else
      var (s, verdict) := p.backing.setter.value(cells[p.backing.cell], o.value);
      Effect(cells[p.backing.cell := s], if verdict == Threw then [] else [(name, g)],
             if verdict == Accepted then Done else if verdict == Rejected then Refused else Failed)
  }

  predicate SameCell(p: Property, q: Property) {
    !p.backing.Constant? && !q.backing.Constant? && p.backing.cell == q.backing.cell
  }

  /** What a Set request means to those who watch: it is announced with the very value sent unless
      it fails, a refusal included; it reaches a variable whenever it decodes; a setter's verdict is
      the reply; and no property over another cell changes. */
  lemma WriteIsAnnounced(srv: Server, name: string, g: GVariant)
    requires ServerValid(srv) && name in srv.props
    ensures var p, e := srv.props[name], SetProperty(srv, name, g);
      && ServerValid(Server(srv.props, e.cells))
      && e.signals == (if e.reply == Failed then [] else [(name, g)])
      && (e.reply != Failed ==> Writable(p) && Decode(p.t, g).Ok?)
      && (p.backing.Variable? && Decode(p.t, g).Ok? ==> e.reply == Done && Value(p, e.cells) == Decode(p.t, g))
      && (p.backing.Callbacks? && p.backing.setter.Some? && Decode(p.t, g).Ok? ==>
            var (s, verdict) := p.backing.setter.value(srv.cells[p.backing.cell], Decode(p.t, g).value);
            && e.cells == srv.cells[p.backing.cell := s]
            && (e.reply == Done <==> verdict == Accepted)
            && (e.reply == Refused <==> verdict == Rejected)
            && (e.reply == Failed <==> verdict == Threw))
      && (!Writable(p) || Decode(p.t, g).Fault? ==> e.reply == Failed && e.cells == srv.cells)
      && forall n | n in srv.props && Readable(srv.props[n]) && !SameCell(srv.props[n], p) ::
        Value(srv.props[n], e.cells) == Value(srv.props[n], srv.cells)
  {
    AssignIsAnnounced(srv.props[name], srv.cells, name, g, Decode(srv.props[name].t, g));
  }

  lemma AssignIsAnnounced(p: Property, cells: map<nat, CValue>, name: string, g: GVariant, o: Outcome<CValue>)
    requires Placed(p, cells)
    ensures var e := Assign(p, cells, name, g, o);
      && e.signals == (if e.reply == Failed then [] else [(name, g)])
      && (e.reply != Failed ==> Writable(p) && o.Ok?)
      && (p.backing.Variable? && o.Ok? ==> e.reply == Done && Value(p, e.cells) == o)
      && e.cells.Keys == cells.Keys
      && (forall c | c in cells && (p.backing.Constant? || c != p.backing.cell) :: e.cells[c] == cells[c])
  {
  }

  /** What a pre-request handler is told about a request. */
  datatype RequestType = OnMethod | OnGet | OnSet

  // ---------------------------------------------------------------- the object

  ghost predicate LastAt<T>(xml: seq<T>, named: T -> string, i: int, name: string) {
    0 <= i < |xml| && named(xml[i]) == name && forall j | i < j < |xml| :: named(xml[j]) != name
  }

  ghost predicate MethodsDescribed(xml: seq<MethodElement>, methods: map<string, Method>) {
    && (forall i | 0 <= i < |xml| :: xml[i].name in methods)
    && (forall n | n in methods :: exists i :: LastAt(xml, MethodName, i, n))
    && forall n, i | n in methods && LastAt(xml, MethodName, i, n) ::
      && Declared(xml[i].args, In) == TypeStrings(InTypes(methods[n].params))
      && Declared(xml[i].args, Out) == TypeStrings(RetTypes(methods[n].ret))
  }

  ghost predicate PropertiesDescribed(xml: seq<PropertyElement>, props: map<string, Property>) {
    && (forall i | 0 <= i < |xml| :: xml[i].name in props)
    && (forall n | n in props :: exists i :: LastAt(xml, PropertyName, i, n))
    && forall n, i | n in props && LastAt(xml, PropertyName, i, n) ::
      xml[i].typ == TypeString(props[n].t) && AccessMatches(xml[i].access, props[n])
  }

  lemma MethodsExtend(xml: seq<MethodElement>, methods: map<string, Method>, e: MethodElement, m: Method)
    requires MethodsDescribed(xml, methods)
    requires Declared(e.args, In) == TypeStrings(InTypes(m.params))
    requires Declared(e.args, Out) == TypeStrings(RetTypes(m.ret))
    ensures MethodsDescribed(xml + [e], methods[e.name := m])
  {
    Append(xml, e, MethodName);
    var updated := methods[e.name := m];
    forall n | n in updated ensures exists i :: LastAt(xml + [e], MethodName, i, n) {
      if n != e.name {
        var i :| LastAt(xml, MethodName, i, n);
        assert LastAt(xml + [e], MethodName, i, n);
      }
    }
    forall n, i | n in methods[e.name := m] && LastAt(xml + [e], MethodName, i, n)
      ensures Declared((xml + [e])[i].args, In) == TypeStrings(InTypes(methods[e.name := m][n].params))
      ensures Declared((xml + [e])[i].args, Out) == TypeStrings(RetTypes(methods[e.name := m][n].ret))
    {
      if n != e.name { assert LastAt(xml, MethodName, i, n); }
    }
  }

  lemma PropertiesExtend(xml: seq<PropertyElement>, props: map<string, Property>, e: PropertyElement, p: Property)
    requires PropertiesDescribed(xml, props)
    requires e.typ == TypeString(p.t) && AccessMatches(e.access, p)
    ensures PropertiesDescribed(xml + [e], props[e.name := p])
  {
    Append(xml, e, PropertyName);
    var updated := props[e.name := p];
    forall n | n in updated ensures exists i :: LastAt(xml + [e], PropertyName, i, n) {
      if n != e.name {
        var i :| LastAt(xml, PropertyName, i, n);
        assert LastAt(xml + [e], PropertyName, i, n);
      }
    }
    forall n, i | n in props[e.name := p] && LastAt(xml + [e], PropertyName, i, n)
      ensures (xml + [e])[i].typ == TypeString(props[e.name := p][n].t)
      ensures AccessMatches((xml + [e])[i].access, props[e.name := p][n])
    {
      if n != e.name { assert LastAt(xml, PropertyName, i, n); }
    }
  }

  function MethodName(e: MethodElement): string { e.name }
  function PropertyName(e: PropertyElement): string { e.name }

  class DBusObject {
    var methodsXml: seq<MethodElement>
    var propertiesXml: seq<PropertyElement>
    var signalsXml: seq<SignalElement>
    var methods: map<string, Method>
    var properties: map<string, Property>
    var cells: map<nat, CValue>

    /** PropertiesChanged signals emitted so far. */
    var emitted: seq<(string, GVariant)>

    /** True where the pre-request handler throws. */
    var veto: (RequestType, DBusContext) -> bool

    /** The names in the XML are the keys of the maps, and the last element of a name describes
        what is registered under it. */
    ghost predicate Valid()
      reads this
    {
      ServerValid(AsServer()) && MethodsDescribed(methodsXml, methods)
      && PropertiesDescribed(propertiesXml, properties)
    }

    ghost function AsServer(): Server
      reads this
    {
      Server(properties, cells)
    }

    constructor (cells: map<nat, CValue>)
      ensures Valid() && methods == map[] && properties == map[] && emitted == [] && this.cells == cells
    {
      methodsXml, propertiesXml, signalsXml, emitted := [], [], [], [];
      methods, properties := map[], map[];
      this.cells := cells;
      veto := (_, _) => false;
    }

    /** `add_method`: all or nothing. */
    method AddMethod(name: string, m: Method, inNames: seq<string>, outNames: seq<string>) returns (ok: bool)
      requires Valid()
      modifies this`methods, this`methodsXml
      ensures Valid()
      ensures ok <==> Acceptable(m.params, m.ret, inNames, outNames)
      ensures ok ==> methods == old(methods)[name := m]
      ensures ok ==> methodsXml == old(methodsXml) + [MethodXml(name, m.params, m.ret, inNames, outNames)]
      ensures ok ==> ArgsNamed(methodsXml[|methodsXml| - 1].args, m.params, m.ret, inNames, outNames)
      ensures !ok ==> methods == old(methods) && methodsXml == old(methodsXml)
    {
      var xml := MethodHelper(name, m.params, m.ret, inNames, outNames);
      if xml.Fault? { return false; }
      MethodXmlTypes(name, m.params, m.ret, inNames, outNames);
      MethodsExtend(methodsXml, methods, xml.value, m);
      methodsXml := methodsXml + [xml.value];
      methods := methods[name := m];
      ok := true;
    }

    /** `add_property` from the value in `cell`: an lvalue is referred to, anything else copied. */
    method AddProperty(name: string, t: CType, cell: nat, isOutputType: bool)
      requires Valid() && cell in cells
      modifies this`properties, this`propertiesXml
      ensures Valid()
      ensures properties == old(properties)[name := Property(t,
        if isOutputType then Variable(cell) else Constant(cells[cell]))]
      ensures propertiesXml == old(propertiesXml)
        + [PropertyElement(name, TypeString(t), if isOutputType then ReadWrite else Read)]
    {
      var xml, p;
      if !isOutputType {
        xml, p := PropertyElement(name, TypeString(t), Read), Property(t, Constant(cells[cell]));
      } else {
        xml, p := PropertyElement(name, TypeString(t), ReadWrite), Property(t, Variable(cell));
      }
      PropertiesExtend(propertiesXml, properties, xml, p);
      properties := properties[name := p];
      propertiesXml := propertiesXml + [xml];
    }

    /** `add_property` from callbacks over the state in `cell`: at least one of them is needed. */
    method AddPropertyCallbacks(name: string, t: CType, getter: Option<CValue -> Outcome<CValue>>,
                                setter: Option<(CValue, CValue) -> (CValue, Verdict)>, cell: nat)
      returns (ok: bool)
      requires Valid() && cell in cells
      modifies this`properties, this`propertiesXml
      ensures Valid()
      ensures ok <==> getter.Some? || setter.Some?
      ensures ok ==> properties == old(properties)[name := Property(t, Callbacks(getter, setter, cell))]
      ensures ok ==> propertiesXml == old(propertiesXml)
                     + [PropertyElement(name, TypeString(t), AccessOf(getter.Some?, setter.Some?))]
      ensures !ok ==> properties == old(properties) && propertiesXml == old(propertiesXml)
    {
      if setter.None? && getter.None? { return false; }
      var access: Access;
      if setter.None? {
        access := Read;
      } else if getter.None? {
        access := Write;
      } else {
        access := ReadWrite;
      }
      var xml, p := PropertyElement(name, TypeString(t), access), Property(t, Callbacks(getter, setter, cell));
      PropertiesExtend(propertiesXml, properties, xml, p);
      propertiesXml := propertiesXml + [xml];
      properties := properties[name := p];
      ok := true;
    }

    /** `add_signal`. */
    method AddSignal(name: string, ts: seq<CType>, argNames: seq<string>) returns (ok: bool)
      requires Valid()
      modifies this`signalsXml
      ensures Valid()
      ensures ok <==> NamesFit(argNames, |ts|)
      ensures ok ==> signalsXml == old(signalsXml) + [SignalElement(name,
        seq(|ts|, k requires 0 <= k < |ts| => (TypeString(ts[k]), ArgName(argNames, "arg", k))))]
      ensures ok ==> SignalNamed(signalsXml[|signalsXml| - 1].args, ts, argNames)
      ensures !ok ==> signalsXml == old(signalsXml)
    {
      if argNames != [] && |argNames| != |ts| { return false; }
      var args: seq<(string, string)> := [];
      for argIndex := 0 to |ts|
        invariant |args| == argIndex
        invariant forall k | 0 <= k < argIndex :: args[k] == (TypeString(ts[k]), ArgName(argNames, "arg", k))
      {
        args := args + [(TypeString(ts[argIndex]), ArgName(argNames, "arg", argIndex))];
      }
      assert args == seq(|ts|, k requires 0 <= k < |ts| => (TypeString(ts[k]), ArgName(argNames, "arg", k)));
      forall k | 0 <= k < |ts| ensures Named(args[k].1, argNames, "arg", k) {
        ArgNamed(argNames, "arg", k);
      }
      signalsXml := signalsXml + [SignalElement(name, args)];
      ok := true;
    }

    /** `handle_get_property`; Fault is an error reply, for a getter that throws and a value that
        cannot be written as well. */
    method HandleGetProperty(name: string, context: DBusContext) returns (r: Outcome<GVariant>)
      requires Valid()
      ensures r.Ok? <==>
        && name in properties && Readable(properties[name]) && !veto(OnGet, context)
        && var v := Value(properties[name], cells);
          v.Ok? && HasType(properties[name].t, v.value) && Encodable(properties[name].t, v.value)
      ensures r.Ok? ==> Encodes(properties[name].t, Value(properties[name], cells).value, r.value)
    {
      if name !in properties { return Fault; }
      var p := properties[name];
      if !Readable(p) { return Fault; }
      if veto(OnGet, context) { return Fault; }
      var v := Value(p, cells);
      if v.Fault? { return Fault; }
      // A text that is no object path fails GLib's check of `o`.
      if !HasType(p.t, v.value) { return Fault; }
      r := ToGVariant(p.t, v.value);
    }

    /** `handle_set_property`: a request that fails announces nothing, any other announces the value
        sent, a refused one included; cells, signal and reply are those of SetProperty. */
    method HandleSetProperty(name: string, g: GVariant, context: DBusContext) returns (reply: Reply)
      requires Valid()
      modifies this`cells, this`emitted
      ensures Valid()
      ensures name !in properties || !Writable(properties[name]) || veto(OnSet, context) ==>
        reply == Failed && cells == old(cells)
      ensures emitted == old(emitted) + if reply == Failed then [] else [(name, g)]
      ensures name in properties && !veto(OnSet, context) ==>
        var p, v := properties[name], Decode(properties[name].t, g);
        if !Writable(p) || v.Fault? then reply == Failed && cells == old(cells)
        else if p.backing.Variable? then reply == Done && cells == old(cells)[p.backing.cell := v.value]
        else
          var (s, verdict) := p.backing.setter.value(old(cells)[p.backing.cell], v.value);
          && cells == old(cells)[p.backing.cell := s]
          && (reply == Done <==> verdict == Accepted)
          && (reply == Refused <==> verdict == Rejected)
          && (reply == Failed <==> verdict == Threw)
      ensures name in properties && !veto(OnSet, context) ==>
        var e := SetProperty(old(AsServer()), name, g); cells == e.cells && reply == e.reply
    {
      if name !in properties { return Failed; }
      var p := properties[name];
      if !Writable(p) { return Failed; }
      if veto(OnSet, context) { return Failed; }
      reply := Setter(name, p, g);
    }

    /** The setter lambdas of include/object.inl:191-195 and 225-229: only the property's own cell
        changes, a throw announces nothing and a refusal is announced. */
    method Setter(name: string, p: Property, g: GVariant) returns (reply: Reply)
      requires Valid() && name in properties && p == properties[name] && Writable(p)
      modifies this`cells, this`emitted
      ensures Valid()
      ensures cells.Keys == old(cells).Keys && forall c | c in cells && c != p.backing.cell :: cells[c] == old(cells)[c]
      ensures emitted == old(emitted) + if reply == Failed then [] else [(name, g)]
      ensures p.backing.Variable? && Decode(p.t, g).Ok? ==> reply == Done && Value(p, cells) == Decode(p.t, g)
      ensures var e := SetProperty(old(AsServer()), name, g); cells == e.cells && reply == e.reply
    {
      var v := FromGVariant(p.t, g);
      AssignIsAnnounced(p, cells, name, g, v);
      if v.Fault? { return Failed; }
      if p.backing.Variable? {
        cells := cells[p.backing.cell := v.value];
        emitted := emitted + [(name, g)];
        reply := Done;
      } else {
        var (s, verdict) := p.backing.setter.value(cells[p.backing.cell], v.value);
        cells := cells[p.backing.cell := s];
        if verdict == Threw { return Failed; }
        emitted := emitted + [(name, g)];
        reply := if verdict == Accepted then Done else Refused;
      }
    }
  }

  /** The element appended last is the last of its name, and no other name notices. */
  lemma Append<T>(xml: seq<T>, e: T, named: T -> string)
    ensures LastAt(xml + [e], named, |xml|, named(e))
    ensures forall n, i | n != named(e) :: LastAt(xml + [e], named, i, n) <==> LastAt(xml, named, i, n)
    ensures forall i | LastAt(xml + [e], named, i, named(e)) :: i == |xml|
  {
    forall n, i | n != named(e) ensures LastAt(xml + [e], named, i, n) <==> LastAt(xml, named, i, n) {
      if LastAt(xml, named, i, n) {
        forall j | i < j < |xml + [e]| ensures named((xml + [e])[j]) != n {
        }
      }
      if LastAt(xml + [e], named, i, n) {
        forall j | i < j < |xml| ensures named(xml[j]) != n {
          assert xml[j] == (xml + [e])[j];
        }
      }
    }
    forall i | LastAt(xml + [e], named, i, named(e)) ensures i == |xml| {
      assert (xml + [e])[|xml|] == e;
    }
  }

  /** `add_method_helper`'s introspection loop; Fault is the exception for a bad name list. */
  method MethodHelper(name: string, ps: seq<Param>, ret: Returns, inNames: seq<string>, outNames: seq<string>)
    returns (r: Outcome<MethodElement>)
    ensures r.Ok? <==> Acceptable(ps, ret, inNames, outNames)
    ensures r.Ok? ==> r.value == MethodXml(name, ps, ret, inNames, outNames)
    ensures r.Ok? ==> ArgsNamed(r.value.args, ps, ret, inNames, outNames)
  {
    if ret != NoResult && outNames != [] && |outNames| != |RetTypes(ret)| { return Fault; }
    var args: seq<ArgElement> := [];
    var argIndex := 0;
    for i := 0 to |ps|
      invariant argIndex == |args| == |InTypes(ps[..i])|
      invariant inNames != [] ==> argIndex <= |inNames|
      invariant forall k | 0 <= k < argIndex ::
        args[k] == ArgElement(ArgName(inNames, "in_arg", k), TypeString(InTypes(ps[..i])[k]), In)
    {
      assert ps[..i + 1][..i] == ps[..i];
      if ps[i].ArgParam? {
        if inNames != [] && argIndex == |inNames| {
          TooFewNames(ps, i + 1, inNames);
          return Fault;
        }
        args := args + [ArgElement(ArgName(inNames, "in_arg", argIndex), TypeString(ps[i].t), In)];
        argIndex := argIndex + 1;
      }
    }
    assert ps[..|ps|] == ps;
    if inNames != [] && |inNames| != argIndex { return Fault; }
    assert args == InArgs(InTypes(ps), inNames);
    var outs := OutElements(ret, if ret == NoResult then [] else outNames);
    r := Ok(MethodElement(name, args + outs));
    MethodXmlNames(name, ps, ret, inNames, outNames);
  }

  /** The `out` half of include/object.inl:52-69. */
  method OutElements(ret: Returns, names: seq<string>) returns (outs: seq<ArgElement>)
    requires NamesFit(names, |RetTypes(ret)|)
    ensures outs == OutArgs(RetTypes(ret), names)
  {
    match ret {
      case NoResult => outs := [];
      case Single(t) => outs := [ArgElement(ArgName(names, "out_arg", 0), TypeString(t), Out)];
      case Several(ts) =>
        outs := [];
        for argIndex := 0 to |ts|
          invariant |outs| == argIndex
          invariant forall k | 0 <= k < argIndex ::
            outs[k] == ArgElement(ArgName(names, "out_arg", k), TypeString(ts[k]), Out)
        {
          outs := outs + [ArgElement(ArgName(names, "out_arg", argIndex), TypeString(ts[argIndex]), Out)];
        }
    }
  }

  lemma {:induction false} TooFewNames(ps: seq<Param>, i: nat, names: seq<string>)
    requires i <= |ps| && |InTypes(ps[..i])| > |names|
    ensures |InTypes(ps)| > |names|
    decreases |ps| - i
  {
    if i < |ps| {
      assert ps[..i + 1][..i] == ps[..i];
      TooFewNames(ps, i + 1, names);
    } else {
      assert ps[..i] == ps;
    }
  }
}
